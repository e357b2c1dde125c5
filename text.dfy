/** The few string operations the app performs on cell values: decimal formatting with
    zero padding, `int(...)` on digit strings, `split(sep)[-1]`, `startswith` and `strip()`. */
module Text {
  import opened Wrappers

  predicate IsDigit(c: char) {
    '0' <= c <= '9'
  }

  predicate AllDigits(s: string) {
    forall i :: 0 <= i < |s| ==> IsDigit(s[i])
  }

  function DigitChar(n: nat): (c: char)
    requires n < 10
    ensures IsDigit(c) && c as int - '0' as int == n
  {
    ('0' as int + n) as char
  }

  /** Decimal digits of `n` without leading zeros, as Python's `str(n)` writes them. */
  function Digits(n: nat): (s: string)
    ensures 1 <= |s| && AllDigits(s)
    ensures |s| == 1 <==> n < 10
    ensures n < 100 ==> |s| <= 2
    ensures n < 10000 ==> |s| <= 4
  {
    if n < 10 then [DigitChar(n)] else Digits(n / 10) + [DigitChar(n % 10)]
  }

  function Zeros(k: nat): (s: string)
    ensures |s| == k && forall i :: 0 <= i < k ==> s[i] == '0'
  {
    if k == 0 then [] else Zeros(k - 1) + ['0']
  }

  /** `n` padded with zeros to at least `width` digits, as Python's `f"{n:0{width}d}"`
      and `date.isoformat()` write non-negative numbers. */
  function ZeroPad(n: nat, width: nat): (s: string)
    ensures AllDigits(s)
    ensures |s| == if |Digits(n)| >= width then |Digits(n)| else width
  {
    var d := Digits(n);
    if |d| >= width then d else Zeros(width - |d|) + d
  }

  /** The number denoted by a string of decimal digits, most significant digit first. */
  function Value(s: string): nat
    requires AllDigits(s)
  {
    if s == [] then 0 else Value(s[..|s| - 1]) * 10 + (s[|s| - 1] as int - '0' as int)
  }

  /** Python's `int(s)` on a string: the number when `s` is a non-empty run of ASCII
      digits, and `None` otherwise. `int` also accepts surrounding whitespace, a sign,
      underscores between digits and non-ASCII decimal digits; this parse does not. */
  function ParseNat(s: string): (r: Option<nat>)
    ensures r.Some? <==> |s| > 0 && AllDigits(s)
  {
    if |s| > 0 && AllDigits(s) then Some(Value(s)) else None
  }

  lemma {:induction false} ValueOfDigits(n: nat)
    ensures Value(Digits(n)) == n
  {
    if n >= 10 {
      var d := Digits(n);
      assert d[..|d| - 1] == Digits(n / 10);
      ValueOfDigits(n / 10);
    }
  }

  lemma {:induction false} ValueOfZeros(k: nat)
    ensures AllDigits(Zeros(k)) && Value(Zeros(k)) == 0
  {
    if k > 0 {
      assert Zeros(k)[..k - 1] == Zeros(k - 1);
      ValueOfZeros(k - 1);
    }
  }

  lemma {:induction false} ValueIgnoresLeadingZeros(k: nat, s: string)
    requires AllDigits(s)
    ensures AllDigits(Zeros(k) + s) && Value(Zeros(k) + s) == Value(s)
  {
    var t := Zeros(k) + s;
    if s == [] {
      assert t == Zeros(k);
      ValueOfZeros(k);
    } else {
      assert t[..|t| - 1] == Zeros(k) + s[..|s| - 1];
      ValueIgnoresLeadingZeros(k, s[..|s| - 1]);
    }
  }

  /** Reading a zero-padded number back gives the number: `int(f"{n:0{w}d}") == n`. */
  lemma ParseZeroPad(n: nat, width: nat)
    ensures ParseNat(ZeroPad(n, width)) == Some(n)
  {
    var d := Digits(n);
    ValueOfDigits(n);
    if |d| < width {
      ValueIgnoresLeadingZeros(width - |d|, d);
    }
  }

  /** The text after the last `sep` in `s`, or all of `s` when it has none: Python's
      `s.split(sep)[-1]`. */
  function LastField(s: string, sep: char): (r: string)
    ensures sep !in r
    ensures |r| <= |s| && r == s[|s| - |r|..]
    ensures |r| < |s| ==> s[|s| - |r| - 1] == sep
  {
    if s == [] || s[|s| - 1] == sep then [] else LastField(s[..|s| - 1], sep) + [s[|s| - 1]]
  }

  lemma {:induction false} LastFieldAfterSeparator(a: string, sep: char, b: string)
    requires sep !in b
    ensures LastField(a + [sep] + b, sep) == b
  {
    var s := a + [sep] + b;
    if b == [] {
      assert s[|s| - 1] == sep;
    } else {
      assert s[..|s| - 1] == a + [sep] + b[..|b| - 1];
      LastFieldAfterSeparator(a, sep, b[..|b| - 1]);
    }
  }

  predicate StartsWith(s: string, prefix: string) {
    |prefix| <= |s| && s[..|prefix|] == prefix
  }

  /** The characters Python's `str.isspace()` accepts, which `str.strip()` removes. */
  predicate IsSpace(c: char) {
    var n := c as int;
    (9 <= n <= 13) || (28 <= n <= 32) || n == 0x85 || n == 0xA0 || n == 0x1680
    || (0x2000 <= n <= 0x200A) || n == 0x2028 || n == 0x2029 || n == 0x202F
    || n == 0x205F || n == 0x3000
  }

  /** The first position at or after `i` that does not hold whitespace (`|s|` if none). */
  function SkipSpaces(s: string, i: nat): (j: nat)
    requires i <= |s|
    ensures i <= j <= |s|
    ensures j < |s| ==> !IsSpace(s[j])
    decreases |s| - i
  {
    if i < |s| && IsSpace(s[i]) then SkipSpaces(s, i + 1) else i
  }

  /** The end of `s[lo..j]` once its trailing whitespace is dropped. */
  function BackSpaces(s: string, lo: nat, j: nat): (k: nat)
    requires lo <= j <= |s|
    ensures lo <= k <= j
    ensures k > lo ==> !IsSpace(s[k - 1])
  {
    if j > lo && IsSpace(s[j - 1]) then BackSpaces(s, lo, j - 1) else j
  }

  /** Python's `s.strip()`: `s` without its leading and trailing whitespace. */
  function Strip(s: string): (r: string)
    ensures |r| <= |s|
    ensures r == [] || (!IsSpace(r[0]) && !IsSpace(r[|r| - 1]))
  {
    var lo := SkipSpaces(s, 0);
    s[lo..BackSpaces(s, lo, |s|)]
  }

  /** Everything `SkipSpaces` passes over is whitespace. */
  lemma {:induction false} SkipSpacesSkipsSpaces(s: string, i: nat)
    requires i <= |s|
    ensures forall m :: i <= m < SkipSpaces(s, i) ==> IsSpace(s[m])
    decreases |s| - i
  {
    if i < |s| && IsSpace(s[i]) {
      SkipSpacesSkipsSpaces(s, i + 1);
    }
  }

  /** Everything `BackSpaces` drops is whitespace. */
  lemma {:induction false} BackSpacesDropsSpaces(s: string, lo: nat, j: nat)
    requires lo <= j <= |s|
    ensures forall m :: BackSpaces(s, lo, j) <= m < j ==> IsSpace(s[m])
  {
    if j > lo && IsSpace(s[j - 1]) {
      BackSpacesDropsSpaces(s, lo, j - 1);
    }
  }

  /** What `strip()` removes is whitespace only, and only at the two ends: the result
      is a slice of `s` with nothing but whitespace before and after it. */
  lemma StripRemovesOnlyEnds(s: string)
    ensures var lo := SkipSpaces(s, 0);
      && lo + |Strip(s)| <= |s| && Strip(s) == s[lo..lo + |Strip(s)|]
      && (forall i :: 0 <= i < lo ==> IsSpace(s[i]))
      && (forall i :: lo + |Strip(s)| <= i < |s| ==> IsSpace(s[i]))
  {
    var lo := SkipSpaces(s, 0);
    SkipSpacesSkipsSpaces(s, 0);
    BackSpacesDropsSpaces(s, lo, |s|);
  }
}
