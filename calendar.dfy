/** Proleptic Gregorian calendar facts the attendance calendar relies on: month lengths
    (`calendar.monthrange`), ISO day strings (`date(y, m, d).isoformat()`), the month
    prefix the month view filters by, and the month navigation arrows. */
module Calendar {
  import opened Wrappers
  import opened Text

  predicate IsLeap(y: int) {
    y % 4 == 0 && (y % 100 != 0 || y % 400 == 0)
  }

  /** Number of days in month `m` of year `y` (the second value of `calendar.monthrange`). */
  function DaysInMonth(y: int, m: int): (n: nat)
    requires 1 <= m <= 12
    ensures 28 <= n <= 31
  {
    if m == 2 then (if IsLeap(y) then 29 else 28)
    else if m == 4 || m == 6 || m == 9 || m == 11 then 30
    else 31
  }

  /** A year and month `datetime.date` accepts (years 1 to 9999). */
  predicate ValidMonth(y: int, m: int) {
    1 <= y <= 9999 && 1 <= m <= 12
  }

  /** A day `datetime.date(y, m, d)` accepts; any other raises `ValueError`. */
  predicate ValidDate(y: int, m: int, d: int) {
    ValidMonth(y, m) && 1 <= d <= DaysInMonth(y, m)
  }

  /** `f"{y:04d}-{m:02d}-"`: the prefix every ISO day of that month starts with. */
  function MonthPrefix(y: int, m: int): (p: string)
    requires ValidMonth(y, m)
    ensures |p| == 8 && p[4] == '-' && p[7] == '-'
    ensures AllDigits(p[..4]) && AllDigits(p[5..7])
  {
    ZeroPad(y, 4) + "-" + ZeroPad(m, 2) + "-"
  }

  /** `date(y, m, d).isoformat()`: the day as `YYYY-MM-DD`. */
  function IsoDate(y: int, m: int, d: int): (s: string)
    requires ValidDate(y, m, d)
    ensures IsIsoShape(s)
  {
    ZeroPad(y, 4) + "-" + ZeroPad(m, 2) + "-" + ZeroPad(d, 2)
  }

  /** The shape of an ISO day string: ten characters, `-` at positions 4 and 7, digits elsewhere. */
  predicate IsIsoShape(s: string) {
    |s| == 10 && s[4] == '-' && s[7] == '-'
    && AllDigits(s[..4]) && AllDigits(s[5..7]) && AllDigits(s[8..])
  }

  /** The ISO string of a day lies in its month, and the month view's
      `int(date.split("-")[-1])` reads the day number back from it. */
  lemma IsoDateInMonth(y: int, m: int, d: int)
    requires ValidDate(y, m, d)
    ensures StartsWith(IsoDate(y, m, d), MonthPrefix(y, m))
    ensures ParseNat(LastField(IsoDate(y, m, d), '-')) == Some(d)
  {
    var s := IsoDate(y, m, d);
    assert s == (ZeroPad(y, 4) + "-" + ZeroPad(m, 2)) + ['-'] + ZeroPad(d, 2);
    LastFieldAfterSeparator(ZeroPad(y, 4) + "-" + ZeroPad(m, 2), '-', ZeroPad(d, 2));
    ParseZeroPad(d, 2);
  }

  /** Conversely, an ISO-shaped string in the month whose day field reads as `d` is the
      ISO string of day `d` of that month: on well-formed dates the month view's parse
      loses nothing. */
  lemma {:induction false} IsoShapeDetermined(s: string, y: int, m: int, d: nat)
    requires ValidDate(y, m, d)
    requires IsIsoShape(s) && StartsWith(s, MonthPrefix(y, m))
    requires ParseNat(LastField(s, '-')) == Some(d)
    ensures s == IsoDate(y, m, d)
  {
    var p := MonthPrefix(y, m);
    var tail := s[8..];
    assert s == p[..7] + ['-'] + tail;
    LastFieldAfterSeparator(p[..7], '-', tail);
    TwoDigitsDetermined(tail, d);
    assert s == p + ZeroPad(d, 2);
  }

  /** A two-character digit string denoting `d` is `d` padded to two digits. */
  lemma TwoDigitsDetermined(t: string, d: nat)
    requires |t| == 2 && AllDigits(t) && Value(t) == d
    ensures t == ZeroPad(d, 2)
  {
    assert t[..1][..0] == [] && t[..1][0] == t[0] && t[..|t| - 1] == t[..1];
    assert Value(t[..1]) == t[0] as int - '0' as int;
    assert Value(t) == (t[0] as int - '0' as int) * 10 + (t[1] as int - '0' as int);
    var hi, lo := t[0] as int - '0' as int, t[1] as int - '0' as int;
    assert t[0] == DigitChar(hi) && t[1] == DigitChar(lo);
    if d < 10 {
      assert hi == 0 && lo == d;
      assert Digits(d) == [DigitChar(d)];
      assert ZeroPad(d, 2) == Zeros(1) + [DigitChar(d)];
    } else {
      assert d / 10 == hi && d % 10 == lo;
      assert Digits(d) == [DigitChar(hi)] + [DigitChar(lo)];
    }
  }

  /** The "◀" arrow: the month before `(y, m)`, wrapping from January to December. */
  function PrevMonth(y: int, m: int): (r: (int, int))
    ensures 12 * r.0 + r.1 == 12 * y + m - 1
    ensures 1 <= m <= 12 ==> 1 <= r.1 <= 12
  {
    var nm, ny := m - 1, y;
    if nm == 0 then (ny - 1, 12) else (ny, nm)
  }

  /** The "▶" arrow: the month after `(y, m)`, wrapping from December to January. */
  function NextMonth(y: int, m: int): (r: (int, int))
    ensures 12 * r.0 + r.1 == 12 * y + m + 1
    ensures 1 <= m <= 12 ==> 1 <= r.1 <= 12
  {
    var nm, ny := m + 1, y;
    if nm == 13 then (ny + 1, 1) else (ny, nm)
  }

  /** The two arrows undo each other on every valid month. */
  lemma ArrowsInverse(y: int, m: int)
    requires 1 <= m <= 12
    ensures NextMonth(PrevMonth(y, m).0, PrevMonth(y, m).1) == (y, m)
    ensures PrevMonth(NextMonth(y, m).0, NextMonth(y, m).1) == (y, m)
  {
  }
}
