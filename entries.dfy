/** Time-stamped rows about one student each, as kept by the XP ledger (the payload is
    the change) and by the observation log (the payload is the text). Both tables are
    read the same way: the rows of one student, newest first; and trimmed the same way:
    every row of the student whose timestamp is in a requested set is removed. */
module Entries {

  /** One row: when it was written, whose it is, the student's name at that time, and
      the payload. Timestamps are compared as numbers; second-precision ISO strings
      compare in the same order. */
  datatype Entry<P> = Entry(timestamp: int, id: int, name: string, body: P)

  /** The row is one of student `sid`'s and its timestamp was requested. */
  predicate Matches<P>(e: Entry<P>, sid: int, ts: set<int>) {
    e.id == sid && e.timestamp in ts
  }

  /** The rows of student `sid`, in table order: `df[df["id"] == sid]`. */
  function EntriesFor<P>(rows: seq<Entry<P>>, sid: int): (r: seq<Entry<P>>)
    ensures |r| <= |rows|
    ensures forall i :: 0 <= i < |r| ==> r[i].id == sid
  {
    if rows == [] then []
    else
      var init, last := rows[..|rows| - 1], rows[|rows| - 1];
      EntriesFor(init, sid) + (if last.id == sid then [last] else [])
  }

  /** The rows a deletion removes: `(df["id"] == sid) & df["timestamp"].isin(ts)`. */
  function Selected<P>(rows: seq<Entry<P>>, sid: int, ts: set<int>): (r: seq<Entry<P>>)
    ensures |r| <= |rows|
    ensures forall i :: 0 <= i < |r| ==> Matches(r[i], sid, ts)
  {
    if rows == [] then []
    else
      var init, last := rows[..|rows| - 1], rows[|rows| - 1];
      Selected(init, sid, ts) + (if Matches(last, sid, ts) then [last] else [])
  }

  /** The table a deletion leaves: `df[~mask]`, the other rows in their order. */
  function DeleteFor<P>(rows: seq<Entry<P>>, sid: int, ts: set<int>): (r: seq<Entry<P>>)
    ensures |r| <= |rows|
    ensures forall i :: 0 <= i < |r| ==> !Matches(r[i], sid, ts)
  {
    if rows == [] then []
    else
      var init, last := rows[..|rows| - 1], rows[|rows| - 1];
      DeleteFor(init, sid, ts) + (if Matches(last, sid, ts) then [] else [last])
  }

  /** A deletion splits the table: what it removes and what it keeps make up the
      table, so the count it reports (`before - after`) is the number of matching rows. */
  lemma {:induction false} DeletePartition<P>(rows: seq<Entry<P>>, sid: int, ts: set<int>)
    ensures multiset(Selected(rows, sid, ts)) + multiset(DeleteFor(rows, sid, ts)) == multiset(rows)
    ensures |rows| - |DeleteFor(rows, sid, ts)| == |Selected(rows, sid, ts)|
  {
    if rows != [] {
      var init, last := rows[..|rows| - 1], rows[|rows| - 1];
      assert rows == init + [last];
      DeletePartition(init, sid, ts);
    }
  }

  /** A deletion removes every row of the student with a requested timestamp, however
      many share it, and keeps every other row as often as it occurs. */
  lemma DeleteExact<P>(rows: seq<Entry<P>>, sid: int, ts: set<int>)
    ensures forall e: Entry<P> :: Matches(e, sid, ts) ==>
      multiset(DeleteFor(rows, sid, ts))[e] == 0 && multiset(Selected(rows, sid, ts))[e] == multiset(rows)[e]
    ensures forall e: Entry<P> :: !Matches(e, sid, ts) ==>
      multiset(DeleteFor(rows, sid, ts))[e] == multiset(rows)[e] && multiset(Selected(rows, sid, ts))[e] == 0
  {
    var kept, gone := DeleteFor(rows, sid, ts), Selected(rows, sid, ts);
    DeletePartition(rows, sid, ts);
    forall e: Entry<P> | Matches(e, sid, ts) ensures multiset(kept)[e] == 0 {
      assert forall i :: 0 <= i < |kept| ==> kept[i] != e;
      assert e !in kept;
    }
    forall e: Entry<P> | !Matches(e, sid, ts) ensures multiset(gone)[e] == 0 {
      assert forall i :: 0 <= i < |gone| ==> gone[i] != e;
      assert e !in gone;
    }
  }

  /** The student's rows are all the rows of the student, each as often as it occurs. */
  lemma {:induction false} EntriesForExact<P>(rows: seq<Entry<P>>, sid: int, e: Entry<P>)
    ensures multiset(EntriesFor(rows, sid))[e] == if e.id == sid then multiset(rows)[e] else 0
  {
    if rows != [] {
      var init, last := rows[..|rows| - 1], rows[|rows| - 1];
      assert rows == init + [last];
      EntriesForExact(init, sid, e);
    }
  }

  /** Deleting from a concatenation deletes from each part: the kept rows stay in
      their order. */
  lemma {:induction false} DeleteForAppend<P>(a: seq<Entry<P>>, b: seq<Entry<P>>, sid: int, ts: set<int>)
    ensures DeleteFor(a + b, sid, ts) == DeleteFor(a, sid, ts) + DeleteFor(b, sid, ts)
  {
    if b != [] {
      var init, last := b[..|b| - 1], b[|b| - 1];
      assert (a + b)[..|a + b| - 1] == a + init;
      DeleteForAppend(a, init, sid, ts);
    } else {
      assert a + b == a;
    }
  }

  /** A deletion that matches no row leaves the table as it was. */
  lemma {:induction false} DeleteNothing<P>(rows: seq<Entry<P>>, sid: int, ts: set<int>)
    requires forall i :: 0 <= i < |rows| ==> !Matches(rows[i], sid, ts)
    ensures DeleteFor(rows, sid, ts) == rows
  {
    if rows != [] {
      var init := rows[..|rows| - 1];
      DeleteNothing(init, sid, ts);
    }
  }

  /** A deletion that selects no row leaves the table as it was. */
  lemma NothingSelected<P>(rows: seq<Entry<P>>, sid: int, ts: set<int>)
    requires Selected(rows, sid, ts) == []
    ensures DeleteFor(rows, sid, ts) == rows
  {
    forall i | 0 <= i < |rows|
      ensures !Matches(rows[i], sid, ts)
    {
      SelectedCount(rows, sid, ts, rows[i]);
    }
    DeleteNothing(rows, sid, ts);
  }

  /** Writing a row and then deleting the student's rows at its timestamp restores the
      table, provided the student had no earlier row at that timestamp. */
  lemma AppendThenDelete<P>(rows: seq<Entry<P>>, e: Entry<P>)
    requires forall i :: 0 <= i < |rows| && rows[i].id == e.id ==> rows[i].timestamp != e.timestamp
    ensures DeleteFor(rows + [e], e.id, {e.timestamp}) == rows
  {
    DeleteForAppend(rows, [e], e.id, {e.timestamp});
    DeleteOwnRow(e);
    FreshTimestampUntouched(rows, e);
  }

  lemma DeleteOwnRow<P>(e: Entry<P>)
    ensures DeleteFor([e], e.id, {e.timestamp}) == []
  {
    assert [e][..0] == [];
  }

  lemma FreshTimestampUntouched<P>(rows: seq<Entry<P>>, e: Entry<P>)
    requires forall i :: 0 <= i < |rows| && rows[i].id == e.id ==> rows[i].timestamp != e.timestamp
    ensures DeleteFor(rows, e.id, {e.timestamp}) + [] == rows
  {
    assert forall i :: 0 <= i < |rows| ==> !Matches(rows[i], e.id, {e.timestamp});
    DeleteNothing(rows, e.id, {e.timestamp});
  }

  /** Taking out one element of a sequence takes one occurrence out of its multiset. */
  lemma MultisetRemoveAt<T>(b: seq<T>, j: nat)
    requires j < |b|
    ensures multiset(b[..j] + b[j + 1..]) == multiset(b) - multiset{b[j]}
  {
    assert b == b[..j] + [b[j]] + b[j + 1..];
  }

  /** Requested timestamps that the student has no row for are ignored. */
  lemma {:induction false} DeleteIgnoresAbsent<P>(rows: seq<Entry<P>>, sid: int, ts: set<int>, t: int)
    requires forall i :: 0 <= i < |rows| && rows[i].id == sid ==> rows[i].timestamp != t
    ensures DeleteFor(rows, sid, ts + {t}) == DeleteFor(rows, sid, ts)
    ensures Selected(rows, sid, ts + {t}) == Selected(rows, sid, ts)
  {
    if rows != [] {
      var init := rows[..|rows| - 1];
      DeleteIgnoresAbsent(init, sid, ts, t);
    }
  }

  /** A deletion for one student leaves the rows of every other student as they were. */
  lemma {:induction false} DeleteKeepsOthers<P>(rows: seq<Entry<P>>, sid: int, ts: set<int>, k: int)
    requires k != sid
    ensures EntriesFor(DeleteFor(rows, sid, ts), k) == EntriesFor(rows, k)
  {
    if rows != [] {
      var init, last := rows[..|rows| - 1], rows[|rows| - 1];
      DeleteKeepsOthers(init, sid, ts, k);
      var d := DeleteFor(init, sid, ts);
      assert EntriesFor(rows, k) == EntriesFor(init, k) + (if last.id == k then [last] else []);
      if !Matches(last, sid, ts) {
        assert DeleteFor(rows, sid, ts) == d + [last];
        EntriesForAppend(d, last, k);
      } else {
        assert DeleteFor(rows, sid, ts) == d;
      }
    }
  }

  /** Appending a row adds it to its own student's rows and to no one else's. */
  lemma EntriesForAppend<P>(rows: seq<Entry<P>>, e: Entry<P>, k: int)
    ensures EntriesFor(rows + [e], k) == EntriesFor(rows, k) + (if e.id == k then [e] else [])
  {
    assert (rows + [e])[..|rows + [e]| - 1] == rows;
  }

  /** Filtering a concatenation filters each part. */
  lemma {:induction false} EntriesForConcat<P>(a: seq<Entry<P>>, b: seq<Entry<P>>, k: int)
    ensures EntriesFor(a + b, k) == EntriesFor(a, k) + EntriesFor(b, k)
  {
    if b == [] {
      assert a + b == a;
    } else {
      var init, last := b[..|b| - 1], b[|b| - 1];
      assert a + b == (a + init) + [last];
      EntriesForConcat(a, init, k);
      EntriesForAppend(a + init, last, k);
      EntriesForAppend(init, last, k);
      assert b == init + [last];
    }
  }

  /** Newest first: `sort_values("timestamp", ascending=False)`. */
  predicate NewestFirst<P>(s: seq<Entry<P>>) {
    forall i, j :: 0 <= i < j < |s| ==> s[i].timestamp >= s[j].timestamp
  }

  /** `x` placed into a newest-first sequence. */
  function Insert<P>(x: Entry<P>, s: seq<Entry<P>>): (r: seq<Entry<P>>)
    requires NewestFirst(s)
    ensures NewestFirst(r)
    ensures multiset(r) == multiset(s) + multiset{x}
    ensures r[0] == x || (s != [] && r[0] == s[0])
  {
    if s == [] || x.timestamp >= s[0].timestamp then [x] + s
    else
      var t := Insert(x, s[1..]);
      InsertBehindHead(x, s, t);
      [s[0]] + t
  }

  /** Inserting behind the head of a newest-first sequence: the head stays in front. */
  lemma InsertBehindHead<P>(x: Entry<P>, s: seq<Entry<P>>, t: seq<Entry<P>>)
    requires NewestFirst(s) && s != [] && x.timestamp < s[0].timestamp
    requires NewestFirst(t) && multiset(t) == multiset(s[1..]) + multiset{x}
    requires t[0] == x || (s[1..] != [] && t[0] == s[1..][0])
    ensures NewestFirst([s[0]] + t)
    ensures multiset([s[0]] + t) == multiset(s) + multiset{x}
  {
    assert s == [s[0]] + s[1..];
    ConsNewestFirst(s[0], t);
  }

  /** A row no older than the head of a newest-first sequence can go in front of it. */
  lemma ConsNewestFirst<P>(h: Entry<P>, t: seq<Entry<P>>)
    requires NewestFirst(t) && (t == [] || t[0].timestamp <= h.timestamp)
    ensures NewestFirst([h] + t)
  {
  }

  /** The rows newest first; rows with equal timestamps keep some order. */
  function SortNewestFirst<P>(s: seq<Entry<P>>): (r: seq<Entry<P>>)
    ensures NewestFirst(r)
    ensures multiset(r) == multiset(s)
  {
    if s == [] then []
    else
      assert s == s[..|s| - 1] + [s[|s| - 1]];
      Insert(s[|s| - 1], SortNewestFirst(s[..|s| - 1]))
  }

  /** `all_logs_for` / `all_observations_for`: the student's rows, newest first. */
  function AllFor<P>(rows: seq<Entry<P>>, sid: int): seq<Entry<P>> {
    SortNewestFirst(EntriesFor(rows, sid))
  }

  /** `recent_logs_for` / `observations_for`: the first `limit` of the student's rows,
      newest first (`.head(limit)`). */
  function Recent<P>(rows: seq<Entry<P>>, sid: int, limit: nat): seq<Entry<P>> {
    var all := AllFor(rows, sid);
    all[..if limit < |all| then limit else |all|]
  }

  /** The student's listing holds each of the student's rows once and only those,
      newest first. */
  lemma AllForIsListing<P>(rows: seq<Entry<P>>, sid: int)
    ensures var r := AllFor(rows, sid);
      && NewestFirst(r)
      && (forall i :: 0 <= i < |r| ==> r[i].id == sid)
      && (forall e: Entry<P> :: e.id == sid ==> multiset(r)[e] == multiset(rows)[e])
  {
    var r, mine := AllFor(rows, sid), EntriesFor(rows, sid);
    forall i | 0 <= i < |r|
      ensures r[i].id == sid
    {
      assert r[i] in multiset(mine);
      var j :| 0 <= j < |mine| && mine[j] == r[i];
    }
    forall e: Entry<P> | e.id == sid ensures multiset(r)[e] == multiset(rows)[e] {
      EntriesForExact(rows, sid, e);
    }
  }

  /** The rows a deletion selects, each as often as it occurs. */
  lemma {:induction false} SelectedCount<P>(rows: seq<Entry<P>>, sid: int, ts: set<int>, e: Entry<P>)
    ensures multiset(Selected(rows, sid, ts))[e] == if Matches(e, sid, ts) then multiset(rows)[e] else 0
  {
    if rows != [] {
      var init, last := rows[..|rows| - 1], rows[|rows| - 1];
      assert rows == init + [last];
      SelectedCount(init, sid, ts, e);
    }
  }

  /** Selecting from the student's listing selects the same rows as selecting from the
      table, in another order. */
  lemma SelectedOfListing<P>(rows: seq<Entry<P>>, sid: int, ts: set<int>)
    ensures forall e: Entry<P> ::
      multiset(Selected(AllFor(rows, sid), sid, ts))[e] == multiset(Selected(rows, sid, ts))[e]
  {
    var listing := AllFor(rows, sid);
    AllForIsListing(rows, sid);
    forall e: Entry<P> ensures multiset(Selected(listing, sid, ts))[e] == multiset(Selected(rows, sid, ts))[e] {
      SelectedCount(listing, sid, ts, e);
      SelectedCount(rows, sid, ts, e);
    }
  }

  /** The recent listing shows `min(limit, n)` of the student's `n` rows, newest first,
      and only rows of the student. */
  lemma RecentShape<P>(rows: seq<Entry<P>>, sid: int, limit: nat)
    ensures var r := Recent(rows, sid, limit);
      var n := |EntriesFor(rows, sid)|;
      && |r| == (if limit < n then limit else n)
      && NewestFirst(r)
      && (forall i :: 0 <= i < |r| ==> r[i].id == sid)
  {
    var all := AllFor(rows, sid);
    assert |multiset(all)| == |multiset(EntriesFor(rows, sid))|;
    AllForIsListing(rows, sid);
    var k := if limit < |all| then limit else |all|;
    PrefixNewestFirst(all, k);
  }

  lemma PrefixNewestFirst<P>(s: seq<Entry<P>>, k: nat)
    requires NewestFirst(s) && k <= |s|
    ensures NewestFirst(s[..k])
  {
  }

  /** In a newest-first sequence, nothing after position `k` is newer than anything before it. */
  lemma SplitNewest<P>(s: seq<Entry<P>>, k: nat)
    requires NewestFirst(s) && k <= |s|
    ensures multiset(s) == multiset(s[..k]) + multiset(s[k..])
    ensures forall e: Entry<P>, i :: e in multiset(s[k..]) && 0 <= i < k ==> e.timestamp <= s[i].timestamp
  {
    assert s == s[..k] + s[k..];
    forall e: Entry<P>, i | e in multiset(s[k..]) && 0 <= i < k
      ensures e.timestamp <= s[i].timestamp
    {
      var j :| 0 <= j < |s[k..]| && s[k..][j] == e;
      assert s[k + j] == e;
    }
  }

  /** The recent listing is drawn from the student's rows, and no row of the student
      left out of it is newer than any row shown. */
  lemma RecentIsNewest<P>(rows: seq<Entry<P>>, sid: int, limit: nat)
    ensures var r := Recent(rows, sid, limit);
      var mine := EntriesFor(rows, sid);
      && multiset(r) <= multiset(mine)
      && (forall e: Entry<P>, i :: e in multiset(mine) - multiset(r) && 0 <= i < |r| ==> e.timestamp <= r[i].timestamp)
  {
    var all := AllFor(rows, sid);
    var k := if limit < |all| then limit else |all|;
    SplitNewest(all, k);
  }
}
