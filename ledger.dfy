/** The XP ledger: the roster of students with their balances, and the log of every
    change made to a balance. A change is applied to the roster and logged in the same
    step; deleting logged changes reverses them on the balance. The quantity every such
    step keeps is a student's opening balance: the balance minus the sum of the
    student's logged changes. */
module Ledger {
  import opened Wrappers
  import opened Text
  import opened Entries

  /** The roster columns a bulk apply copies from the editor. */
  datatype Profile = Profile(name: string, grupo: string, colegioId: int, phone: string,
                             teacher: string, avatar: string, trinket: string, trinketDesc: string)

  /** One roster row: its balance `xp` and a pending change `xpDelta` with its reason. */
  datatype Student = Student(id: int, profile: Profile, xp: int, xpDelta: int, xpReason: string)

  /** The payload of a log row: the change to the balance and why. */
  datatype Change = Change(delta: int, reason: string)

  type LogEntry = Entry<Change>

  /** One row of the roster editor; rows added in the editor may have no id yet. */
  datatype EditRow = EditRow(id: Option<int>, profile: Profile, xpDelta: int, xpReason: string)

  /** A change names a student the roster does not hold (`.iloc[0]` on an empty selection). */
  datatype LedgerError = StudentNotFound(id: int)

  /** How many rows `recent_logs_for` shows. */
  const RecentLimit: nat := 12

  /** Position of the first roster row of student `sid`. */
  function FindIndex(students: seq<Student>, sid: int): (r: Option<nat>)
    ensures r.Some? ==> r.value < |students| && students[r.value].id == sid
  {
    if students == [] then None
    else if students[0].id == sid then Some(0)
    else match FindIndex(students[1..], sid)
      case None => None
      case Some(i) => Some(i + 1)
  }

  /** The lookup finds the first row of the student, and finds none exactly when the
      roster holds no row of the student. */
  lemma {:induction false} FindIndexFirst(students: seq<Student>, sid: int)
    ensures var r := FindIndex(students, sid);
      && (r.Some? ==> forall j :: 0 <= j < r.value ==> students[j].id != sid)
      && (r.None? ==> forall j :: 0 <= j < |students| ==> students[j].id != sid)
  {
    if students != [] && students[0].id != sid {
      FindIndexFirst(students[1..], sid);
      assert forall j :: 1 <= j < |students| ==> students[j] == students[1..][j - 1];
    }
  }

  /** The first roster row of student `sid`: `students[students["id"] == sid].iloc[0]`. */
  function Find(students: seq<Student>, sid: int): Option<Student> {
    match FindIndex(students, sid)
    case None => None
    case Some(i) => Some(students[i])
  }

  /** `students.loc[students["id"] == sid, "xp"] = xp`: every row of the student. */
  function SetXp(students: seq<Student>, sid: int, xp: int): (r: seq<Student>)
    ensures |r| == |students|
  {
    seq(|students|, i requires 0 <= i < |students| =>
      if students[i].id == sid then students[i].(xp := xp) else students[i])
  }

  /** `base.loc[base["id"] == sid, c] = rr[c]` for every profile column `c`. */
  function CopyProfile(students: seq<Student>, sid: int, p: Profile): (r: seq<Student>)
    ensures |r| == |students|
  {
    seq(|students|, i requires 0 <= i < |students| =>
      if students[i].id == sid then students[i].(profile := p) else students[i])
  }

  /** `base["xp_delta"] = 0`. */
  function ResetDeltas(students: seq<Student>): (r: seq<Student>)
    ensures |r| == |students|
  {
    seq(|students|, i requires 0 <= i < |students| => students[i].(xpDelta := 0))
  }

  predicate SameIds(a: seq<Student>, b: seq<Student>) {
    |a| == |b| && forall i :: 0 <= i < |a| ==> a[i].id == b[i].id
  }

  /** Tables with the same ids in the same places find every student at the same place. */
  lemma SameIdsFindIndex(a: seq<Student>, b: seq<Student>, k: int)
    requires SameIds(a, b)
    ensures FindIndex(a, k) == FindIndex(b, k)
  {
    var ia, ib := FindIndex(a, k), FindIndex(b, k);
    FindIndexFirst(a, k);
    FindIndexFirst(b, k);
    if ia.Some? {
      assert b[ia.value].id == k;
    }
    if ib.Some? {
      assert a[ib.value].id == k;
    }
  }

  /** Setting a student's balance changes that student's balance, and nothing else any
      lookup can see. */
  lemma FindAfterSetXp(students: seq<Student>, sid: int, xp: int, k: int)
    ensures Find(SetXp(students, sid, xp), k)
         == match Find(students, k)
            case None => None
            case Some(s) => Some(if k == sid then s.(xp := xp) else s)
  {
    SameIdsFindIndex(SetXp(students, sid, xp), students, k);
  }

  /** Setting a student's balance moves that student's balance by the difference and
      no other balance; who is on the roster does not change. */
  lemma SetXpShift(students: seq<Student>, sid: int, xp: int, k: int, d: int)
    requires Find(students, sid).Some?
    requires d == if k == sid then xp - Find(students, sid).value.xp else 0
    ensures Find(SetXp(students, sid, xp), k).Some? == Find(students, k).Some?
    ensures Find(students, k).Some? ==> Find(SetXp(students, sid, xp), k).value.xp == Find(students, k).value.xp + d
  {
    FindAfterSetXp(students, sid, xp, k);
  }

  /** Copying a profile changes that student's profile and nothing else, and in
      particular no balance. */
  lemma FindAfterCopyProfile(students: seq<Student>, sid: int, p: Profile, k: int)
    ensures Find(CopyProfile(students, sid, p), k)
         == match Find(students, k)
            case None => None
            case Some(s) => Some(if k == sid then s.(profile := p) else s)
  {
    SameIdsFindIndex(CopyProfile(students, sid, p), students, k);
  }

  /** Clearing the pending changes clears them for everyone and touches nothing else. */
  lemma FindAfterResetDeltas(students: seq<Student>, k: int)
    ensures Find(ResetDeltas(students), k)
         == match Find(students, k)
            case None => None
            case Some(s) => Some(s.(xpDelta := 0))
    ensures forall i :: 0 <= i < |ResetDeltas(students)| ==> ResetDeltas(students)[i].xpDelta == 0
  {
    SameIdsFindIndex(ResetDeltas(students), students, k);
  }

  /** The sum of the changes in some log rows. */
  function SumDeltas(logs: seq<LogEntry>): int {
    if logs == [] then 0 else SumDeltas(logs[..|logs| - 1]) + logs[|logs| - 1].body.delta
  }

  lemma SumAppend(s: seq<LogEntry>, x: LogEntry)
    ensures SumDeltas(s + [x]) == SumDeltas(s) + x.body.delta
  {
    assert (s + [x])[..|s|] == s;
  }

  lemma {:induction false} SumConcat(a: seq<LogEntry>, b: seq<LogEntry>)
    ensures SumDeltas(a + b) == SumDeltas(a) + SumDeltas(b)
  {
    if b == [] {
      assert a + b == a;
    } else {
      assert (a + b)[..|a + b| - 1] == a + b[..|b| - 1];
      SumConcat(a, b[..|b| - 1]);
    }
  }

  /** Taking one row out of a sequence takes its change out of the sum. */
  lemma {:induction false} SumRemoveAt(b: seq<LogEntry>, j: nat)
    requires j < |b|
    ensures SumDeltas(b) == SumDeltas(b[..j] + b[j + 1..]) + b[j].body.delta
  {
    if j == |b| - 1 {
      assert b[..j] + b[j + 1..] == b[..|b| - 1];
    } else {
      SumRemoveAt(b[..|b| - 1], j);
      assert b[..|b| - 1][..j] == b[..j];
      assert b[..j] + b[j + 1..] == (b[..j] + b[..|b| - 1][j + 1..]) + [b[|b| - 1]];
      SumAppend(b[..j] + b[..|b| - 1][j + 1..], b[|b| - 1]);
    }
  }

  /** The sum of some changes does not depend on their order. */
  lemma {:induction false} SumPermutation(a: seq<LogEntry>, b: seq<LogEntry>)
    requires multiset(a) == multiset(b)
    ensures SumDeltas(a) == SumDeltas(b)
  {
    if a != [] {
      var init, x := a[..|a| - 1], a[|a| - 1];
      assert a == init + [x];
      assert x in multiset(b);
      var j :| 0 <= j < |b| && b[j] == x;
      SumRemoveAt(b, j);
      MultisetRemoveAt(b, j);
      assert multiset(init) == multiset(a) - multiset{x};
      SumPermutation(init, b[..j] + b[j + 1..]);
    }
  }

  /** Rows that occur equally often have the same sum of changes. */
  lemma SumSameCounts(a: seq<LogEntry>, b: seq<LogEntry>)
    requires forall e :: multiset(a)[e] == multiset(b)[e]
    ensures SumDeltas(a) == SumDeltas(b)
  {
    assert multiset(a) == multiset(b);
    SumPermutation(a, b);
  }

  /** The balance a student had before any logged change: the balance minus the sum of
      the student's logged changes; no value for a student the roster does not hold. */
  function Opening(students: seq<Student>, logs: seq<LogEntry>, sid: int): Option<int> {
    match Find(students, sid)
    case None => None
    case Some(s) => Some(s.xp - SumDeltas(EntriesFor(logs, sid)))
  }

  /** A deletion takes away from a student's logged total exactly the sum of the rows it
      removes. */
  lemma {:induction false} SumAfterDelete(logs: seq<LogEntry>, sid: int, ts: set<int>)
    ensures SumDeltas(EntriesFor(logs, sid))
         == SumDeltas(Selected(logs, sid, ts)) + SumDeltas(EntriesFor(DeleteFor(logs, sid, ts), sid))
  {
    if logs != [] {
      var init, last := logs[..|logs| - 1], logs[|logs| - 1];
      SumAfterDelete(init, sid, ts);
      var d := DeleteFor(init, sid, ts);
      var s := Selected(init, sid, ts);
      var e := EntriesFor(init, sid);
      if last.id != sid {
        assert EntriesFor(logs, sid) == e;
        assert Selected(logs, sid, ts) == s;
        assert DeleteFor(logs, sid, ts) == d + [last];
        EntriesForAppend(d, last, sid);
        assert EntriesFor(d + [last], sid) == EntriesFor(d, sid);
      } else if last.timestamp in ts {
        assert EntriesFor(logs, sid) == e + [last];
        assert Selected(logs, sid, ts) == s + [last];
        assert DeleteFor(logs, sid, ts) == d;
        SumAppend(e, last);
        SumAppend(s, last);
      } else {
        assert EntriesFor(logs, sid) == e + [last];
        assert Selected(logs, sid, ts) == s;
        assert DeleteFor(logs, sid, ts) == d + [last];
        EntriesForAppend(d, last, sid);
        SumAppend(e, last);
        SumAppend(EntriesFor(d, sid), last);
      }
    }
  }

  /** Summing the selected rows of the student's newest-first listing, as the delete
      button does, gives the sum of the rows the deletion removes. */
  lemma ListingSelectionSum(logs: seq<LogEntry>, sid: int, ts: set<int>)
    ensures SumDeltas(Selected(AllFor(logs, sid), sid, ts)) == SumDeltas(Selected(logs, sid, ts))
  {
    SelectedOfListing(logs, sid, ts);
    SumSameCounts(Selected(AllFor(logs, sid), sid, ts), Selected(logs, sid, ts));
  }

  /** Opening balances agree when the balance and the logged total move together. */
  lemma OpeningShift(students: seq<Student>, logs: seq<LogEntry>, students2: seq<Student>, logs2: seq<LogEntry>, k: int, d: int)
    requires Find(students2, k).Some? == Find(students, k).Some?
    requires Find(students, k).Some? ==> Find(students2, k).value.xp == Find(students, k).value.xp + d
    requires SumDeltas(EntriesFor(logs2, k)) == SumDeltas(EntriesFor(logs, k)) + d
    ensures Opening(students2, logs2, k) == Opening(students, logs, k)
  {
  }

  /** Applying a change to a student's balance while logging it keeps every student's
      opening balance. */
  lemma ApplyKeepsOpening(students: seq<Student>, logs: seq<LogEntry>, sid: int, name: string,
                          delta: int, reason: string, now: int, k: int)
    requires Find(students, sid).Some?
    ensures var s := Find(students, sid).value;
      Opening(SetXp(students, sid, s.xp + delta), logs + [Entry(now, sid, name, Change(delta, reason))], k)
      == Opening(students, logs, k)
  {
    var s := Find(students, sid).value;
    var e := Entry(now, sid, name, Change(delta, reason));
    var after := SetXp(students, sid, s.xp + delta);
    var d := if k == sid then delta else 0;
    SetXpShift(students, sid, s.xp + delta, k, d);
    assert SumDeltas(EntriesFor(logs + [e], k)) == SumDeltas(EntriesFor(logs, k)) + d by {
      EntriesForAppend(logs, e, k);
      if k == sid {
        assert EntriesFor(logs + [e], k) == EntriesFor(logs, k) + [e];
        SumAppend(EntriesFor(logs, k), e);
      } else {
        assert EntriesFor(logs + [e], k) == EntriesFor(logs, k);
      }
    }
    OpeningShift(students, logs, after, logs + [e], k, d);
  }

  /** Deleting a student's logged rows while taking their sum off the balance keeps
      every student's opening balance. */
  lemma DeleteKeepsOpening(students: seq<Student>, logs: seq<LogEntry>, sid: int, ts: set<int>)
    requires Find(students, sid).Some?
    ensures forall k ::
      Opening(SetXp(students, sid, Find(students, sid).value.xp - SumDeltas(Selected(logs, sid, ts))), DeleteFor(logs, sid, ts), k)
      == Opening(students, logs, k)
  {
    var after := SetXp(students, sid, Find(students, sid).value.xp - SumDeltas(Selected(logs, sid, ts)));
    forall k ensures Opening(after, DeleteFor(logs, sid, ts), k) == Opening(students, logs, k) {
      DeleteKeepsOpeningAt(students, logs, sid, ts, k);
    }
  }

  lemma DeleteKeepsOpeningAt(students: seq<Student>, logs: seq<LogEntry>, sid: int, ts: set<int>, k: int)
    requires Find(students, sid).Some?
    ensures Opening(SetXp(students, sid, Find(students, sid).value.xp - SumDeltas(Selected(logs, sid, ts))), DeleteFor(logs, sid, ts), k)
            == Opening(students, logs, k)
  {
    var xp := Find(students, sid).value.xp - SumDeltas(Selected(logs, sid, ts));
    var d := xp - Find(students, sid).value.xp;
    if k == sid {
      SetXpShift(students, sid, xp, k, d);
      DeleteShiftsSum(logs, sid, ts, k, d);
      OpeningShift(students, logs, SetXp(students, sid, xp), DeleteFor(logs, sid, ts), k, d);
    } else {
      SetXpShift(students, sid, xp, k, 0);
      DeleteShiftsSum(logs, sid, ts, k, 0);
      OpeningShift(students, logs, SetXp(students, sid, xp), DeleteFor(logs, sid, ts), k, 0);
    }
  }

  /** A deletion moves the logged total of the student by minus the sum it removes, and
      no other student's logged total. */
  lemma DeleteShiftsSum(logs: seq<LogEntry>, sid: int, ts: set<int>, k: int, d: int)
    requires d == if k == sid then -SumDeltas(Selected(logs, sid, ts)) else 0
    ensures SumDeltas(EntriesFor(DeleteFor(logs, sid, ts), k)) == SumDeltas(EntriesFor(logs, k)) + d
  {
    if k == sid {
      SumAfterDelete(logs, sid, ts);
    } else {
      DeleteKeepsOthers(logs, sid, ts, k);
    }
  }

  /** A deletion for a student the roster does not hold changes no opening balance. */
  lemma DeleteOrphanKeepsOpening(students: seq<Student>, logs: seq<LogEntry>, sid: int, ts: set<int>)
    requires Find(students, sid).None?
    ensures forall k :: Opening(students, DeleteFor(logs, sid, ts), k) == Opening(students, logs, k)
  {
    forall k ensures Opening(students, DeleteFor(logs, sid, ts), k) == Opening(students, logs, k) {
      if k != sid {
        DeleteKeepsOthers(logs, sid, ts, k);
      }
    }
  }

  /** The state of a bulk apply after some editor rows: the working copy of the roster,
      the log as written so far, the number of changes applied, and the id of an
      unknown student it stopped at, if any. */
  datatype Run = Run(base: seq<Student>, logs: seq<LogEntry>, applied: nat, failed: Option<int>)

  /** One editor row of a bulk apply: rows without an id are skipped; otherwise the
      profile is copied, and a non-zero pending change is added to the balance and
      logged with its reason stripped of surrounding whitespace. A non-zero change for a
      student the roster does not hold stops the run. */
  function BulkStep(r: Run, row: EditRow, now: int): Run {
    if r.failed.Some? || row.id.None? then r
    else
      var sid := row.id.value;
      var base := CopyProfile(r.base, sid, row.profile);
      if row.xpDelta == 0 then r.(base := base)
      else
        match Find(base, sid)
        case None => r.(base := base, failed := Some(sid))
        case Some(s) =>
          Run(SetXp(base, sid, s.xp + row.xpDelta),
              r.logs + [Entry(now, sid, s.profile.name, Change(row.xpDelta, Strip(row.xpReason)))],
              r.applied + 1, None)
  }

  /** A bulk apply over the editor rows, in order. */
  function BulkRun(students: seq<Student>, logs: seq<LogEntry>, edit: seq<EditRow>, now: int): Run {
    if edit == [] then Run(students, logs, 0, None)
    else BulkStep(BulkRun(students, logs, edit[..|edit| - 1], now), edit[|edit| - 1], now)
  }

  /** What a log row records of a change: whose balance, by how much, and why. */
  datatype Posting = Posting(id: int, delta: int, reason: string)

  /** The changes the editor asks for, in order: one per row with an id and a non-zero
      pending change, with its reason stripped of surrounding whitespace. */
  function Pending(edit: seq<EditRow>): seq<Posting> {
    if edit == [] then []
    else
      var row := edit[|edit| - 1];
      Pending(edit[..|edit| - 1])
        + (if row.id.Some? && row.xpDelta != 0 then [Posting(row.id.value, row.xpDelta, Strip(row.xpReason))] else [])
  }

  /** The postings some log rows record. */
  function Postings(logs: seq<LogEntry>): seq<Posting> {
    if logs == [] then []
    else
      var e := logs[|logs| - 1];
      Postings(logs[..|logs| - 1]) + [Posting(e.id, e.body.delta, e.body.reason)]
  }

  /** The sum of the pending changes the editor gives student `k`; rows with a zero
      change add nothing. */
  function EditDelta(edit: seq<EditRow>, k: int): int {
    if edit == [] then 0
    else
      var row := edit[|edit| - 1];
      EditDelta(edit[..|edit| - 1], k) + (if row.id == Some(k) then row.xpDelta else 0)
  }

  /** Every editor row that names an id with a non-zero change names a student. */
  predicate AllKnown(students: seq<Student>, edit: seq<EditRow>) {
    forall i :: 0 <= i < |edit| && edit[i].id.Some? && edit[i].xpDelta != 0 ==> Find(students, edit[i].id.value).Some?
  }

  /** A bulk apply keeps the roster's ids where they are. */
  lemma {:induction false} BulkSameIds(students: seq<Student>, logs: seq<LogEntry>, edit: seq<EditRow>, now: int)
    ensures SameIds(BulkRun(students, logs, edit, now).base, students)
  {
    if edit != [] {
      BulkSameIds(students, logs, edit[..|edit| - 1], now);
    }
  }

  /** A bulk apply only appends to the log, one row per change it applies; when it
      completes it has applied exactly the editor rows with an id and a non-zero change. */
  lemma {:induction false} BulkAppendsLogs(students: seq<Student>, logs: seq<LogEntry>, edit: seq<EditRow>, now: int)
    ensures var r := BulkRun(students, logs, edit, now);
      && |r.logs| == |logs| + r.applied
      && r.logs[..|logs|] == logs
      && (r.failed.None? ==> r.applied == |Pending(edit)|)
  {
    if edit != [] {
      var prev := BulkRun(students, logs, edit[..|edit| - 1], now);
      BulkAppendsLogs(students, logs, edit[..|edit| - 1], now);
      if prev.failed.None? && BulkRun(students, logs, edit, now).logs != prev.logs {
        assert (prev.logs + [BulkRun(students, logs, edit, now).logs[|prev.logs|]])[..|logs|] == prev.logs[..|logs|];
      }
    }
  }

  /** Appending a log row appends its posting. */
  lemma PostingsSnoc(a: seq<LogEntry>, e: LogEntry)
    ensures Postings(a + [e]) == Postings(a) + [Posting(e.id, e.body.delta, e.body.reason)]
  {
    assert (a + [e])[..|a + [e]| - 1] == a;
  }

  /** One step of a bulk apply that leaves the run going either keeps the log, or
      appends one row stamped `now` that records the editor row's change. */
  lemma BulkStepLogs(prev: Run, row: EditRow, now: int)
    ensures var r := BulkStep(prev, row, now);
      r.failed.None? ==>
        && prev.failed.None?
        && (row.id.None? || row.xpDelta == 0 ==> r.logs == prev.logs)
        && (row.id.Some? && row.xpDelta != 0 ==>
              && |r.logs| == |prev.logs| + 1
              && r.logs == prev.logs + [r.logs[|prev.logs|]]
              && r.logs[|prev.logs|].timestamp == now
              && r.logs[|prev.logs|].id == row.id.value
              && r.logs[|prev.logs|].body == Change(row.xpDelta, Strip(row.xpReason)))
  {
  }

  /** A completed bulk apply logs exactly the changes the editor asks for, in editor
      order, each with the student's id, the change and the stripped reason, all
      stamped `now`. */
  lemma {:induction false} BulkLogsPending(students: seq<Student>, logs: seq<LogEntry>, edit: seq<EditRow>, now: int)
    ensures var r := BulkRun(students, logs, edit, now);
      r.failed.None? ==>
        && |logs| <= |r.logs|
        && Postings(r.logs[|logs|..]) == Pending(edit)
        && (forall i :: |logs| <= i < |r.logs| ==> r.logs[i].timestamp == now)
  {
    if edit != [] {
      var init, row := edit[..|edit| - 1], edit[|edit| - 1];
      var prev := BulkRun(students, logs, init, now);
      var r := BulkStep(prev, row, now);
      BulkStepLogs(prev, row, now);
      if r.failed.None? {
        BulkLogsPending(students, logs, init, now);
        if row.id.Some? && row.xpDelta != 0 {
          LogsSuffixSnoc(prev.logs, r.logs, |logs|);
        }
      }
    }
  }

  /** Appending one row to a log appends its posting to the postings of any suffix. */
  lemma LogsSuffixSnoc(a: seq<LogEntry>, b: seq<LogEntry>, n: nat)
    requires n <= |a| < |b| && b == a + [b[|a|]]
    ensures Postings(b[n..]) == Postings(a[n..]) + [Posting(b[|a|].id, b[|a|].body.delta, b[|a|].body.reason)]
    ensures forall i :: n <= i < |a| ==> b[i] == a[i]
  {
    assert b[n..] == a[n..] + [b[|a|]];
    PostingsSnoc(a[n..], b[|a|]);
  }

  /** A completed bulk apply moves each known student's balance by the sum of the
      pending changes the editor gives that student, and keeps the roster's members. */
  lemma {:induction false} BulkMovesBalances(students: seq<Student>, logs: seq<LogEntry>, edit: seq<EditRow>, now: int, k: int)
    ensures var r := BulkRun(students, logs, edit, now);
      r.failed.None? ==>
        && Find(r.base, k).Some? == Find(students, k).Some?
        && (Find(students, k).Some? ==> Find(r.base, k).value.xp == Find(students, k).value.xp + EditDelta(edit, k))
  {
    if edit != [] {
      var init, row := edit[..|edit| - 1], edit[|edit| - 1];
      var prev := BulkRun(students, logs, init, now);
      BulkMovesBalances(students, logs, init, now, k);
      if prev.failed.None? && row.id.Some? {
        var sid := row.id.value;
        var base := CopyProfile(prev.base, sid, row.profile);
        FindAfterCopyProfile(prev.base, sid, row.profile, k);
        FindAfterCopyProfile(prev.base, sid, row.profile, sid);
        if row.xpDelta != 0 && Find(base, sid).Some? {
          FindAfterSetXp(base, sid, Find(base, sid).value.xp + row.xpDelta, k);
        }
      }
    }
  }

  /** A bulk apply stops exactly when some editor row gives a non-zero change to a
      student the roster does not hold, and it names that student. */
  lemma {:induction false} BulkFailsOnUnknown(students: seq<Student>, logs: seq<LogEntry>, edit: seq<EditRow>, now: int)
    ensures var r := BulkRun(students, logs, edit, now);
      && (r.failed.None? <==> AllKnown(students, edit))
      && (r.failed.Some? ==> Find(students, r.failed.value).None?)
  {
    if edit != [] {
      var init, row := edit[..|edit| - 1], edit[|edit| - 1];
      var prev := BulkRun(students, logs, init, now);
      BulkFailsOnUnknown(students, logs, init, now);
      BulkSameIds(students, logs, init, now);
      assert AllKnown(students, edit) <==>
        (AllKnown(students, init) && (row.id.Some? && row.xpDelta != 0 ==> Find(students, row.id.value).Some?)) by {
        assert forall i :: 0 <= i < |init| ==> init[i] == edit[i];
      }
      if prev.failed.None? && row.id.Some? {
        var sid := row.id.value;
        var base := CopyProfile(prev.base, sid, row.profile);
        SameIdsFindIndex(base, students, sid);
        SameIdsFindIndex(prev.base, students, sid);
      }
    }
  }

  /** A bulk apply that completes keeps every student's opening balance: each change it
      adds to a balance is logged. */
  lemma {:induction false} BulkKeepsOpening(students: seq<Student>, logs: seq<LogEntry>, edit: seq<EditRow>, now: int, k: int)
    ensures var r := BulkRun(students, logs, edit, now);
      r.failed.None? ==> Opening(r.base, r.logs, k) == Opening(students, logs, k)
  {
    if edit != [] {
      var init := edit[..|edit| - 1];
      BulkKeepsOpening(students, logs, init, now, k);
      var prev := BulkRun(students, logs, init, now);
      if prev.failed.None? {
        StepKeepsOpening(prev, edit[|edit| - 1], now, k);
      }
    }
  }

  /** Measured against the roster it started from, a bulk apply lowers each student's
      opening balance by the sum of the changes it logged for that student. A run that
      stops on an unknown id keeps its logged rows but stores the old roster, so this is
      the drift such a run leaves behind. */
  lemma BulkShiftsOpening(students: seq<Student>, logs: seq<LogEntry>, edit: seq<EditRow>, now: int, k: int)
    ensures var r := BulkRun(students, logs, edit, now);
      && |logs| <= |r.logs|
      && Opening(students, r.logs, k).Some? == Find(students, k).Some?
      && (Find(students, k).Some? ==>
            Opening(students, r.logs, k).value
              == Opening(students, logs, k).value - SumDeltas(EntriesFor(r.logs[|logs|..], k)))
  {
    var r := BulkRun(students, logs, edit, now);
    BulkAppendsLogs(students, logs, edit, now);
    assert r.logs == logs + r.logs[|logs|..];
    EntriesForConcat(logs, r.logs[|logs|..], k);
    SumConcat(EntriesFor(logs, k), EntriesFor(r.logs[|logs|..], k));
  }

  /** `BulkShiftsOpening` for every student of the roster at once. */
  lemma BulkShiftsEveryOpening(students: seq<Student>, logs: seq<LogEntry>, edit: seq<EditRow>, now: int)
    ensures var r := BulkRun(students, logs, edit, now);
      && |logs| <= |r.logs|
      && forall k :: Find(students, k).Some? ==>
        Opening(students, r.logs, k).Some? &&
        Opening(students, r.logs, k).value == Opening(students, logs, k).value - SumDeltas(EntriesFor(r.logs[|logs|..], k))
  {
    BulkAppendsLogs(students, logs, edit, now);
    forall k | Find(students, k).Some? {
      BulkShiftsOpening(students, logs, edit, now, k);
    }
  }

  /** One editor row that does not stop the run keeps every opening balance. */
  lemma StepKeepsOpening(prev: Run, row: EditRow, now: int, k: int)
    requires prev.failed.None?
    ensures var r := BulkStep(prev, row, now);
      r.failed.None? ==> Opening(r.base, r.logs, k) == Opening(prev.base, prev.logs, k)
  {
    var r := BulkStep(prev, row, now);
    if row.id.Some? {
      var sid := row.id.value;
      var base := CopyProfile(prev.base, sid, row.profile);
      CopyProfileKeepsOpening(prev.base, prev.logs, sid, row.profile, k);
      if row.xpDelta == 0 {
        assert r == prev.(base := base);
      } else if Find(base, sid).Some? {
        var s := Find(base, sid).value;
        var reason := Strip(row.xpReason);
        assert r == Run(SetXp(base, sid, s.xp + row.xpDelta),
                        prev.logs + [Entry(now, sid, s.profile.name, Change(row.xpDelta, reason))],
                        prev.applied + 1, None);
        ApplyKeepsOpening(base, prev.logs, sid, s.profile.name, row.xpDelta, reason, now, k);
      }
    }
  }

  /** Copying a profile keeps every opening balance. */
  lemma CopyProfileKeepsOpening(students: seq<Student>, logs: seq<LogEntry>, sid: int, p: Profile, k: int)
    ensures Opening(CopyProfile(students, sid, p), logs, k) == Opening(students, logs, k)
  {
    FindAfterCopyProfile(students, sid, p, k);
  }

  /** Once a bulk apply has stopped, later editor rows change nothing. */
  lemma {:induction false} BulkStopped(students: seq<Student>, logs: seq<LogEntry>, edit: seq<EditRow>, n: nat, now: int)
    requires n <= |edit| && BulkRun(students, logs, edit[..n], now).failed.Some?
    ensures BulkRun(students, logs, edit, now) == BulkRun(students, logs, edit[..n], now)
  {
    if n < |edit| {
      assert edit[..|edit| - 1][..n] == edit[..n];
      BulkStopped(students, logs, edit[..|edit| - 1], n, now);
    } else {
      assert edit[..n] == edit;
    }
  }

  /** Clearing the pending changes keeps every opening balance. */
  lemma ResetKeepsOpening(students: seq<Student>, logs: seq<LogEntry>, k: int)
    ensures Opening(ResetDeltas(students), logs, k) == Opening(students, logs, k)
  {
    FindAfterResetDeltas(students, k);
  }

  /** The roster and the XP log. */
  class Books {
    var students: seq<Student>
    var logs: seq<LogEntry>

    constructor (students: seq<Student>, logs: seq<LogEntry>)
      ensures this.students == students && this.logs == logs
    {
      this.students := students;
      this.logs := logs;
    }

    /** `append_log(sid, name, delta, reason)`: one row at the end of the log, with an
        absent reason written as "". */
    method AppendLog(sid: int, name: string, delta: int, reason: Option<string>, now: int)
      modifies this
      ensures logs == old(logs) + [Entry(now, sid, name, Change(delta, reason.GetOr("")))]
      ensures students == old(students)
    {
      logs := logs + [Entry(now, sid, name, Change(delta, reason.GetOr("")))];
    }

    /** `recent_logs_for(sid, limit)`: the student's newest `limit` log rows, newest first; no
        log row of the student left out is newer than one shown. */
    method RecentLogsFor(sid: int, limit: nat := RecentLimit) returns (r: seq<LogEntry>)
      ensures r == Recent(logs, sid, limit)
      ensures var n := |EntriesFor(logs, sid)|; |r| == if limit < n then limit else n
      ensures NewestFirst(r)
      ensures forall i :: 0 <= i < |r| ==> r[i].id == sid
      ensures multiset(r) <= multiset(EntriesFor(logs, sid))
      ensures forall e: LogEntry, i :: e in multiset(EntriesFor(logs, sid)) - multiset(r) && 0 <= i < |r| ==>
        e.timestamp <= r[i].timestamp
    {
      r := Recent(logs, sid, limit);
      RecentShape(logs, sid, limit);
      RecentIsNewest(logs, sid, limit);
    }

    /** `all_logs_for(sid)`: every log row of the student, as often as it occurs, and no
        other, newest first. */
    method AllLogsFor(sid: int) returns (r: seq<LogEntry>)
      ensures r == AllFor(logs, sid)
      ensures NewestFirst(r)
      ensures forall i :: 0 <= i < |r| ==> r[i].id == sid
      ensures forall e: LogEntry :: e.id == sid ==> multiset(r)[e] == multiset(logs)[e]
    {
      r := AllFor(logs, sid);
      AllForIsListing(logs, sid);
    }

    /** `delete_logs_for(sid, ts)`: drops the student's rows whose timestamp is in `ts`
        and returns how many rows went. */
    method DeleteLogsFor(sid: int, ts: set<int>) returns (removed: nat)
      modifies this
      ensures logs == DeleteFor(old(logs), sid, ts)
      ensures removed == |old(logs)| - |logs| == |Selected(old(logs), sid, ts)|
      ensures students == old(students)
    {
      var before := |logs|;
      DeletePartition(logs, sid, ts);
      logs := DeleteFor(logs, sid, ts);
      removed := before - |logs|;
    }

    /** The "apply" buttons: add `delta` to the student's balance and log the change. */
    method ApplyDelta(sid: int, delta: int, reason: string, now: int) returns (res: Result<(), LedgerError>)
      modifies this
      ensures old(Find(students, sid)).None? ==>
        res == Failure(StudentNotFound(sid)) && students == old(students) && logs == old(logs)
      ensures old(Find(students, sid)).Some? ==>
        var s := old(Find(students, sid)).value;
        && res == Success(())
        && students == SetXp(old(students), sid, s.xp + delta)
        && logs == old(logs) + [Entry(now, sid, s.profile.name, Change(delta, reason))]
        && Find(students, sid) == Some(s.(xp := s.xp + delta))
      ensures forall k :: Opening(students, logs, k) == old(Opening(students, logs, k))
    {
      var row := Find(students, sid);
      ghost var before, beforeLogs := students, logs;
      var found := SetBalance(sid, delta);
      if !found {
        return Failure(StudentNotFound(sid));
      }
      AppendLog(sid, row.value.profile.name, delta, Some(reason), now);
      FindAfterSetXp(before, sid, row.value.xp + delta, sid);
      assert forall k :: Opening(students, logs, k) == Opening(before, beforeLogs, k) by {
        forall k ensures Opening(students, logs, k) == Opening(before, beforeLogs, k) {
          ApplyKeepsOpening(before, beforeLogs, sid, row.value.profile.name, delta, reason, now, k);
        }
      }
      res := Success(());
    }

    /** What the delete button takes off the balance: the sum of the changes in the
        rows of the student's listing whose timestamps are selected. */
    method SelectedSum(sid: int, ts: set<int>) returns (sum: int)
      ensures sum == SumDeltas(Selected(logs, sid, ts))
    {
      ListingSelectionSum(logs, sid, ts);
      sum := SumDeltas(Selected(AllFor(logs, sid), sid, ts));
    }

    /** The delete button of the control view: delete the student's log rows whose
        timestamps are selected and take the sum of their changes off the balance. An
        empty selection does nothing; a deletion that removes nothing leaves the
        balance alone. */
    method DeleteAndReverse(sid: int, ts: set<int>) returns (res: Result<nat, LedgerError>)
      modifies this
      ensures ts == {} ==> res == Success(0) && students == old(students) && logs == old(logs)
      ensures ts != {} ==> logs == DeleteFor(old(logs), sid, ts)
      ensures ts != {} ==>
        var removed := |Selected(old(logs), sid, ts)|;
        var found := old(Find(students, sid));
        && (removed == 0 ==> res == Success(0) && students == old(students))
        && (removed > 0 && found.None? ==> res == Failure(StudentNotFound(sid)) && students == old(students))
        && (removed > 0 && found.Some? ==>
              res == Success(removed)
              && students == SetXp(old(students), sid, found.value.xp - SumDeltas(Selected(old(logs), sid, ts))))
      ensures forall k :: Opening(students, logs, k) == old(Opening(students, logs, k))
    {
      if ts == {} {
        return Success(0);
      }
      ghost var before, beforeLogs := students, logs;
      var sum := SelectedSum(sid, ts);
      var removed := DeleteLogsFor(sid, ts);
      if removed == 0 {
        NothingSelected(beforeLogs, sid, ts);
        return Success(0);
      }
      var found := SetBalance(sid, -sum);
      if !found {
        DeleteOrphanKeepsOpening(before, beforeLogs, sid, ts);
        return Failure(StudentNotFound(sid));
      }
      DeleteKeepsOpening(before, beforeLogs, sid, ts);
      res := Success(removed);
    }

    /** `students.loc[students["id"] == sid, "xp"] = current + delta`, where `current` is
        the first row's balance; reports whether the roster holds the student. */
    method SetBalance(sid: int, delta: int) returns (found: bool)
      modifies this
      ensures found == old(Find(students, sid)).Some?
      ensures found ==> students == SetXp(old(students), sid, old(Find(students, sid)).value.xp + delta)
      ensures !found ==> students == old(students)
      ensures logs == old(logs)
    {
      var cur := Find(students, sid);
      if cur.None? {
        return false;
      }
      students := SetXp(students, sid, cur.value.xp + delta);
      found := true;
    }

    /** One editor row of a bulk apply, against the working copy `base` of the roster:
        copy the row's profile; for a non-zero pending change, add it to the working
        balance and log it with its stripped reason, or report the unknown id. */
    method ApplyEditRow(row: EditRow, base: seq<Student>, applied: nat, now: int)
      returns (base2: seq<Student>, applied2: nat, failed: Option<int>)
      modifies this
      ensures Run(base2, logs, applied2, failed) == BulkStep(Run(base, old(logs), applied, None), row, now)
      ensures students == old(students)
    {
      base2, applied2, failed := base, applied, None;
      if row.id.None? {
        return;
      }
      var sid := row.id.value;
      base2 := CopyProfile(base, sid, row.profile);
      var delta := row.xpDelta;
      var reason := Strip(row.xpReason);
      if delta != 0 {
        var cur := Find(base2, sid);
        if cur.None? {
          failed := Some(sid);
          return;
        }
        base2 := SetXp(base2, sid, cur.value.xp + delta);
        AppendLog(sid, cur.value.profile.name, delta, Some(reason), now);
        applied2 := applied + 1;
      }
    }

    /** "Apply XP and log changes" of the roster editor: walk the editor rows in order,
        copying each row's profile, adding each non-zero pending change to the balance
        and logging it; then clear every pending change and store the roster. A
        non-zero change for an unknown id stops the walk: the log keeps the rows already
        written and the roster is not stored. */
    method BulkApply(edit: seq<EditRow>, now: int) returns (res: Result<nat, LedgerError>)
      modifies this
      ensures var r := BulkRun(old(students), old(logs), edit, now);
        && logs == r.logs
        && (r.failed.None? ==> res == Success(r.applied) && students == ResetDeltas(r.base))
        && (r.failed.Some? ==> res == Failure(StudentNotFound(r.failed.value)) && students == old(students))
      ensures res.Success? ==> |old(logs)| <= |logs| && Postings(logs[|old(logs)|..]) == Pending(edit)
      ensures res.Success? ==> forall k :: old(Find(students, k)).Some? ==>
        Find(students, k).Some? && Find(students, k).value.xp == old(Find(students, k)).value.xp + EditDelta(edit, k)
      ensures res.Failure? ==> |old(logs)| <= |logs| && forall k :: old(Find(students, k)).Some? ==>
        Opening(students, logs, k).Some? &&
        Opening(students, logs, k).value == old(Opening(students, logs, k)).value - SumDeltas(EntriesFor(logs[|old(logs)|..], k))
    {
      var base := students;
      var applied := 0;
      var i := 0;
      while i < |edit|
        invariant 0 <= i <= |edit|
        invariant BulkRun(old(students), old(logs), edit[..i], now) == Run(base, logs, applied, None)
        invariant students == old(students)
      {
        assert edit[..i + 1][..i] == edit[..i];
        var failed;
        base, applied, failed := ApplyEditRow(edit[i], base, applied, now);
        if failed.Some? {
          BulkStopped(old(students), old(logs), edit, i + 1, now);
          assert logs == BulkRun(old(students), old(logs), edit, now).logs;
          BulkShiftsEveryOpening(old(students), old(logs), edit, now);
          return Failure(StudentNotFound(failed.value));
        }
        i := i + 1;
      }
      assert edit[..i] == edit;
      BulkLogsPending(old(students), old(logs), edit, now);
      forall k ensures Find(ResetDeltas(base), k).Some? == Find(base, k).Some?
        && (Find(base, k).Some? ==> Find(ResetDeltas(base), k).value.xp == Find(base, k).value.xp)
      {
        FindAfterResetDeltas(base, k);
      }
      forall k | Find(old(students), k).Some?
        ensures Find(base, k).Some? && Find(base, k).value.xp == Find(old(students), k).value.xp + EditDelta(edit, k)
      {
        BulkMovesBalances(old(students), old(logs), edit, now, k);
      }
      students := ResetDeltas(base);
      res := Success(applied);
    }
  }
}
