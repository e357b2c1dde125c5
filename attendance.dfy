/** Attendance per student and calendar day. The table holds sparse rows
    `(id, date, status)`; a day without a row is unset. Clicking a day cycles its status
    through unset, present, tardy, absent and back to unset. */
module Attendance {
  import opened Wrappers
  import opened Text
  import opened Calendar

  /** The four states of a day. */
  datatype Status = Unset | Present | Tardy | Absent

  /** The stored code of a status: no row for `Unset`, otherwise "P", "T" or "A". */
  function Code(s: Status): Option<string> {
    match s
    case Unset => None
    case Present => Some("P")
    case Tardy => Some("T")
    case Absent => Some("A")
  }

  /** The status a stored code stands for; any code outside "P", "T", "A" reads as unset. */
  function Decode(c: Option<string>): Status {
    if c == Some("P") then Present
    else if c == Some("T") then Tardy
    else if c == Some("A") then Absent
    else Unset
  }

  /** The next status in the fixed order unset, present, tardy, absent. */
  function Cycle(s: Status): Status {
    match s
    case Unset => Present
    case Present => Tardy
    case Tardy => Absent
    case Absent => Unset
  }

  /** `cycle_state`'s order list. */
  const Order: seq<Option<string>> := [None, Some("P"), Some("T"), Some("A")]

  function IndexOf<T(==)>(s: seq<T>, x: T): (i: nat)
    requires x in s
    ensures i < |s| && s[i] == x && x !in s[..i]
  {
    if s[0] == x then 0 else assert s == [s[0]] + s[1..]; 1 + IndexOf(s[1..], x)
  }

  /** `cycle_state`: the code after `cur` in the order, reading any code outside the
      order as the first entry (unset). */
  function CycleState(cur: Option<string>): (r: Option<string>)
    ensures r in Order
  {
    var i := if cur in Order then IndexOf(Order, cur) else 0;
    Order[(i + 1) % |Order|]
  }

  lemma DecodeCode(s: Status)
    ensures Decode(Code(s)) == s
    ensures Code(s) in Order
  {
  }

  /** `cycle_state` on stored codes is `Cycle` on the statuses they stand for; in
      particular any code outside the order (an empty string, a stray letter) moves to "P". */
  lemma {:induction false} CycleStateIsCycle(cur: Option<string>)
    ensures CycleState(cur) == Code(Cycle(Decode(cur)))
    ensures cur !in Order ==> CycleState(cur) == Some("P")
  {
    if cur in Order {
      var i := IndexOf(Order, cur);
      assert Order[i] == cur;
      assert i == 0 || i == 1 || i == 2 || i == 3;
    }
  }

  /** The cycle has period exactly four: four clicks bring every day back to where it
      was, and fewer never do. */
  lemma CyclePeriodFour(s: Status)
    ensures Cycle(Cycle(Cycle(Cycle(s)))) == s
    ensures Cycle(s) != s && Cycle(Cycle(s)) != s && Cycle(Cycle(Cycle(s))) != s
  {
  }

  /** Four applications of `cycle_state` return every code of the order to itself; a
      code outside the order ends at unset. */
  lemma {:induction false} CycleStatePeriodFour(cur: Option<string>)
    ensures CycleState(CycleState(CycleState(CycleState(cur)))) == if cur in Order then cur else None
  {
    CycleStateIsCycle(cur);
    var s := Decode(cur);
    CycleStateIsCycle(Code(Cycle(s)));
    DecodeCode(Cycle(s));
    CycleStateIsCycle(Code(Cycle(Cycle(s))));
    DecodeCode(Cycle(Cycle(s)));
    CycleStateIsCycle(Code(Cycle(Cycle(Cycle(s)))));
    DecodeCode(Cycle(Cycle(Cycle(s))));
    if cur in Order {
      assert cur == None || cur == Some("P") || cur == Some("T") || cur == Some("A");
    }
  }

  /** One row of the attendance table. */
  datatype AttRow = AttRow(id: int, date: string, status: string)

  predicate IsKey(r: AttRow, id: int, day: string) {
    r.id == id && r.date == day
  }

  predicate HasKey(rows: seq<AttRow>, id: int, day: string) {
    exists i :: 0 <= i < |rows| && IsKey(rows[i], id, day)
  }

  /** The table without the rows of `(id, day)`: `df[~mask]`. */
  function ClearDay(rows: seq<AttRow>, id: int, day: string): (r: seq<AttRow>)
    ensures forall i :: 0 <= i < |r| ==> !IsKey(r[i], id, day)
    ensures |r| <= |rows|
  {
    if rows == [] then []
    else
      var last := rows[|rows| - 1];
      ClearDay(rows[..|rows| - 1], id, day) + (if IsKey(last, id, day) then [] else [last])
  }

  /** The table with every row of `(id, day)` given status `st`: `df.loc[mask, "status"] = st`. */
  function Restatus(rows: seq<AttRow>, id: int, day: string, st: string): (r: seq<AttRow>)
    ensures |r| == |rows|
  {
    seq(|rows|, i requires 0 <= i < |rows| =>
      if IsKey(rows[i], id, day) then rows[i].(status := st) else rows[i])
  }

  /** The table `set_attendance(id, y, m, d, status)` writes, for `day` the ISO string of
      the date: an unset status (`None` or "") deletes the day's rows; any other status
      overwrites the day's rows, or adds one row when the day has none. */
  function SetDay(rows: seq<AttRow>, id: int, day: string, status: Option<string>): seq<AttRow> {
    if status == None || status == Some("") then ClearDay(rows, id, day)
    else if HasKey(rows, id, day) then Restatus(rows, id, day, status.value)
    else rows + [AttRow(id, day, status.value)]
  }

  /** Clearing a day leaves no row for it; setting a day leaves at least one row for it,
      every one of them carrying the new status, and adds exactly one row when the day
      had none (otherwise the table keeps its length). */
  lemma SetDayEffect(rows: seq<AttRow>, id: int, day: string, status: Option<string>)
    ensures var r := SetDay(rows, id, day, status);
      if status == None || status == Some("") then
        !HasKey(r, id, day)
      else
        && HasKey(r, id, day)
        && (forall i :: 0 <= i < |r| && IsKey(r[i], id, day) ==> r[i].status == status.value)
        && (HasKey(rows, id, day) ==> |r| == |rows|)
        && (!HasKey(rows, id, day) ==> r == rows + [AttRow(id, day, status.value)])
  {
    var r := SetDay(rows, id, day, status);
    if status != None && status != Some("") && HasKey(rows, id, day) {
      var i :| 0 <= i < |rows| && IsKey(rows[i], id, day);
      assert IsKey(r[i], id, day);
    } else if status != None && status != Some("") {
      assert IsKey(r[|rows|], id, day);
    }
  }

  lemma {:induction false} ClearDayAppend(rows: seq<AttRow>, x: AttRow, id: int, day: string)
    ensures ClearDay(rows + [x], id, day) == ClearDay(rows, id, day) + (if IsKey(x, id, day) then [] else [x])
  {
    assert (rows + [x])[..|rows + [x]| - 1] == rows;
  }

  lemma {:induction false} ClearDayIdempotent(rows: seq<AttRow>, id: int, day: string)
    ensures ClearDay(ClearDay(rows, id, day), id, day) == ClearDay(rows, id, day)
  {
    if rows != [] {
      var init, last := rows[..|rows| - 1], rows[|rows| - 1];
      var c := ClearDay(init, id, day);
      ClearDayIdempotent(init, id, day);
      if IsKey(last, id, day) {
        assert ClearDay(rows, id, day) == c;
      } else {
        assert ClearDay(rows, id, day) == c + [last];
        ClearDayAppend(c, last, id, day);
      }
    }
  }

  lemma {:induction false} ClearDayRestatus(rows: seq<AttRow>, id: int, day: string, st: string)
    ensures ClearDay(Restatus(rows, id, day, st), id, day) == ClearDay(rows, id, day)
  {
    if rows != [] {
      var init, last := rows[..|rows| - 1], rows[|rows| - 1];
      var r := Restatus(rows, id, day, st);
      assert r == Restatus(init, id, day, st) + [r[|rows| - 1]];
      ClearDayAppend(Restatus(init, id, day, st), r[|rows| - 1], id, day);
      ClearDayRestatus(init, id, day, st);
    }
  }

  /** `df[~mask]` keeps every row outside `(id, day)` exactly as often as it occurs. */
  lemma {:induction false} ClearDayKeeps(rows: seq<AttRow>, id: int, day: string, x: AttRow)
    requires !IsKey(x, id, day)
    ensures multiset(ClearDay(rows, id, day))[x] == multiset(rows)[x]
  {
    if rows != [] {
      var init, last := rows[..|rows| - 1], rows[|rows| - 1];
      assert rows == init + [last];
      ClearDayKeeps(init, id, day, x);
    }
  }

  /** Restatusing keeps every row outside `(id, day)` exactly as often as it occurs. */
  lemma {:induction false} RestatusKeeps(rows: seq<AttRow>, id: int, day: string, st: string, x: AttRow)
    requires !IsKey(x, id, day)
    ensures multiset(Restatus(rows, id, day, st))[x] == multiset(rows)[x]
  {
    if rows != [] {
      var init, last := rows[..|rows| - 1], rows[|rows| - 1];
      var r := Restatus(rows, id, day, st);
      assert rows == init + [last];
      assert r == Restatus(init, id, day, st) + [r[|rows| - 1]];
      RestatusKeeps(init, id, day, st, x);
    }
  }

  /** Rows of every other student and day are untouched: `set_attendance` keeps each of
      them as often as it occurs, and in the same order. */
  lemma OtherDaysUnchanged(rows: seq<AttRow>, id: int, day: string, status: Option<string>)
    ensures forall x :: !IsKey(x, id, day) ==> multiset(SetDay(rows, id, day, status))[x] == multiset(rows)[x]
    ensures ClearDay(SetDay(rows, id, day, status), id, day) == ClearDay(rows, id, day)
  {
    if status == None || status == Some("") {
      ClearDayIdempotent(rows, id, day);
      forall x | !IsKey(x, id, day) ensures multiset(SetDay(rows, id, day, status))[x] == multiset(rows)[x] {
        ClearDayKeeps(rows, id, day, x);
      }
    } else if HasKey(rows, id, day) {
      ClearDayRestatus(rows, id, day, status.value);
      forall x | !IsKey(x, id, day) ensures multiset(SetDay(rows, id, day, status))[x] == multiset(rows)[x] {
        RestatusKeeps(rows, id, day, status.value, x);
      }
    } else {
      ClearDayAppend(rows, AttRow(id, day, status.value), id, day);
    }
  }

  /** At most one row per student and day, as the design of the table has it. */
  predicate Unique(rows: seq<AttRow>) {
    forall i, j :: 0 <= i < j < |rows| ==> !IsKey(rows[j], rows[i].id, rows[i].date)
  }

  /** Every row `df[~mask]` keeps was in the table. */
  lemma {:induction false} ClearDayMembers(rows: seq<AttRow>, id: int, day: string)
    ensures forall k :: 0 <= k < |ClearDay(rows, id, day)| ==> ClearDay(rows, id, day)[k] in rows
  {
    if rows != [] {
      var init := rows[..|rows| - 1];
      ClearDayMembers(init, id, day);
      assert forall k :: 0 <= k < |init| ==> init[k] == rows[k];
    }
  }

  lemma {:induction false} ClearDayUnique(rows: seq<AttRow>, id: int, day: string)
    requires Unique(rows)
    ensures Unique(ClearDay(rows, id, day))
  {
    if rows != [] {
      var init, last := rows[..|rows| - 1], rows[|rows| - 1];
      assert forall k :: 0 <= k < |init| ==> init[k] == rows[k];
      ClearDayUnique(init, id, day);
      ClearDayMembers(init, id, day);
      var c := ClearDay(init, id, day);
      if !IsKey(last, id, day) {
        assert ClearDay(rows, id, day) == c + [last];
        forall i | 0 <= i < |c| ensures !IsKey(last, c[i].id, c[i].date) {
          var k :| 0 <= k < |init| && init[k] == c[i];
          assert !IsKey(rows[|rows| - 1], rows[k].id, rows[k].date);
        }
      }
    }
  }

  /** `set_attendance` keeps at most one row per student and day: it appends only when
      the day has no row yet. */
  lemma SetDayUnique(rows: seq<AttRow>, id: int, day: string, status: Option<string>)
    requires Unique(rows)
    ensures Unique(SetDay(rows, id, day, status))
  {
    if status == None || status == Some("") {
      ClearDayUnique(rows, id, day);
    } else if !HasKey(rows, id, day) {
      var r := SetDay(rows, id, day, status);
      forall i, j | 0 <= i < j < |r| ensures !IsKey(r[j], r[i].id, r[i].date) {
        if j == |rows| {
          assert !IsKey(rows[i], id, day);
        }
      }
    }
  }

  /** The day of the month a row contributes to the month view of student `id`, if any:
      the row must belong to the student, its date must start with the month prefix, and
      the text after its last "-" must read as a number (`int(...)` raising skips it). */
  function DayOf(r: AttRow, id: int, prefix: string): Option<nat> {
    if r.id == id && StartsWith(r.date, prefix) then ParseNat(LastField(r.date, '-')) else None
  }

  function DayFn(id: int, prefix: string): AttRow -> Option<nat> {
    r => DayOf(r, id, prefix)
  }

  /** Day number to status over the rows `dayOf` files under a day, in table order, a
      later row for the same day overwriting an earlier one. */
  function View(rows: seq<AttRow>, dayOf: AttRow -> Option<nat>): map<nat, Status> {
    if rows == [] then map[]
    else
      var view := View(rows[..|rows| - 1], dayOf);
      var last := rows[|rows| - 1];
      match dayOf(last)
      case Some(d) => view[d := Decode(Some(last.status))]
      case None => view
  }

  /** `att_map_for_month`: the view of the rows of student `id` in the month `prefix` names. */
  function MonthMap(rows: seq<AttRow>, id: int, prefix: string): map<nat, Status> {
    View(rows, DayFn(id, prefix))
  }

  /** The month view grows one row at a time: the row's day, if it files one, takes the
      row's status. */
  lemma MonthMapStep(rows: seq<AttRow>, i: nat, id: int, prefix: string)
    requires i < |rows|
    ensures MonthMap(rows[..i + 1], id, prefix)
         == match DayOf(rows[i], id, prefix)
            case Some(d) => MonthMap(rows[..i], id, prefix)[d := Decode(Some(rows[i].status))]
            case None => MonthMap(rows[..i], id, prefix)
  {
    assert rows[..i + 1][..i] == rows[..i];
    assert DayFn(id, prefix)(rows[i]) == DayOf(rows[i], id, prefix);
  }

  /** A view shows exactly the days some row is filed under. */
  lemma {:induction false} ViewDomain(rows: seq<AttRow>, dayOf: AttRow -> Option<nat>, d: nat)
    ensures d in View(rows, dayOf) <==> exists i :: 0 <= i < |rows| && dayOf(rows[i]) == Some(d)
  {
    if rows != [] {
      var init := rows[..|rows| - 1];
      ViewDomain(init, dayOf, d);
      if d in View(init, dayOf) {
        var i :| 0 <= i < |init| && dayOf(init[i]) == Some(d);
        assert dayOf(rows[i]) == Some(d);
      }
      if exists i :: 0 <= i < |rows| && dayOf(rows[i]) == Some(d) {
        var i :| 0 <= i < |rows| && dayOf(rows[i]) == Some(d);
        if i < |init| {
          assert dayOf(init[i]) == Some(d);
        }
      }
    }
  }

  /** A day shown by a view has the status of the last row filed under it, read through
      `Decode` (so a status other than "P", "T", "A" shows as unset). */
  lemma {:induction false} LastRowWins(rows: seq<AttRow>, dayOf: AttRow -> Option<nat>, i: nat)
    requires i < |rows| && dayOf(rows[i]).Some?
    requires forall j :: i < j < |rows| ==> dayOf(rows[j]) != dayOf(rows[i])
    ensures dayOf(rows[i]).value in View(rows, dayOf)
    ensures View(rows, dayOf)[dayOf(rows[i]).value] == Decode(Some(rows[i].status))
  {
    if i < |rows| - 1 {
      var init := rows[..|rows| - 1];
      assert init[i] == rows[i];
      assert forall j :: i < j < |init| ==> init[j] == rows[j];
      LastRowWins(init, dayOf, i);
    }
  }

  /** `dayOf` files exactly the rows of `(id, day)` under day `d`. */
  predicate FilesKeyAt(rows: seq<AttRow>, dayOf: AttRow -> Option<nat>, id: int, day: string, d: nat) {
    forall i :: 0 <= i < |rows| ==> (dayOf(rows[i]) == Some(d) <==> IsKey(rows[i], id, day))
  }

  lemma {:induction false} ViewClearDay(rows: seq<AttRow>, dayOf: AttRow -> Option<nat>, id: int, day: string, d: nat)
    requires FilesKeyAt(rows, dayOf, id, day, d)
    ensures View(ClearDay(rows, id, day), dayOf) == View(rows, dayOf) - {d}
  {
    if rows != [] {
      var init, last := rows[..|rows| - 1], rows[|rows| - 1];
      assert FilesKeyAt(init, dayOf, id, day, d) by {
        assert forall i :: 0 <= i < |init| ==> init[i] == rows[i];
      }
      ViewClearDay(init, dayOf, id, day, d);
      assert rows == init + [last];
      ViewSnoc(init, dayOf, last);
      if IsKey(last, id, day) {
        assert ClearDay(rows, id, day) == ClearDay(init, id, day);
        assert dayOf(last) == Some(d);
        UpdateThenRemove(View(init, dayOf), d, Decode(Some(last.status)));
      } else {
        assert ClearDay(rows, id, day) == ClearDay(init, id, day) + [last];
        ViewSnoc(ClearDay(init, id, day), dayOf, last);
        if dayOf(last).Some? {
          RemoveThenUpdateOther(View(init, dayOf), d, dayOf(last).value, Decode(Some(last.status)));
        }
      }
    }
  }

  /** Removing a key forgets an update made to it. */
  lemma UpdateThenRemove(m: map<nat, Status>, d: nat, v: Status)
    ensures m[d := v] - {d} == m - {d}
  {
    assert (m[d := v] - {d}).Keys == (m - {d}).Keys;
  }

  /** Removing one key and updating another commute. */
  lemma RemoveThenUpdateOther(m: map<nat, Status>, d: nat, e: nat, v: Status)
    requires d != e
    ensures (m - {d})[e := v] == m[e := v] - {d}
  {
    assert ((m - {d})[e := v]).Keys == (m[e := v] - {d}).Keys;
  }

  /** A view over one more row. */
  lemma ViewSnoc(rows: seq<AttRow>, dayOf: AttRow -> Option<nat>, x: AttRow)
    ensures View(rows + [x], dayOf)
         == match dayOf(x)
            case Some(d) => View(rows, dayOf)[d := Decode(Some(x.status))]
            case None => View(rows, dayOf)
  {
    assert (rows + [x])[..|rows|] == rows;
  }

  lemma {:induction false} ViewRestatus(rows: seq<AttRow>, dayOf: AttRow -> Option<nat>, id: int, day: string, d: nat, st: string)
    requires FilesKeyAt(rows, dayOf, id, day, d)
    requires forall i :: 0 <= i < |rows| ==> dayOf(rows[i].(status := st)) == dayOf(rows[i])
    ensures View(Restatus(rows, id, day, st), dayOf)
         == if HasKey(rows, id, day) then View(rows, dayOf)[d := Decode(Some(st))] else View(rows, dayOf)
  {
    if rows != [] {
      var init, last := rows[..|rows| - 1], rows[|rows| - 1];
      assert forall i :: 0 <= i < |init| ==> init[i] == rows[i];
      RestatusSplit(rows, id, day, st);
      HasKeySplit(rows, id, day);
      ViewRestatus(init, dayOf, id, day, d, st);
    }
  }

  lemma RestatusSplit(rows: seq<AttRow>, id: int, day: string, st: string)
    requires rows != []
    ensures var r := Restatus(rows, id, day, st);
      r[..|r| - 1] == Restatus(rows[..|rows| - 1], id, day, st) && r[|r| - 1] == Restatus([rows[|rows| - 1]], id, day, st)[0]
  {
    var r := Restatus(rows, id, day, st);
    assert r[..|r| - 1] == Restatus(rows[..|rows| - 1], id, day, st);
  }

  lemma HasKeySplit(rows: seq<AttRow>, id: int, day: string)
    requires rows != []
    ensures HasKey(rows, id, day) <==> HasKey(rows[..|rows| - 1], id, day) || IsKey(rows[|rows| - 1], id, day)
  {
    var init := rows[..|rows| - 1];
    if HasKey(rows, id, day) {
      var i :| 0 <= i < |rows| && IsKey(rows[i], id, day);
      if i < |init| { assert IsKey(init[i], id, day); }
    }
    if HasKey(init, id, day) {
      var i :| 0 <= i < |init| && IsKey(init[i], id, day);
      assert IsKey(rows[i], id, day);
    }
  }

  /** Rows whose dates all have the ISO shape `YYYY-MM-DD`, as `set_attendance` writes them. */
  predicate WellFormed(rows: seq<AttRow>) {
    forall i :: 0 <= i < |rows| ==> IsIsoShape(rows[i].date)
  }

  /** On an ISO-shaped row, the month view files the row under day `d` exactly when the
      row is the row of `(id, IsoDate(y, m, d))`. */
  lemma DayOfIsoRow(r: AttRow, id: int, y: int, m: int, d: int)
    requires ValidDate(y, m, d) && IsIsoShape(r.date)
    ensures DayOf(r, id, MonthPrefix(y, m)) == Some(d) <==> IsKey(r, id, IsoDate(y, m, d))
  {
    IsoDateInMonth(y, m, d);
    if DayOf(r, id, MonthPrefix(y, m)) == Some(d) {
      IsoShapeDetermined(r.date, y, m, d);
    }
  }

  /** On ISO-dated rows the month view files under day `d` exactly the rows of
      `(id, IsoDate(y, m, d))`, whatever their status. */
  lemma MonthFilesKey(rows: seq<AttRow>, id: int, y: int, m: int, d: int, st: string)
    requires ValidDate(y, m, d) && WellFormed(rows)
    ensures FilesKeyAt(rows, DayFn(id, MonthPrefix(y, m)), id, IsoDate(y, m, d), d)
    ensures forall i :: 0 <= i < |rows| ==>
      DayFn(id, MonthPrefix(y, m))(rows[i].(status := st)) == DayFn(id, MonthPrefix(y, m))(rows[i])
  {
    forall i | 0 <= i < |rows|
      ensures (DayFn(id, MonthPrefix(y, m))(rows[i]) == Some(d as nat) <==> IsKey(rows[i], id, IsoDate(y, m, d)))
    {
      DayOfIsoRow(rows[i], id, y, m, d);
    }
  }

  /** `set_attendance` writes ISO dates, so a table of ISO dates stays one. */
  lemma {:induction false} SetDayWellFormed(rows: seq<AttRow>, id: int, y: int, m: int, d: int, status: Option<string>)
    requires ValidDate(y, m, d) && WellFormed(rows)
    ensures WellFormed(SetDay(rows, id, IsoDate(y, m, d), status))
  {
    var day := IsoDate(y, m, d);
    var r := SetDay(rows, id, day, status);
    if status == None || status == Some("") {
      ClearDayWellFormed(rows, id, day);
    } else if HasKey(rows, id, day) {
      forall i | 0 <= i < |r| ensures IsIsoShape(r[i].date) {
        assert r[i].date == rows[i].date;
      }
    } else {
      forall i | 0 <= i < |r| ensures IsIsoShape(r[i].date) {
        if i < |rows| { assert r[i] == rows[i]; }
      }
    }
  }

  lemma {:induction false} ClearDayWellFormed(rows: seq<AttRow>, id: int, day: string)
    requires WellFormed(rows)
    ensures WellFormed(ClearDay(rows, id, day))
  {
    if rows != [] {
      var init := rows[..|rows| - 1];
      assert forall i :: 0 <= i < |init| ==> init[i] == rows[i];
      ClearDayWellFormed(init, id, day);
    }
  }

  /** What a click shows: on a table of ISO dates, after `set_attendance` for day `d` the
      month view no longer shows `d` if the status was unset, and otherwise shows `d` with
      the new status; every other day of the view is unchanged. */
  lemma SetDayView(rows: seq<AttRow>, id: int, y: int, m: int, d: int, status: Option<string>)
    requires ValidDate(y, m, d) && WellFormed(rows)
    ensures WellFormed(SetDay(rows, id, IsoDate(y, m, d), status))
    ensures var view := MonthMap(rows, id, MonthPrefix(y, m));
      MonthMap(SetDay(rows, id, IsoDate(y, m, d), status), id, MonthPrefix(y, m))
      == if status == None || status == Some("") then view - {d as nat}
         else view[d as nat := Decode(status)]
  {
    SetDayWellFormed(rows, id, y, m, d, status);
    var day := IsoDate(y, m, d);
    if status == None || status == Some("") {
      ClearView(rows, id, y, m, d);
    } else if HasKey(rows, id, day) {
      RestatusView(rows, id, y, m, d, status.value);
    } else {
      AppendView(rows, id, y, m, d, status.value);
    }
  }

  lemma ClearView(rows: seq<AttRow>, id: int, y: int, m: int, d: int)
    requires ValidDate(y, m, d) && WellFormed(rows)
    ensures MonthMap(ClearDay(rows, id, IsoDate(y, m, d)), id, MonthPrefix(y, m))
         == MonthMap(rows, id, MonthPrefix(y, m)) - {d as nat}
  {
    MonthFilesKey(rows, id, y, m, d, "");
    ViewClearDay(rows, DayFn(id, MonthPrefix(y, m)), id, IsoDate(y, m, d), d);
  }

  lemma RestatusView(rows: seq<AttRow>, id: int, y: int, m: int, d: int, st: string)
    requires ValidDate(y, m, d) && WellFormed(rows) && HasKey(rows, id, IsoDate(y, m, d))
    ensures MonthMap(Restatus(rows, id, IsoDate(y, m, d), st), id, MonthPrefix(y, m))
         == MonthMap(rows, id, MonthPrefix(y, m))[d as nat := Decode(Some(st))]
  {
    MonthFilesKey(rows, id, y, m, d, st);
    ViewRestatus(rows, DayFn(id, MonthPrefix(y, m)), id, IsoDate(y, m, d), d, st);
  }

  lemma AppendView(rows: seq<AttRow>, id: int, y: int, m: int, d: int, st: string)
    requires ValidDate(y, m, d)
    ensures var r := rows + [AttRow(id, IsoDate(y, m, d), st)];
      MonthMap(r, id, MonthPrefix(y, m)) == MonthMap(rows, id, MonthPrefix(y, m))[d as nat := Decode(Some(st))]
  {
    var row := AttRow(id, IsoDate(y, m, d), st);
    DayOfNewRow(id, y, m, d, st);
    assert (rows + [row])[..|rows|] == rows;
  }

  lemma DayOfNewRow(id: int, y: int, m: int, d: int, st: string)
    requires ValidDate(y, m, d)
    ensures DayFn(id, MonthPrefix(y, m))(AttRow(id, IsoDate(y, m, d), st)) == Some(d as nat)
  {
    IsoDateInMonth(y, m, d);
  }

  /** Toggling a shown day to unset and then back to its status restores the month view,
      so the month summary is unchanged too. */
  lemma UnsetThenRestore(rows: seq<AttRow>, id: int, y: int, m: int, d: nat)
    requires ValidDate(y, m, d) && WellFormed(rows)
    requires var view := MonthMap(rows, id, MonthPrefix(y, m));
      d in view && view[d] != Unset
    ensures var day := IsoDate(y, m, d);
      var view := MonthMap(rows, id, MonthPrefix(y, m));
      MonthMap(SetDay(SetDay(rows, id, day, None), id, day, Code(view[d])), id, MonthPrefix(y, m)) == view
  {
    var day := IsoDate(y, m, d);
    var view := MonthMap(rows, id, MonthPrefix(y, m));
    var cleared := ClearDay(rows, id, day);
    ClearView(rows, id, y, m, d);
    DecodeCode(view[d]);
    assert !HasKey(cleared, id, day);
    AppendView(cleared, id, y, m, d, Code(view[d]).value);
    RestoreRemoved(view, d);
  }

  lemma RestoreRemoved(view: map<nat, Status>, d: nat)
    requires d in view
    ensures (view - {d})[d := view[d]] == view
  {
  }

  /** Days `1..n` of the month view whose status is `s`. */
  function CountIn(view: map<nat, Status>, n: nat, s: Status): nat {
    if n == 0 then 0 else CountIn(view, n - 1, s) + (if n in view && view[n] == s then 1 else 0)
  }

  /** The month summary counts present, tardy and absent days among days `1..n`, so
      together they never exceed the number of days in the month. */
  lemma {:induction false} SummaryBounded(view: map<nat, Status>, n: nat)
    ensures CountIn(view, n, Present) + CountIn(view, n, Tardy) + CountIn(view, n, Absent) <= n
  {
    if n > 0 {
      SummaryBounded(view, n - 1);
    }
  }

  /** The month summary: how many of the days `1..daysInMonth` are present, tardy and absent. */
  method MonthSummary(view: map<nat, Status>, daysInMonth: nat) returns (present: nat, tardy: nat, absent: nat)
    ensures present == CountIn(view, daysInMonth, Present)
    ensures tardy == CountIn(view, daysInMonth, Tardy)
    ensures absent == CountIn(view, daysInMonth, Absent)
    ensures present + tardy + absent <= daysInMonth
  {
    present, tardy, absent := 0, 0, 0;
    var d := 1;
    while d <= daysInMonth
      invariant 1 <= d <= daysInMonth + 1
      invariant present == CountIn(view, d - 1, Present)
      invariant tardy == CountIn(view, d - 1, Tardy)
      invariant absent == CountIn(view, d - 1, Absent)
      invariant present + tardy + absent <= d - 1
    {
      var s := if d in view then view[d] else Unset;
      if s == Present {
        present := present + 1;
      } else if s == Tardy {
        tardy := tardy + 1;
      } else if s == Absent {
        absent := absent + 1;
      }
      d := d + 1;
    }
  }

  /** The attendance table, read and rewritten whole by every change. */
  class AttendanceTable {
    var rows: seq<AttRow>

    constructor (rows: seq<AttRow>)
      ensures this.rows == rows
    {
      this.rows := rows;
    }

    /** `set_attendance(id, y, m, d, status)`. */
    method SetAttendance(id: int, y: int, m: int, d: int, status: Option<string>)
      requires ValidDate(y, m, d)
      modifies this
      ensures rows == SetDay(old(rows), id, IsoDate(y, m, d), status)
    {
      var day := IsoDate(y, m, d);
      if status == None || status == Some("") {
        rows := ClearDay(rows, id, day);
      } else if HasKey(rows, id, day) {
        rows := Restatus(rows, id, day, status.value);
      } else {
        rows := rows + [AttRow(id, day, status.value)];
      }
    }

    /** `att_map_for_month(id, y, m)`: one pass over the rows. */
    method AttMapForMonth(id: int, y: int, m: int) returns (view: map<nat, Status>)
      requires ValidMonth(y, m)
      ensures view == MonthMap(rows, id, MonthPrefix(y, m))
    {
      var prefix := MonthPrefix(y, m);
      view := map[];
      var i := 0;
      while i < |rows|
        invariant i <= |rows|
        invariant view == MonthMap(rows[..i], id, prefix)
      {
        var r := rows[i];
        MonthMapStep(rows, i, id, prefix);
        if r.id == id && StartsWith(r.date, prefix) {
          var d := ParseNat(LastField(r.date, '-'));
          if d.Some? {
            view := view[d.value := Decode(Some(r.status))];
          }
        }
        i := i + 1;
      }
      assert rows[..i] == rows;
    }

    /** A click on day `d` of the calendar: read the month view, move the day's status to
        the next one and store it. */
    method Toggle(id: int, y: int, m: int, d: int)
      requires ValidDate(y, m, d)
      modifies this
      ensures var view := MonthMap(old(rows), id, MonthPrefix(y, m));
        var cur := if d in view then view[d] else Unset;
        rows == SetDay(old(rows), id, IsoDate(y, m, d), Code(Cycle(cur)))
    {
      var view := AttMapForMonth(id, y, m);
      var cur := if d in view then Code(view[d]) else None;
      CycleStateIsCycle(cur);
      DecodeCode(if d in view then view[d] else Unset);
      SetAttendance(id, y, m, d, CycleState(cur));
    }
  }
}
