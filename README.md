# Classroom XP tracker — a Dafny model of its bookkeeping core

The application is a Streamlit dashboard in which a teacher keeps, for each student,
an experience balance (XP), a rank derived from it, a log of every change made to the
balance, free-text observations, and a per-day attendance calendar. This project
models the bookkeeping behind those screens and proves what it keeps true:

- **Ranks** (`milestones.dfy`): `compute_level` walks an ascending threshold table and
  returns the current rank, the progress towards the next rank, the points still
  missing, and `"MAX"` at the top. Modelled as a specification function `LevelOf`
  and a method `ComputeLevel` with the source's loop, proved equal.
- **Attendance** (`attendance.dfy`, `calendar.dfy`, `text.dfy`): the status cycle
  unset → P → T → A → unset (`cycle_state`), `set_attendance` (clear, restatus, or
  append one row), `att_map_for_month` (a fold over the table in which the last row
  for a day wins), the month summary counts, and the ◀/▶ month arrows. The table is
  a class whose `rows` field the methods reassign.
- **XP ledger** (`ledger.dfy`, `entries.dfy`): the roster and the log as one class,
  `Ledger.Books`. It covers `append_log`, the listings (`recent_logs_for`,
  `all_logs_for`), `delete_logs_for`, and the three screen actions that move balances:
  - the "apply" buttons;
  - "delete selected logs", which takes the deleted changes off the balance;
  - the roster editor's bulk apply.

  The invariant every apply, every delete-and-reverse and every completed bulk apply
  keeps is each student's **opening balance**: the balance minus the sum of the
  student's logged changes. A bulk apply that stops on an unknown id breaks it, as
  the source does.
- **Observations** (`observations.dfy`): the same append / list / delete operations
  over the observation log, plus the save button (strip whitespace, refuse empty text)
  and the delete button.

The log rows of both logs share one generic `Entries.Entry<P>` with the operations on
it (filter by student, newest-first listing, delete by student and timestamps).
Timestamps are integers. ISO second-precision strings order the same way, and the
clock is a parameter (`now`).

## Model

| member | source | states |
|---|---|---|
| Milestones.LevelOf | app.py:434-444 | the tuple `compute_level` returns, read off the boundary: the current and next milestones, progress and span, remaining points, and the "MAX" case |
| Milestones.CurrentIndex | app.py:435-438 | the index of the milestone the loop leaves in `current`: the last one reached, or the first when none is |
| Milestones.ComputeLevel | app.py:434-444 | the loop that stops at the first milestone above `xp` computes exactly `LevelOf(ms, xp)` |
| Milestones.Boundary | app.py:436-439 | the number of leading milestones whose threshold `xp` reaches; every earlier one is reached and the one at the boundary is not |
| Milestones.CurrentIsLastReached | app.py:435-439 | on a sorted table a milestone is reached iff it lies before the boundary; the current rank is the last reached milestone and the next rank the first unreached one; below every threshold both are the first milestone |
| Milestones.TopRank | app.py:440-441 | past the last milestone the bar is full, nothing remains, the next name is "MAX" and the next threshold is the current one; on a sorted table this happens iff `xp` reaches the last threshold |
| Milestones.ProgressBounds | app.py:442-444 | below the top the span is at least 1, the remaining points are the positive distance to the next threshold, and once the first threshold is reached the progress lies in `[0, span)` |
| Milestones.RankMonotone | app.py:436-439 | more XP never gives a lower rank |
| Milestones.DefaultTableSorted | app.py:203-210 | the table written on first run is already in ascending threshold order, so the lemmas that assume a sorted table apply to it |
| Milestones.DefaultTableLowRanks | app.py:203-210 | on the default table 0 and 99 XP are "Madera" with progress 0 and 99 of 100, and 100 XP starts "Bronce" |
| Milestones.DefaultTableTopRank | app.py:203-210 | on the default table 10000 XP is "Diamante" with a full bar, nothing remaining and "MAX" next |
| Attendance.Code | app.py:362-365 | the stored code of each status: no code for unset, "P", "T", "A" |
| Attendance.Decode | app.py:358 | the status a stored code stands for; any code outside "P", "T", "A" reads as unset |
| Attendance.Cycle | app.py:362-365 | the status order unset → P → T → A → unset, as a cycle on the status datatype |
| Attendance.IndexOf | app.py:364 | `order.index(cur)`: the first position holding `cur`, which occurs nowhere before it |
| Attendance.CycleState | app.py:362-365 | the next state is always one of unset, "P", "T", "A" |
| Attendance.CycleStateIsCycle | app.py:362-365 | `cycle_state` is the status cycle unset → P → T → A → unset read through the codes; an unknown code counts as unset and goes to "P" |
| Attendance.CyclePeriodFour | app.py:362-365 | four clicks bring every status back, and fewer never do |
| Attendance.CycleStatePeriodFour | app.py:362-365 | four clicks return every known code to itself and an unknown one to unset |
| Attendance.DecodeCode | app.py:358 | a status's stored code reads back as that status |
| Attendance.ClearDay | app.py:339-340 | no row of the student for that day survives, and the table does not grow; `ClearDayKeeps` states that every other row stays |
| Attendance.ClearDayKeeps | app.py:339-340 | `df[~mask]` keeps every row outside the student's day exactly as often as it occurred |
| Attendance.RestatusKeeps | app.py:342-343 | restatusing keeps every row outside the student's day exactly as often as it occurred |
| Attendance.SetDay | app.py:335-346 | the table `set_attendance` writes: clear on an unset status, restatus when the day has rows, otherwise append one row |
| Attendance.Restatus | app.py:342-343 | restatusing keeps the table's length |
| Attendance.SetDayEffect | app.py:335-346 | clearing leaves no row for the day; setting leaves at least one, all carrying the new status, and appends exactly one row iff the day had none |
| Attendance.ClearDayIdempotent | app.py:339-340 | clearing a day twice is clearing it once |
| Attendance.ClearDayRestatus | app.py:339-343 | clearing after restatusing is clearing |
| Attendance.OtherDaysUnchanged | app.py:335-346 | `set_attendance` keeps every row of another student or day exactly as often as it occurred, and in the same order |
| Attendance.ClearDayMembers | app.py:339-340 | every row the deletion keeps was in the table |
| Attendance.ClearDayUnique | app.py:339-340 | deleting the day's rows keeps a table with at most one row per student and day |
| Attendance.SetDayUnique | app.py:335-346 | `set_attendance` keeps at most one row per student and day, because it appends only when the day has no row |
| Attendance.DayOf | app.py:351-357 | the day a row files under in the student's month map: same id, the month's prefix, and a last field that parses as a number |
| Attendance.View | app.py:353-358 | the fold over the rows in which each filed row sets its day to its decoded status, so the last row for a day wins |
| Attendance.MonthMap | app.py:348-360 | `att_map_for_month` as the fold `View` with the month's `DayOf` |
| Attendance.ViewDomain | app.py:353-359 | a day is in the month map iff some row of the student in that month names it |
| Attendance.LastRowWins | app.py:353-359 | the month map holds for each day the status of the last row that names it |
| Attendance.SetDayView | app.py:335-359 | after `set_attendance` the month map is the old map with the day removed (clear) or set to the new status |
| Attendance.UnsetThenRestore | app.py:335-365 | clearing a shown day and setting it back to its status restores the month map |
| Attendance.SetDayWellFormed | app.py:335-346 | rows written through `set_attendance` keep every stored date in ISO `YYYY-MM-DD` form |
| Attendance.CountIn | app.py:423-426 | the number of days `1..n` of the month map with a given status |
| Attendance.SummaryBounded | app.py:423-426 | the three month counts add up to at most the number of days in the month |
| Attendance.MonthSummary | app.py:423-426 | the loop counts, for each status, the days `1..n` of the month map with that status |
| Attendance.AttendanceTable.SetAttendance | app.py:335-346 | the table becomes `SetDay` of the old table |
| Attendance.AttendanceTable.AttMapForMonth | app.py:348-360 | the loop over the table builds `MonthMap`, the fold in which the last row for a day wins |
| Attendance.AttendanceTable.Toggle | app.py:414-419 | a calendar click stores the cycle successor of the day's shown status |
| Calendar.DaysInMonth | app.py:399 | every month has 28 to 31 days |
| Calendar.IsoDate | app.py:337 | `date(y,m,d).isoformat()` has the `YYYY-MM-DD` shape |
| Text.ZeroPad | app.py:351 | the `:02d`/`:04d` formatting: all digits and as long as the wider of `width` and the number's own digits; `ParseZeroPad` proves it parses back |
| Text.StartsWith | app.py:352 | `str.startswith`: the prefix is the string's first characters; `IsoDateInMonth` proves every date of a month starts with its prefix |
| Calendar.MonthPrefix | app.py:351 | `f"{y:04d}-{m:02d}-"` is four digits, a dash, two digits and a dash |
| Calendar.IsoDateInMonth | app.py:351-356 | a date of the month starts with the month's prefix and its last dash-field parses back to the day |
| Calendar.IsoShapeDetermined | app.py:351-356 | an ISO-shaped date with the month's prefix whose day field parses to `d` is that day's date, so the month filter and day parse pick out exactly the rows written for that day |
| Calendar.PrevMonth | app.py:379-382 | ◀ steps exactly one month back, wrapping January to December of the previous year |
| Calendar.NextMonth | app.py:389-392 | ▶ steps exactly one month forward, wrapping December to January of the next year |
| Calendar.ArrowsInverse | app.py:379-392 | ◀ then ▶, and ▶ then ◀, return to the same month |
| Text.ParseZeroPad | app.py:337-356 | a zero-padded number parses back to the number |
| Text.LastFieldAfterSeparator | app.py:356 | `split("-")[-1]` returns what follows the last dash |
| Text.LastField | app.py:356 | the last field holds no separator, is a suffix of the string, and follows a separator unless it is the whole string |
| Text.ParseNat | app.py:356 | a parse succeeds iff the text is non-empty and all ASCII digits |
| Text.Strip | app.py:1003 | the stripped text is no longer than the input and neither begins nor ends with whitespace |
| Text.StripRemovesOnlyEnds | app.py:840 | `strip()` returns a slice of its input with only whitespace before and after it |
| Entries.EntriesFor | app.py:251 | the student's rows are rows of that student |
| Entries.EntriesForConcat | app.py:251 | filtering a concatenation of two logs filters each part |
| Entries.Selected | app.py:905 | the selected rows are the student's rows whose timestamp is selected |
| Entries.DeleteFor | app.py:264-270 | no row of the student with a selected timestamp survives a deletion |
| Entries.DeletePartition | app.py:264-270 | the deleted rows and the kept rows together are the table, so the count returned is the number of selected rows |
| Entries.DeleteExact | app.py:264-270 | every row of the student with a selected timestamp goes, however many share it; every other row stays as often as it occurred |
| Entries.DeleteKeepsOthers | app.py:267 | deleting one student's rows leaves every other student's rows as they were |
| Entries.DeleteIgnoresAbsent | app.py:267 | selecting a timestamp the student has no row at changes nothing |
| Entries.NothingSelected | app.py:264-270 | when nothing matches, the table is left as it was |
| Entries.AppendThenDelete | app.py:243-247 | appending a row at a fresh timestamp and deleting that timestamp restores the log |
| Entries.SortNewestFirst | app.py:251 | the sort orders by descending timestamp and is a permutation |
| Entries.Insert | app.py:251 | inserting into a newest-first list keeps it newest first and adds exactly the new row |
| Entries.AllFor | app.py:258-262 | the student's rows sorted newest first |
| Entries.Recent | app.py:249-256 | the first `limit` rows of the student's newest-first listing |
| Entries.AllForIsListing | app.py:258-262 | the listing holds every row of the student exactly as often as the log does and no other row, newest first |
| Entries.RecentShape | app.py:249-256 | the recent listing shows `min(limit, n)` of the student's `n` rows, newest first, and only rows of the student |
| Entries.RecentIsNewest | app.py:249-256 | the recent listing is drawn from the student's rows and no row left out is newer than a row shown |
| Entries.SelectedOfListing | app.py:905 | selecting from the listing picks the same rows as selecting from the log |
| Ledger.FindIndex | app.py:909 | a lookup that succeeds points at a row of that student |
| Ledger.FindIndexFirst | app.py:909 | `.iloc[0]` finds the first row of the student, and there is none exactly when no row has that id |
| Ledger.Find | app.py:909 | `students[students["id"]==sid].iloc[0]`: the first roster row of the student, or none |
| Ledger.SetXp | app.py:859 | `students.loc[students["id"]==sid, "xp"] = xp`: every row of the student gets the new balance |
| Ledger.CopyProfile | app.py:1000-1001 | every row of the student gets the editor row's profile columns |
| Ledger.ResetDeltas | app.py:1010 | every roster row's pending change becomes 0 |
| Ledger.BulkStep | app.py:998-1009 | one editor row: skip rows without an id, copy the profile, and add and log a non-zero change, stopping on an unknown id |
| Ledger.BulkRun | app.py:997-1009 | the editor rows applied in order, one `BulkStep` each |
| Ledger.FindAfterSetXp | app.py:859 | setting the balance changes that student's balance and nothing any lookup sees |
| Ledger.FindAfterCopyProfile | app.py:1000-1001 | copying a profile changes that student's profile and nothing else |
| Ledger.FindAfterResetDeltas | app.py:1010 | clearing pending changes zeroes them for every row and touches nothing else |
| Ledger.SumDeltas | app.py:906 | `selected_raw["delta_xp"].sum()`, the sum inside the opening balance; `SumAppend`, `SumConcat` and `SumPermutation` prove it adds over concatenation and ignores order |
| Ledger.SumAppend | app.py:906 | appending a row adds its change to the sum |
| Ledger.SumConcat | app.py:906 | the sum of two pieces of a log is the sum of their sums |
| Ledger.SumPermutation | app.py:905-906 | the sum of changes does not depend on the order of the rows |
| Ledger.SumAfterDelete | app.py:905-911 | a deletion takes off the student's logged total exactly the sum of the rows it removes |
| Ledger.ListingSelectionSum | app.py:905-906 | the sum taken from the newest-first listing equals the sum over the selected log rows |
| Ledger.ApplyKeepsOpening | app.py:858-861 | adding a change to the balance while logging it keeps every opening balance |
| Ledger.DeleteKeepsOpening | app.py:900-912 | deleting the selected rows while taking their sum off the balance keeps every opening balance |
| Ledger.DeleteOrphanKeepsOpening | app.py:907 | deleting rows of a student missing from the roster leaves every opening balance as it was |
| Ledger.StepKeepsOpening | app.py:998-1009 | one editor row of a bulk apply keeps every opening balance |
| Ledger.BulkKeepsOpening | app.py:990-1012 | a bulk apply that completes keeps every opening balance |
| Ledger.BulkShiftsOpening | app.py:1005-1012 | measured against the roster it started from, a bulk apply lowers each student's opening balance by exactly the sum of the changes it logged for that student; a stopped run keeps those rows and the old roster, so this drift stays |
| Ledger.BulkShiftsEveryOpening | app.py:1005-1012 | the same drift for every student of the roster at once |
| Ledger.Pending | app.py:997-1004 | the changes the editor asks for, in order: `(id, xp_delta, stripped xp_reason)` for each row with an id and a non-zero change |
| Ledger.Postings | app.py:243-247 | what each log row records: id, change and reason |
| Ledger.EditDelta | app.py:1002-1006 | the sum of the editor's pending changes for one student |
| Ledger.BulkAppendsLogs | app.py:990-1012 | a bulk apply only appends to the log, one row per applied change, and on completion has applied as many changes as `Pending` lists |
| Ledger.BulkLogsPending | app.py:997-1009 | on completion the appended log rows record exactly `Pending(edit)`, in editor order, each stamped `now` |
| Ledger.BulkMovesBalances | app.py:1000-1006 | on completion every student on the roster stays on it and their balance has moved by exactly the sum of the editor's pending changes for them |
| Ledger.BulkFailsOnUnknown | app.py:1004-1005 | a bulk apply stops iff some row gives a non-zero change to an id the roster lacks, and names that id |
| Ledger.BulkSameIds | app.py:1000-1006 | a bulk apply keeps the roster's ids where they are |
| Ledger.BulkStopped | app.py:1005 | once a run has stopped, later editor rows change nothing |
| Ledger.ResetKeepsOpening | app.py:1010 | clearing pending changes keeps every opening balance |
| Ledger.Books.AppendLog | app.py:243-247 | the log gains exactly one row at its end, with the reason or the empty string |
| Ledger.Books.RecentLogsFor | app.py:249-256 | the result has `min(limit, n)` of the student's `n` rows (12 by default), newest first, only the student's rows, drawn from them, and no row left out is newer than a row shown |
| Ledger.Books.AllLogsFor | app.py:258-262 | the result is newest first, holds only the student's rows, and holds each of them as often as the log does |
| Ledger.Books.DeleteLogsFor | app.py:264-270 | the log loses exactly the selected rows; the count returned is how many |
| Ledger.Books.ApplyDelta | app.py:858-861 | an unknown student changes nothing and is reported; otherwise the balance moves by `delta`, one log row records it, and every opening balance is kept |
| Ledger.Books.SelectedSum | app.py:905-906 | the sum taken is the sum of the changes in the selected rows |
| Ledger.Books.SetBalance | app.py:909-911 | the student's balance moves by `delta` when the student exists; the log is untouched |
| Ledger.Books.DeleteAndReverse | app.py:900-916 | an empty selection does nothing; otherwise the selected rows go, and when some went the balance loses their sum; every opening balance is kept |
| Ledger.Books.ApplyEditRow | app.py:998-1009 | one editor row advances the run exactly as `BulkStep` does |
| Ledger.Books.BulkApply | app.py:990-1012 | the loop ends in the state of `BulkRun`: on completion the roster with pending changes cleared is stored, the appended log rows record exactly `Pending(edit)`, and each student's balance has moved by the editor's pending changes for them; on an unknown id the rows already logged stay, the roster is not stored, and each opening balance drops by the sum of that student's rows logged before the stop |
| Observations.ObservationLog.AppendObservation | app.py:288-292 | the log gains exactly one row at its end, with the text or the empty string |
| Observations.ObservationLog.ObservationsFor | app.py:294-302 | the result has `min(limit, n)` of the student's `n` notes (20 by default), newest first, only the student's notes, drawn from them, and no note left out is newer than a note shown |
| Observations.ObservationLog.AllObservationsFor | app.py:304-308 | the result is newest first, holds only the student's notes, and holds each of them as often as the log does |
| Observations.ObservationLog.DeleteObservationsFor | app.py:310-316 | the log loses exactly the selected rows; the count returned is how many |
| Observations.ObservationLog.SaveObservation | app.py:839-845 | text that strips to nothing is refused and nothing is stored; otherwise the stripped text is appended |
| Observations.ObservationLog.DeleteSelected | app.py:932-942 | an empty selection changes nothing; otherwise the selected rows go and are counted |

## Left out

- Streamlit rendering, session state, buttons' enabled state, sounds, images and the
  pixel progress bar: the model starts where a click has been decided.
- Storage: CSV files, Google Sheets and the `st.cache_data` caches. Each operation
  reads and writes the whole table, so it is modelled as the class's field being
  replaced.
- `now_iso()`: timestamps are integers passed as `now`; distinct ISO strings order
  like the integers they stand for.
- Milestones.ComputeLevel: requires a non-empty milestone table. On an empty table
  `compute_level` raises `IndexError` at `milestones[0]`, and the rank editor can save
  such a table. That crash is not modelled.
- Rank progress: `compute_level` returns a float `pct`. The model keeps the numerator
  and denominator `(progress, span)` as integers.
- Sort ties: pandas' `sort_values` is not stable by default. For equal timestamps the
  model fixes one order, and the properties proved hold for any order.
- Display formatting: timestamp formatting, column renames and the projection to two
  columns in `observations_for` are not modelled. The listings return whole rows.
- pandas coercions (`to_numeric(...).fillna(0)`, `astype(str)`), `number_input`
  bounds (±1000) and the id column's dtype: inputs are taken as already-typed values.
- Text.ParseNat: Python's `int()` also accepts surrounding whitespace, a sign,
  underscores between digits and non-ASCII decimal digits (such as "٣"). Days are
  parsed as plain ASCII digit strings, which is what `set_attendance` writes.
- Attendance.AttendanceTable.AttMapForMonth: a row whose status is not P/T/A maps to
  unset, as in the source. Rows whose date is not ISO-shaped are covered only by
  the fold, not by the lemmas that assume well-formed dates.
- Calendar: years before 1 and after 9999, which `date()` rejects, are not modelled.
- `calendar.monthrange`'s first weekday only places buttons in the grid and is left
  out.
- Control view: the student is picked by name (`students["name"]==choice`); the model
  takes the student's id directly.
- Observations.ObservationLog.SaveObservation: takes the text area's value as a
  string. The `None` case of `obs_text or ""` is the empty string.
- Ledger.Books.BulkApply: one `now` stamps every log row of one bulk apply. The
  source calls `now_iso()` inside each `append_log`, so rows of one apply can carry
  different timestamps when the clock ticks during the loop.
- Ledger.Books.BulkApply: a run that stops on an unknown id does not keep the
  opening-balance invariant. The source saves each log row as it goes and raises
  before saving the roster, so the logged changes of the earlier rows never reach
  the balances. The model does the same, and `BulkShiftsOpening` states the
  resulting drift.
- Ledger.Books.BulkApply: editor rows added without an id are skipped, as in the
  source. `xp_reason` is not cleared after an apply, which is also faithful.
- Ledger.Books.ApplyDelta: the source writes `row["xp"] + delta` to every roster row
  with that id, and so does the model (`SetXp`). The logged name is the first such
  row's name.
