/** The observation log: dated free-text notes about a student. It is kept and read
    like the XP log, without a balance to adjust. */
module Observations {
  import opened Wrappers
  import opened Text
  import opened Entries

  /** One note: its text is the payload of the row. */
  type Observation = Entry<string>

  /** How many notes the student view lists. */
  const RecentLimit: nat := 20

  /** The outcome of the "save observation" button. */
  datatype SaveOutcome = Saved | EmptyText

  /** The outcome of the "delete selected observations" button. */
  datatype DeleteOutcome = NothingSelected | Removed(count: nat)

  /** The observation table. */
  class ObservationLog {
    var rows: seq<Observation>

    constructor (rows: seq<Observation>)
      ensures this.rows == rows
    {
      this.rows := rows;
    }

    /** `append_observation(sid, name, text)`: one row at the end, with an absent text
        written as "". */
    method AppendObservation(sid: int, name: string, text: Option<string>, now: int)
      modifies this
      ensures rows == old(rows) + [Entry(now, sid, name, text.GetOr(""))]
    {
      rows := rows + [Entry(now, sid, name, text.GetOr(""))];
    }

    /** `observations_for(sid, limit)`: the student's newest `limit` notes, newest first; no
        note of the student left out is newer than one shown. */
    method ObservationsFor(sid: int, limit: nat := RecentLimit) returns (r: seq<Observation>)
      ensures r == Recent(rows, sid, limit)
      ensures var n := |EntriesFor(rows, sid)|; |r| == if limit < n then limit else n
      ensures NewestFirst(r)
      ensures forall i :: 0 <= i < |r| ==> r[i].id == sid
      ensures multiset(r) <= multiset(EntriesFor(rows, sid))
      ensures forall e: Observation, i :: e in multiset(EntriesFor(rows, sid)) - multiset(r) && 0 <= i < |r| ==>
        e.timestamp <= r[i].timestamp
    {
      r := Recent(rows, sid, limit);
      RecentShape(rows, sid, limit);
      RecentIsNewest(rows, sid, limit);
    }

    /** `all_observations_for(sid)`: every note of the student, as often as it occurs, and no
        other, newest first. */
    method AllObservationsFor(sid: int) returns (r: seq<Observation>)
      ensures r == AllFor(rows, sid)
      ensures NewestFirst(r)
      ensures forall i :: 0 <= i < |r| ==> r[i].id == sid
      ensures forall e: Observation :: e.id == sid ==> multiset(r)[e] == multiset(rows)[e]
    {
      r := AllFor(rows, sid);
      AllForIsListing(rows, sid);
    }

    /** `delete_observations_for(sid, ts)`: drops the student's notes whose timestamp
        is in `ts` and returns how many went. */
    method DeleteObservationsFor(sid: int, ts: set<int>) returns (removed: nat)
      modifies this
      ensures rows == DeleteFor(old(rows), sid, ts)
      ensures removed == |old(rows)| - |rows| == |Selected(old(rows), sid, ts)|
    {
      var before := |rows|;
      DeletePartition(rows, sid, ts);
      rows := DeleteFor(rows, sid, ts);
      removed := before - |rows|;
    }

    /** The "save observation" button: the typed text,
        stripped of surrounding whitespace, is stored unless nothing is left of it. */
    method SaveObservation(sid: int, name: string, typed: string, now: int) returns (res: SaveOutcome)
      modifies this
      ensures Strip(typed) == [] ==> res == EmptyText && rows == old(rows)
      ensures Strip(typed) != [] ==>
        res == Saved && rows == old(rows) + [Entry(now, sid, name, Strip(typed))]
    {
      var text := Strip(typed);
      if text == [] {
        res := EmptyText;
      } else {
        AppendObservation(sid, name, Some(text), now);
        res := Saved;
      }
    }

    /** The "delete selected observations" button: an empty selection changes nothing;
        otherwise the selected notes of the student are deleted and counted. */
    method DeleteSelected(sid: int, ts: set<int>) returns (res: DeleteOutcome)
      modifies this
      ensures ts == {} ==> res == NothingSelected && rows == old(rows)
      ensures ts != {} ==> res == Removed(|Selected(old(rows), sid, ts)|) && rows == DeleteFor(old(rows), sid, ts)
    {
      if ts == {} {
        return NothingSelected;
      }
      var removed := DeleteObservationsFor(sid, ts);
      res := Removed(removed);
    }
  }
}
