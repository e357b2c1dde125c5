/** Ranks derived from an experience balance by walking an ascending threshold table
    (`compute_level`). The progress fraction is kept as the integer pair
    `(progress, span)` whose quotient the app draws as a bar. */
module Milestones {
  import opened Wrappers

  /** One row of the milestone table; `color` and `icon` may be absent from the row. */
  datatype Milestone = Milestone(name: string, threshold: int, color: Option<string>, icon: Option<string>)

  /** What `compute_level` returns: the current rank's name, icon and color, the
      progress `progress / span`, the points still missing, and the next rank's name
      and threshold (`"MAX"` and the current threshold at the top rank). */
  datatype Level = Level(name: string, icon: string, color: string,
                         progress: int, span: int, remaining: int,
                         nextName: string, nextThreshold: int)

  const MaxLabel: string := "MAX"
  const DefaultColor: string := "#46A0FF"

  /** The table the app writes on first run, before anyone edits it. */
  function DefaultMilestones(): seq<Milestone> {
    [ Milestone("Madera", 0, Some("#8b5a2b"), Some("assets/madera.png")),
      Milestone("Bronce", 100, Some("#b05c28"), Some("assets/bronce.png")),
      Milestone("Plata", 250, Some("#a0a7b8"), Some("assets/plata.png")),
      Milestone("Oro", 500, Some("#e0b63d"), Some("assets/oro.png")),
      Milestone("Platino", 750, Some("#79b8ff"), Some("assets/platino.png")),
      Milestone("Diamante", 1000, Some("#b07cff"), Some("assets/diamante.png")) ]
  }

  /** Thresholds in ascending order, as loading the table leaves them. */
  predicate Sorted(ms: seq<Milestone>) {
    forall i, j :: 0 <= i < j < |ms| ==> ms[i].threshold <= ms[j].threshold
  }

  /** Where the walk over the table stops: the index of the first milestone whose
      threshold exceeds `xp`, or `|ms|` when `xp` reaches them all. */
  function Boundary(ms: seq<Milestone>, xp: int): (k: nat)
    ensures k <= |ms|
    ensures forall i :: 0 <= i < k ==> ms[i].threshold <= xp
    ensures k < |ms| ==> xp < ms[k].threshold
  {
    if ms == [] || xp < ms[0].threshold then 0 else 1 + Boundary(ms[1..], xp)
  }

  /** Index of the current rank: the last milestone reached, or the first one when
      none is reached. */
  function CurrentIndex(ms: seq<Milestone>, xp: int): (i: nat)
    requires |ms| > 0
    ensures i < |ms|
  {
    var k := Boundary(ms, xp);
    if k == 0 then 0 else k - 1
  }

  /** The level `compute_level(xp, ms)` reports. */
  function LevelOf(ms: seq<Milestone>, xp: int): Level
    requires |ms| > 0
  {
    var k := Boundary(ms, xp);
    var cur := ms[CurrentIndex(ms, xp)];
    var icon := cur.icon.GetOr("");
    var color := cur.color.GetOr(DefaultColor);
    if k == |ms| then
      Level(cur.name, icon, color, 1, 1, 0, MaxLabel, cur.threshold)
    else
      var next := ms[k];
      var span := if next.threshold - cur.threshold > 1 then next.threshold - cur.threshold else 1;
      var remaining := if next.threshold - xp > 0 then next.threshold - xp else 0;
      Level(cur.name, icon, color, xp - cur.threshold, span, remaining, next.name, next.threshold)
  }

  /** `compute_level`: one pass over the table, stopping at the first milestone above `xp`. */
  method ComputeLevel(xp: int, ms: seq<Milestone>) returns (lv: Level)
    requires |ms| > 0
    ensures lv == LevelOf(ms, xp)
  {
    var current := ms[0];
    var next: Option<Milestone> := None;
    var i := 0;
    while i < |ms|
      invariant i <= |ms|
      invariant forall j :: 0 <= j < i ==> ms[j].threshold <= xp
      invariant current == ms[if i == 0 then 0 else i - 1]
    {
      if xp >= ms[i].threshold {
        current := ms[i];
      } else {
        next := Some(ms[i]);
        break;
      }
      i := i + 1;
    }
    assert i == Boundary(ms, xp);
    var icon := current.icon.GetOr("");
    var color := current.color.GetOr(DefaultColor);
    if next.None? {
      return Level(current.name, icon, color, 1, 1, 0, MaxLabel, current.threshold);
    }
    var n := next.value;
    var span := if n.threshold - current.threshold > 1 then n.threshold - current.threshold else 1;
    var remaining := if n.threshold - xp > 0 then n.threshold - xp else 0;
    lv := Level(current.name, icon, color, xp - current.threshold, span, remaining, n.name, n.threshold);
  }

  /** On a sorted table the current rank is the last milestone whose threshold `xp`
      reaches and the next rank the first one it does not reach; below every threshold
      both are the first milestone. */
  lemma CurrentIsLastReached(ms: seq<Milestone>, xp: int)
    requires |ms| > 0 && Sorted(ms)
    ensures forall i :: 0 <= i < |ms| ==> (ms[i].threshold <= xp <==> i < Boundary(ms, xp))
    ensures Boundary(ms, xp) > 0 ==> LevelOf(ms, xp).name == ms[Boundary(ms, xp) - 1].name
    ensures Boundary(ms, xp) < |ms| ==> LevelOf(ms, xp).nextName == ms[Boundary(ms, xp)].name
    ensures xp < ms[0].threshold ==> LevelOf(ms, xp).name == ms[0].name && LevelOf(ms, xp).nextName == ms[0].name
  {
  }

  /** Top rank: once no milestone lies above `xp` the bar is full, nothing remains, the
      next name is `"MAX"` and the next threshold is the current rank's own. On a
      sorted table this happens exactly when `xp` reaches the last threshold. */
  lemma TopRank(ms: seq<Milestone>, xp: int)
    requires |ms| > 0
    ensures Boundary(ms, xp) == |ms| ==>
      var lv := LevelOf(ms, xp);
      lv.progress == lv.span == 1 && lv.remaining == 0 && lv.nextName == MaxLabel
      && lv.nextThreshold == ms[|ms| - 1].threshold && lv.name == ms[|ms| - 1].name
    ensures Sorted(ms) ==> (Boundary(ms, xp) == |ms| <==> ms[|ms| - 1].threshold <= xp)
  {
  }

  /** Below the top rank the span is at least 1 (no division by zero), the remaining
      points are exactly the distance to the next threshold, and once the first
      threshold is reached the progress lies in `[0, span)`. */
  lemma ProgressBounds(ms: seq<Milestone>, xp: int)
    requires |ms| > 0
    ensures Boundary(ms, xp) < |ms| ==>
      var lv := LevelOf(ms, xp);
      lv.span >= 1 && lv.remaining == lv.nextThreshold - xp > 0
      && (Boundary(ms, xp) > 0 ==> 0 <= lv.progress < lv.span)
  {
  }

  /** More points never mean a lower rank. */
  lemma {:induction false} RankMonotone(ms: seq<Milestone>, xp1: int, xp2: int)
    requires xp1 <= xp2
    ensures Boundary(ms, xp1) <= Boundary(ms, xp2)
  {
    if ms != [] && xp1 >= ms[0].threshold {
      RankMonotone(ms[1..], xp1, xp2);
    }
  }

  /** The default table is already in ascending threshold order, so the lemmas that
      assume a sorted table apply to it. */
  lemma DefaultTableSorted()
    ensures Sorted(DefaultMilestones())
  {
  }

  /** The worked examples on the default table (thresholds 0, 100, 250, 500, 750,
      1000): 0 points is the first rank with no progress, 99 points is 99/100 of the way
      to the second rank, 100 points starts the second rank. */
  lemma DefaultTableLowRanks()
    ensures var ms := DefaultMilestones();
      && LevelOf(ms, 0).name == "Madera" && LevelOf(ms, 0).progress == 0
      && LevelOf(ms, 99).name == "Madera" && LevelOf(ms, 99).progress == 99 && LevelOf(ms, 99).span == 100
      && LevelOf(ms, 100).name == "Bronce" && LevelOf(ms, 100).progress == 0
  {
    var ms := DefaultMilestones();
    assert Boundary(ms[1..], 99) == 0;
    assert Boundary(ms[2..], 100) == 0;
    assert Boundary(ms[1..], 100) == 1;
  }

  /** 10000 points on the default table is the top rank with a full bar, nothing
      remaining and `"MAX"` as the next name. */
  lemma DefaultTableTopRank()
    ensures var ms := DefaultMilestones();
      && LevelOf(ms, 10000).name == "Diamante" && LevelOf(ms, 10000).progress == LevelOf(ms, 10000).span
      && LevelOf(ms, 10000).remaining == 0 && LevelOf(ms, 10000).nextName == MaxLabel
  {
    var ms := DefaultMilestones();
    assert Boundary(ms[5..], 10000) == 1;
    assert Boundary(ms[4..], 10000) == 2;
    assert Boundary(ms[3..], 10000) == 3;
    assert Boundary(ms[2..], 10000) == 4;
    assert Boundary(ms[1..], 10000) == 5;
  }
}
