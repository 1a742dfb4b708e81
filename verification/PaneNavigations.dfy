/** Finding the next pane in a direction by where panes are shown. */
module PaneNavigations {
  import opened Wrappers
  import opened Percentages
  import opened PaneTree
  import opened PaneGeometries

  datatype FocusDirection = FocusLeft | FocusRight | FocusUp | FocusDown

  type Regions = map<NodeId, Region>

  datatype Score = Score(gap: int, sideGap: int, sideDistance: int)

  predicate Better(a: Score, b: Score) {
    || a.gap < b.gap
    || (a.gap == b.gap && (a.sideGap < b.sideGap || (a.sideGap == b.sideGap && a.sideDistance < b.sideDistance)))
  }

  predicate Sideways(direction: FocusDirection) {
    direction.FocusLeft? || direction.FocusRight?
  }

  function Along(direction: FocusDirection): Axis {
    if Sideways(direction) then LeftToRight else TopToBottom
  }

  predicate Forward(direction: FocusDirection) {
    direction.FocusRight? || direction.FocusDown?
  }

  function End(r: Region, axis: Axis): int {
    r.Start(axis) + r.Extent(axis)
  }

  function IntervalGap(a: Region, b: Region, axis: Axis): int {
    if End(a, axis) < b.Start(axis) then b.Start(axis) - End(a, axis)
    else if End(b, axis) < a.Start(axis) then a.Start(axis) - End(b, axis)
    else 0
  }

  function CenterDistance(a: Region, b: Region, axis: Axis): int {
    var d := a.Start(axis) + End(a, axis) - (b.Start(axis) + End(b, axis));
    if d < 0 then -d else d
  }

  /** How far a candidate lies ahead of the source, or none if it does not. */
  function ScoreCandidate(source: Region, candidate: Region, direction: FocusDirection): Option<Score> {
    var axis, side := Along(direction), Other(Along(direction));
    var gap := if Forward(direction) then candidate.Start(axis) - End(source, axis)
               else source.Start(axis) - End(candidate, axis);
    if gap < 0 then None
    else Some(Score(gap, IntervalGap(source, candidate, side), CenterDistance(source, candidate, side)))
  }

  /** A shown leaf other than the source that lies ahead of it. */
  predicate Qualifies(regions: Regions, source: NodeId, candidate: NodeId, direction: FocusDirection)
    requires source in regions && candidate in regions
  {
    && candidate != source && regions[candidate].rows > 0 && regions[candidate].cols > 0
    && ScoreCandidate(regions[source], regions[candidate], direction).Some?
  }

  function Rating(regions: Regions, source: NodeId, candidate: NodeId, direction: FocusDirection): Score
    requires source in regions && candidate in regions && Qualifies(regions, source, candidate, direction)
  {
    ScoreCandidate(regions[source], regions[candidate], direction).value
  }

  ghost predicate Known(regions: Regions, leaves: seq<NodeId>) {
    forall x :: x in leaves ==> x in regions && regions[x].NonNegative()
  }

  /** The first of the best-rated leaves ahead; none exactly when no leaf lies ahead. */
  ghost predicate IsNearest(regions: Regions, leaves: seq<NodeId>, source: NodeId, direction: FocusDirection,
                            r: Option<NodeId>)
    requires Known(regions, leaves) && source in regions
  {
    && (r.None? ==> forall j :: 0 <= j < |leaves| ==> !Qualifies(regions, source, leaves[j], direction))
    && (r.Some? ==>
          exists i :: 0 <= i < |leaves| && leaves[i] == r.value && FirstBest(regions, leaves, source, direction, i))
  }

  ghost predicate FirstBest(regions: Regions, leaves: seq<NodeId>, source: NodeId, direction: FocusDirection, i: nat)
    requires Known(regions, leaves) && source in regions && i < |leaves|
  {
    && Qualifies(regions, source, leaves[i], direction)
    && forall j :: 0 <= j < |leaves| && Qualifies(regions, source, leaves[j], direction) ==>
         if j < i then
           Better(Rating(regions, source, leaves[i], direction), Rating(regions, source, leaves[j], direction))
         else !Better(Rating(regions, source, leaves[j], direction), Rating(regions, source, leaves[i], direction))
  }

  /** There is only one such leaf. */
  lemma {:induction false} NearestUnique(regions: Regions, leaves: seq<NodeId>, source: NodeId,
                                         direction: FocusDirection, a: Option<NodeId>, b: Option<NodeId>)
    requires Known(regions, leaves) && source in regions
    requires IsNearest(regions, leaves, source, direction, a) && IsNearest(regions, leaves, source, direction, b)
    ensures a == b
  {
  }

  /** Scan all leaves for the best-rated one ahead. */
  method FindImmediateDirectionalPane(regions: Regions, leaves: seq<NodeId>, source: NodeId, direction: FocusDirection)
    returns (best: Option<NodeId>)
    requires Known(regions, leaves) && source in regions
    ensures IsNearest(regions, leaves, source, direction, best)
  {
    best := None;
    var bestScore: Option<Score> := None;
    for i := 0 to |leaves|
      invariant IsNearest(regions, leaves[..i], source, direction, best)
      invariant best.Some? ==> best.value in leaves && Qualifies(regions, source, best.value, direction)
                               && bestScore == Some(Rating(regions, source, best.value, direction))
      invariant best.None? ==> bestScore.None?
    {
      var candidate := leaves[i];
      assert leaves[..i + 1] == leaves[..i] + [candidate];
      ghost var before := best;
      if candidate != source && regions[candidate].rows > 0 && regions[candidate].cols > 0 {
        var score := ScoreCandidate(regions[source], regions[candidate], direction);
        if score.Some? && (bestScore.None? || Better(score.value, bestScore.value)) {
          best := Some(candidate);
          bestScore := score;
        }
      }
      NearestStep(regions, leaves, i, source, direction, before, best);
    }
    assert leaves[..|leaves|] == leaves;
  }

  lemma {:induction false} NearestStep(regions: Regions, leaves: seq<NodeId>, i: nat, source: NodeId,
                                       direction: FocusDirection,
                                       a: Option<NodeId>, b: Option<NodeId>)
    requires Known(regions, leaves) && source in regions && i < |leaves|
    requires IsNearest(regions, leaves[..i], source, direction, a)
    requires a.Some? ==> a.value in leaves && Qualifies(regions, source, a.value, direction)
    requires b == if Qualifies(regions, source, leaves[i], direction)
                     && (a.None?
                         || Better(Rating(regions, source, leaves[i], direction),
                                   Rating(regions, source, a.value, direction)))
                  then Some(leaves[i]) else a
    ensures IsNearest(regions, leaves[..i + 1], source, direction, b)
  {
    hide ScoreCandidate;
    var before, after := leaves[..i], leaves[..i + 1];
    assert forall j :: 0 <= j < i ==> before[j] == leaves[j] && after[j] == leaves[j];
    assert after[i] == leaves[i];
    if b.Some? {
      var k: nat;
      if b != a || a.None? {
        k := i;
      } else {
        k :| 0 <= k < i && before[k] == a.value && FirstBest(regions, before, source, direction, k);
      }
      assert after[k] == b.value;
      forall j | 0 <= j < i + 1 && Qualifies(regions, source, after[j], direction)
        ensures if j < k then
                  Better(Rating(regions, source, after[k], direction), Rating(regions, source, after[j], direction))
                else !Better(Rating(regions, source, after[j], direction), Rating(regions, source, after[k], direction))
      {
        if j < i {
          assert before[j] == after[j];
        }
      }
      assert FirstBest(regions, after, source, direction, k);
    }
  }

  // ----- skipping over leaves that are not eligible

  /** How far a region reaches in a direction. */
  function Reach(r: Region, direction: FocusDirection): int {
    if Forward(direction) then End(r, Along(direction)) else -r.Start(Along(direction))
  }

  ghost function AheadOf(regions: Regions, leaves: seq<NodeId>, source: NodeId, direction: FocusDirection): set<NodeId>
    requires Known(regions, leaves) && source in regions
  {
    set x | x in leaves && Reach(regions[x], direction) > Reach(regions[source], direction)
  }

  /** Every step goes strictly further, so no leaf is met twice. */
  lemma {:induction false} StepsFurther(regions: Regions, leaves: seq<NodeId>, source: NodeId,
                                        direction: FocusDirection, c: NodeId)
    requires Known(regions, leaves) && source in regions && regions[source].NonNegative()
    requires c in leaves && Qualifies(regions, source, c, direction)
    ensures Reach(regions[c], direction) > Reach(regions[source], direction)
    ensures AheadOf(regions, leaves, c, direction) < AheadOf(regions, leaves, source, direction)
    ensures |AheadOf(regions, leaves, c, direction)| < |AheadOf(regions, leaves, source, direction)|
  {
    var a, b := AheadOf(regions, leaves, c, direction), AheadOf(regions, leaves, source, direction);
    assert c in b && c !in a && a <= b;
    CardMono(a, b);
  }

  lemma {:induction false} AtMostAll(regions: Regions, leaves: seq<NodeId>, source: NodeId, direction: FocusDirection)
    requires Known(regions, leaves) && source in regions
    ensures |AheadOf(regions, leaves, source, direction)| <= |leaves|
  {
    ElementsBound(leaves);
    var all := Members(leaves);
    CardMono(AheadOf(regions, leaves, source, direction), all);
  }

  ghost function Members(s: seq<NodeId>): set<NodeId> {
    set x | x in s
  }

  lemma {:induction false} ElementsBound(s: seq<NodeId>)
    ensures |Members(s)| <= |s|
  {
    if s != [] {
      ElementsBound(s[1..]);
      var rest := Members(s[1..]);
      assert Members(s) == rest + {s[0]};
    }
  }

  /** The search without a step limit: from leaf to nearest leaf ahead until an eligible one is met. */
  ghost predicate Finds(regions: Regions, leaves: seq<NodeId>, source: NodeId, direction: FocusDirection,
                        eligible: set<NodeId>, r: Option<NodeId>)
    requires Known(regions, leaves) && source in regions && regions[source].NonNegative()
    decreases AheadOf(regions, leaves, source, direction)
  {
    || (r.None? && IsNearest(regions, leaves, source, direction, None))
    || exists c ::
         c in leaves && IsNearest(regions, leaves, source, direction, Some(c))
         && Qualifies(regions, source, c, direction)
         && if c in eligible then r == Some(c)
            else (StepsFurther(regions, leaves, source, direction, c); Finds(regions, leaves, c, direction, eligible,
                                                                             r))
  }

  lemma {:induction false} FindsUnique(regions: Regions, leaves: seq<NodeId>, source: NodeId, direction: FocusDirection,
                                       eligible: set<NodeId>,
                                       a: Option<NodeId>, b: Option<NodeId>)
    requires Known(regions, leaves) && source in regions && regions[source].NonNegative()
    requires Finds(regions, leaves, source, direction, eligible, a)
             && Finds(regions, leaves, source, direction, eligible, b)
    ensures a == b
    ensures a.Some? ==> a.value in leaves && a.value in eligible
    decreases AheadOf(regions, leaves, source, direction)
  {
    hide IsNearest, Qualifies;
    if c :| c in leaves && IsNearest(regions, leaves, source, direction, Some(c)) {
      NearestOnly(regions, leaves, source, direction, c);
      StepsFurther(regions, leaves, source, direction, c);
      if c !in eligible {
        FindsUnique(regions, leaves, c, direction, eligible, a, b);
      }
    }
  }

  lemma {:induction false} NearestOnly(regions: Regions, leaves: seq<NodeId>, source: NodeId, direction: FocusDirection,
                                       c: NodeId)
    requires Known(regions, leaves) && source in regions && IsNearest(regions, leaves, source, direction, Some(c))
    ensures Qualifies(regions, source, c, direction) && c in leaves
    ensures forall r :: IsNearest(regions, leaves, source, direction, r) ==> r == Some(c)
  {
    forall r | IsNearest(regions, leaves, source, direction, r) ensures r == Some(c) {
      NearestUnique(regions, leaves, source, direction, r, Some(c));
    }
  }

  /** The search of the program, which gives up after as many steps as there are leaves: the limit
      is never the reason for finding nothing. */
  method FindEligibleDirectionalPane(regions: Regions, leaves: seq<NodeId>, source: NodeId, direction: FocusDirection,
                                     eligible: set<NodeId>)
    returns (r: Option<NodeId>)
    requires Known(regions, leaves) && source in regions && regions[source].NonNegative()
    ensures Finds(regions, leaves, source, direction, eligible, r)
    ensures r.Some? ==> r.value in leaves && r.value in eligible
  {
    hide IsNearest, Qualifies;
    var cursor := source;
    var remaining := |leaves|;
    AtMostAll(regions, leaves, source, direction);
    while remaining > 0
      invariant cursor in regions && regions[cursor].NonNegative()
      invariant |AheadOf(regions, leaves, cursor, direction)| <= remaining
      invariant forall x ::
                  Finds(regions, leaves, cursor, direction, eligible, x) ==>
                    Finds(regions, leaves, source, direction, eligible, x)
    {
      var candidate := FindImmediateDirectionalPane(regions, leaves, cursor, direction);
      if candidate.None? {
        return None;
      }
      NearestOnly(regions, leaves, cursor, direction, candidate.value);
      StepsFurther(regions, leaves, cursor, direction, candidate.value);
      if candidate.value in eligible {
        assert Finds(regions, leaves, cursor, direction, eligible, candidate);
        return candidate;
      }
      assert forall x ::
               Finds(regions, leaves, candidate.value, direction, eligible, x) ==>
                 Finds(regions, leaves, cursor, direction, eligible, x);
      cursor := candidate.value;
      remaining := remaining - 1;
    }
    NothingAhead(regions, leaves, cursor, direction);
    return None;
  }

  lemma {:induction false} NothingAhead(regions: Regions, leaves: seq<NodeId>, source: NodeId,
                                        direction: FocusDirection)
    requires Known(regions, leaves) && source in regions && regions[source].NonNegative()
    requires |AheadOf(regions, leaves, source, direction)| == 0
    ensures IsNearest(regions, leaves, source, direction, None)
  {
    forall j | 0 <= j < |leaves| ensures !Qualifies(regions, source, leaves[j], direction) {
      if Qualifies(regions, source, leaves[j], direction) {
        StepsFurther(regions, leaves, source, direction, leaves[j]);
      }
    }
  }
}
