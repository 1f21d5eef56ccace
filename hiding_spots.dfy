/**
 * What one tick of the avoider computes, stated as functions over values:
 * which candidates are hidden from the stalker, and which hidden point is
 * the nearest to the agent.
 */
module HidingSpots {
  import opened Geometry

  datatype Option<T> = None | Some(value: T)

  /** The tag that marks a collider as an occluding obstacle. */
  const ObstacleTag: string := "Obstacle"

  /**
   * The physics query: for a ray from `origin` towards `target`, limited to
   * the distance between them, the tag of the first collider hit, if any.
   */
  type Raycast = (Point, Point) -> Option<string>

  /** A point is hidden when the first thing the stalker's ray hits is an obstacle. */
  predicate Hidden(raycast: Raycast, stalker: Point, p: Point)
  {
    match raycast(stalker, p)
    case None => false
    case Some(tag) => tag == ObstacleTag
  }

  /**
   * The valid set after scanning `cands` in order: a hidden point is appended
   * unless it is already present.
   */
  function ScanValid(cands: seq<Point>, raycast: Raycast, stalker: Point): (v: seq<Point>)
    ensures |v| <= |cands|
    decreases |cands|
  {
    if cands == [] then []
    else
      var prev := ScanValid(cands[..|cands| - 1], raycast, stalker);
      var p := cands[|cands| - 1];
      if Hidden(raycast, stalker, p) && p !in prev then prev + [p] else prev
  }

  /** Reference definition: the hidden candidates in order, without the duplicate check. */
  function HiddenOnly(cands: seq<Point>, raycast: Raycast, stalker: Point): seq<Point>
  {
    if cands == [] then []
    else
      var rest := HiddenOnly(cands[1..], raycast, stalker);
      if Hidden(raycast, stalker, cands[0]) then [cands[0]] + rest else rest
  }

  /** `sub` can be obtained from `s` by deleting elements. */
  ghost predicate IsSubsequence(sub: seq<Point>, s: seq<Point>)
    decreases |s|
  {
    sub == [] ||
    (s != [] &&
     (IsSubsequence(sub, s[..|s| - 1]) ||
      (sub[|sub| - 1] == s[|s| - 1] && IsSubsequence(sub[..|sub| - 1], s[..|s| - 1]))))
  }

  /** Filter membership: a point is valid exactly when it is a hidden candidate. */
  lemma {:induction false} ScanValidMembership(cands: seq<Point>, raycast: Raycast, stalker: Point, p: Point)
    ensures p in ScanValid(cands, raycast, stalker) <==> p in cands && Hidden(raycast, stalker, p)
    decreases |cands|
  {
    if cands != [] {
      var init := cands[..|cands| - 1];
      ScanValidMembership(init, raycast, stalker, p);
      assert cands == init + [cands[|cands| - 1]];
    }
  }

  /** Uniqueness: the valid set never holds a point twice. */
  lemma {:induction false} ScanValidDistinct(cands: seq<Point>, raycast: Raycast, stalker: Point)
    ensures Distinct(ScanValid(cands, raycast, stalker))
    decreases |cands|
  {
    if cands != [] {
      ScanValidDistinct(cands[..|cands| - 1], raycast, stalker);
    }
  }

  /** Order: the valid set lists candidates in scan order. */
  lemma {:induction false} ScanValidOrdered(cands: seq<Point>, raycast: Raycast, stalker: Point)
    ensures IsSubsequence(ScanValid(cands, raycast, stalker), cands)
    decreases |cands|
  {
    if cands != [] {
      var init := cands[..|cands| - 1];
      var prev := ScanValid(init, raycast, stalker);
      ScanValidOrdered(init, raycast, stalker);
      var v := ScanValid(cands, raycast, stalker);
      if v != prev {
        assert v[..|v| - 1] == prev;
      }
    }
  }

  /**
   * Fresh each tick: the valid set depends on nothing but the candidates and
   * this tick's verdicts on them.
   */
  lemma {:induction false} ScanValidFresh(cands: seq<Point>, r1: Raycast, s1: Point, r2: Raycast, s2: Point)
    requires forall p :: p in cands ==> (Hidden(r1, s1, p) <==> Hidden(r2, s2, p))
    ensures ScanValid(cands, r1, s1) == ScanValid(cands, r2, s2)
    decreases |cands|
  {
    if cands != [] {
      ScanValidFresh(cands[..|cands| - 1], r1, s1, r2, s2);
    }
  }

  /**
   * The duplicate check is redundant when the candidates are distinct: the
   * valid set is then exactly the hidden candidates in order.
   */
  lemma {:induction false} ScanValidIsFilter(cands: seq<Point>, raycast: Raycast, stalker: Point)
    requires Distinct(cands)
    ensures ScanValid(cands, raycast, stalker) == HiddenOnly(cands, raycast, stalker)
    decreases |cands|
  {
    if cands != [] {
      var init, last := cands[..|cands| - 1], cands[|cands| - 1];
      ScanValidIsFilter(init, raycast, stalker);
      ScanValidMembership(init, raycast, stalker, last);
      HiddenOnlySnoc(init, last, raycast, stalker);
      assert cands == init + [last];
    }
  }

  /**
   * Candidates lifted from distinct samples need no duplicate check: the
   * valid set built from them is the plain in-order filter.
   */
  lemma LiftedScanIsFilter(samples: seq<Sample>, radius: real, raycast: Raycast, stalker: Point)
    requires Distinct(samples)
    ensures ScanValid(LiftAll(samples, radius), raycast, stalker) ==
      HiddenOnly(LiftAll(samples, radius), raycast, stalker)
  {
    LiftAllInjective(samples, radius);
    ScanValidIsFilter(LiftAll(samples, radius), raycast, stalker);
  }

  /** Helper for ScanValidIsFilter: the reference filter processes an appended point last. */
  lemma {:induction false} HiddenOnlySnoc(cands: seq<Point>, p: Point, raycast: Raycast, stalker: Point)
    ensures HiddenOnly(cands + [p], raycast, stalker) ==
      HiddenOnly(cands, raycast, stalker) + (if Hidden(raycast, stalker, p) then [p] else [])
    decreases |cands|
  {
    if cands != [] {
      assert (cands + [p])[1..] == cands[1..] + [p];
      HiddenOnlySnoc(cands[1..], p, raycast, stalker);
    }
  }

  /**
   * `best` is the goal the selection loop settles on: a member of `pts` no
   * farther from `agent` than any other, and the first such in order, since
   * only a strictly nearer point replaces the current one.
   */
  ghost predicate IsFirstNearest(pts: seq<Point>, agent: Point, best: Point)
  {
    (forall q :: q in pts ==> SqDist(agent, best) <= SqDist(agent, q)) &&
    exists k :: 0 <= k < |pts| && pts[k] == best &&
      forall j :: 0 <= j < k ==> SqDist(agent, pts[j]) > SqDist(agent, best)
  }

  /** The selection rule admits exactly one goal for a given valid set. */
  lemma FirstNearestUnique(pts: seq<Point>, agent: Point, b1: Point, b2: Point)
    requires IsFirstNearest(pts, agent, b1) && IsFirstNearest(pts, agent, b2)
    ensures b1 == b2
  {
    var k1 :| 0 <= k1 < |pts| && pts[k1] == b1 &&
      forall j :: 0 <= j < k1 ==> SqDist(agent, pts[j]) > SqDist(agent, b1);
    var k2 :| 0 <= k2 < |pts| && pts[k2] == b2 &&
      forall j :: 0 <= j < k2 ==> SqDist(agent, pts[j]) > SqDist(agent, b2);
    assert pts[k1] in pts && pts[k2] in pts;
  }

  /**
   * Tie-break: with points at distances 5, 3 and 3 from the agent, in that
   * order, the first point at distance 3 is the goal.
   */
  lemma TieBreakExample()
    ensures forall b ::
      (IsFirstNearest([Point(5.0, 0.0, 0.0), Point(3.0, 0.0, 0.0), Point(0.0, 0.0, 3.0)], Origin, b)
       <==> b == Point(3.0, 0.0, 0.0))
  {
    var pts := [Point(5.0, 0.0, 0.0), Point(3.0, 0.0, 0.0), Point(0.0, 0.0, 3.0)];
    var b := Point(3.0, 0.0, 0.0);
    assert SqDist(Origin, pts[0]) == 25.0;
    assert SqDist(Origin, pts[1]) == 9.0;
    assert SqDist(Origin, pts[2]) == 9.0;
    assert pts[1] == b;
    assert IsFirstNearest(pts, Origin, b);
    forall b' | IsFirstNearest(pts, Origin, b') ensures b' == b {
      FirstNearestUnique(pts, Origin, b, b');
    }
  }
}
