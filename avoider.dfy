/**
 * The avoider component: a one-time candidate set, a valid set rebuilt in
 * place every tick, and a goal moved to the nearest valid point.
 */
module AvoiderPlugin {
  import opened Geometry
  import opened HidingSpots

  /** Default half-extent of the sampled square. */
  const DefaultSampleRadius: real := 25.0

  /**
   * The selection loop of a tick: start from the first point and replace the
   * current choice only by a strictly nearer one.
   */
  method Nearest(pts: seq<Point>, agent: Point) returns (closestPoint: Point)
    requires pts != []
    ensures closestPoint in pts
    ensures forall q :: q in pts ==> SqDist(agent, closestPoint) <= SqDist(agent, q)
    ensures exists k ::
      (0 <= k < |pts| && pts[k] == closestPoint &&
       forall j :: 0 <= j < k ==> SqDist(agent, pts[j]) > SqDist(agent, closestPoint))
  {
    closestPoint := pts[0];
    var closestDist := SqDist(agent, closestPoint);
    ghost var k := 0;
    for i := 0 to |pts|
      invariant 0 <= k < |pts| && pts[k] == closestPoint
      invariant closestDist == SqDist(agent, closestPoint)
      invariant forall j :: 0 <= j < i ==> closestDist <= SqDist(agent, pts[j])
      invariant forall j :: 0 <= j < k ==> SqDist(agent, pts[j]) > closestDist
    {
      var potential := pts[i];
      var dist := SqDist(agent, potential);
      if dist < closestDist {
        closestDist := dist;
        closestPoint := potential;
        k := i;
      }
    }
  }

  class Avoider {
    /** Half-extent of the sampled square (an inspector setting). */
    var sampleRadius: real
    /** The candidate hiding spots, generated once. */
    var candidates: seq<Point>
    /** The candidates hidden from the stalker on the latest tick. */
    var valid: seq<Point>
    /** The latest chosen hiding spot. */
    var goal: Point
    /** Every destination handed to the navigation agent, oldest first. */
    var destinations: seq<Point>

    constructor ()
      ensures sampleRadius == DefaultSampleRadius
      ensures candidates == [] && valid == []
      ensures goal == Origin && destinations == []
    {
      sampleRadius := DefaultSampleRadius;
      candidates := [];
      valid := [];
      goal := Origin;
      destinations := [];
    }

    /**
     * Appends one ground-plane candidate per sample, in sample order.
     * `samples` is what the Poisson-disc sampler yields for a square of
     * side 2 * sampleRadius.
     */
    method GeneratePoissonPoints(samples: seq<Sample>)
      modifies this`candidates
      ensures candidates == old(candidates) + LiftAll(samples, sampleRadius)
    {
      for i := 0 to |samples|
        invariant candidates == old(candidates) + LiftAll(samples[..i], sampleRadius)
      {
        var point := samples[i];
        var offsetX := point.x - sampleRadius;
        var offsetZ := point.y - sampleRadius;
        candidates := candidates + [Point(offsetX, 0.0, offsetZ)];
        assert samples[..i + 1][..i] == samples[..i];
      }
      assert samples[..|samples|] == samples;
    }

    /** Clears the valid set and refills it with the hidden candidates. */
    method RebuildValid(raycast: Raycast, stalker: Point)
      modifies this`valid
      ensures valid == ScanValid(candidates, raycast, stalker)
    {
      valid := [];
      for i := 0 to |candidates|
        invariant valid == ScanValid(candidates[..i], raycast, stalker)
      {
        var point := candidates[i];
        assert candidates[..i + 1][..i] == candidates[..i];
        match raycast(stalker, point)
        case Some(tag) =>
          if tag == ObstacleTag {
            if point !in valid {
              valid := valid + [point];
            }
          }
        case None =>
      }
      assert candidates[..|candidates|] == candidates;
    }

    /**
     * One frame: generate the candidates if there are none yet, rebuild the
     * valid set against the stalker, and when it is non-empty move the goal
     * to its nearest point and send the agent there. `samples` stands for the
     * sampler's output, `raycast` for the physics query, `stalker` and
     * `position` for the stalker's and the agent's positions this frame.
     */
    method Update(samples: seq<Sample>, raycast: Raycast, stalker: Point, position: Point)
      modifies this`candidates, this`valid, this`goal, this`destinations
      ensures old(candidates) != [] ==> candidates == old(candidates)
      ensures old(candidates) == [] ==> candidates == LiftAll(samples, sampleRadius)
      ensures valid == ScanValid(candidates, raycast, stalker)
      ensures forall p :: p in valid <==> p in candidates && Hidden(raycast, stalker, p)
      ensures Distinct(valid) && IsSubsequence(valid, candidates)
      ensures valid != [] ==> IsFirstNearest(valid, position, goal)
      ensures valid != [] ==> destinations == old(destinations) + [goal]
      ensures valid == [] ==> goal == old(goal) && destinations == old(destinations)
    {
      if |candidates| == 0 {
        GeneratePoissonPoints(samples);
      }
      RebuildValid(raycast, stalker);
      forall p ensures p in valid <==> p in candidates && Hidden(raycast, stalker, p) {
        ScanValidMembership(candidates, raycast, stalker, p);
      }
      ScanValidDistinct(candidates, raycast, stalker);
      ScanValidOrdered(candidates, raycast, stalker);
      if |valid| > 0 {
        var closestPoint := Nearest(valid, position);
        goal := closestPoint;
        destinations := destinations + [goal];
      }
    }
  }
}
