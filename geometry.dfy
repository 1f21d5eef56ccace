/**
 * Stand-ins for the engine's vector types and the centring of sampler output
 * on the world origin, in the world's ground plane (Avoider.GeneratePoissonPoints).
 */
module Geometry {

  /** A Vector3: x and z span the ground plane, y is the height. */
  datatype Point = Point(x: real, y: real, z: real)

  /** A Vector2 produced by the Poisson-disc sampler over [0, 2r] x [0, 2r]. */
  datatype Sample = Sample(x: real, y: real)

  /** The default value of an unset Vector3 field. */
  const Origin := Point(0.0, 0.0, 0.0)

  /**
   * Squared Euclidean distance. Vector3.Distance is its square root, and the
   * square root is strictly increasing, so both order points identically.
   */
  function SqDist(a: Point, b: Point): (d: real)
    ensures d >= 0.0
    ensures a == b ==> d == 0.0
  {
    var dx, dy, dz := a.x - b.x, a.y - b.y, a.z - b.z;
    dx * dx + dy * dy + dz * dz
  }

  /**
   * One sample shifted by the sampling radius so that the sampled square is
   * centred on the world origin, lifted to the world's ground plane (y = 0).
   * Nothing is added for the agent's own position.
   */
  function Lift(s: Sample, radius: real): (p: Point)
    ensures p.y == 0.0
    ensures Unlift(p, radius) == s
  {
    Point(s.x - radius, 0.0, s.y - radius)
  }

  /** The sample a ground-plane point came from. */
  function Unlift(p: Point, radius: real): Sample
  {
    Sample(p.x + radius, p.z + radius)
  }

  /** The candidate points appended for a run of samples, one per sample, in order. */
  function LiftAll(samples: seq<Sample>, radius: real): (ps: seq<Point>)
    ensures |ps| == |samples|
    ensures forall i :: 0 <= i < |samples| ==> ps[i] == Lift(samples[i], radius)
  {
    if samples == [] then []
    else LiftAll(samples[..|samples| - 1], radius) + [Lift(samples[|samples| - 1], radius)]
  }

  predicate Distinct<T(==)>(s: seq<T>)
  {
    forall i, j :: 0 <= i < j < |s| ==> s[i] != s[j]
  }

  /** Distinct samples give distinct candidates: lifting loses nothing. */
  lemma LiftAllInjective(samples: seq<Sample>, radius: real)
    requires Distinct(samples)
    ensures Distinct(LiftAll(samples, radius))
  {
    var ps := LiftAll(samples, radius);
    forall i, j | 0 <= i < j < |ps| ensures ps[i] != ps[j] {
      assert Unlift(ps[i], radius) == samples[i];
      assert Unlift(ps[j], radius) == samples[j];
    }
  }

  /** Every point the sampler may emit lies in the square [0, 2r] x [0, 2r]. */
  predicate InSamplerDomain(s: Sample, radius: real)
  {
    0.0 <= s.x <= 2.0 * radius && 0.0 <= s.y <= 2.0 * radius
  }

  /**
   * Centring: samples inside the sampler's square become ground-plane points
   * inside the square of half-extent r around the world origin, and the
   * other way round.
   */
  lemma LiftCentres(s: Sample, radius: real)
    ensures InSamplerDomain(s, radius) <==>
      var p := Lift(s, radius);
      -radius <= p.x <= radius && -radius <= p.z <= radius
  {
  }
}
