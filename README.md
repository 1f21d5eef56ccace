# Avoider: hiding-spot selection

This project models the per-frame logic of the Unity `Avoider` component
(`Assets/Avoider.cs`). The component hides an agent from a pursuer (the
"stalker"):

- While it has no candidate hiding spots, it asks a Poisson-disc sampler for
  points on every frame. It shifts each point so that the sampled square is
  centred on the world origin, and lifts it to the world's ground plane
  (y = 0). Once the list is non-empty, the sampler is not asked again.
- On every frame it rebuilds `validPoints`: the candidates for which the
  first thing a ray from the stalker hits is a collider tagged `"Obstacle"`.
- When that set is not empty, it sends the agent to the valid point nearest
  to it.

The model has three modules:

- `Geometry` (`geometry.dfy`): `Point` and `Sample` stand in for `Vector3`
  and `Vector2`. The file also holds squared Euclidean distance and the
  lifting of samples, with its inverse `Unlift`.
- `HidingSpots` (`hiding_spots.dfy`): what a tick computes, as functions on
  values. `ScanValid` is the valid set produced by the scan. `HiddenOnly` is
  a reference filter without the duplicate check. `IsFirstNearest` describes
  the goal the selection loop picks. The module also holds the lemmas about
  these definitions.
- `AvoiderPlugin` (`avoider.dfy`): the class `Avoider`. Its fields are
  `candidates` (`poissonPositions3D`), `valid` (`validPoints`), `goal`, and
  `destinations`, a log of every `SetDestination` call. Its methods
  `GeneratePoissonPoints`, `RebuildValid` and `Update` follow the source's
  loops. The method `Nearest` is the argmin loop.

Engine services become parameters of `Update`:

- The sampler's output is a sequence of samples.
- `Physics.Raycast` together with the tag check is an oracle. It maps the
  ray's origin and target to the optional tag of the first collider hit.
- The positions of the stalker and the agent are points.

Distances are squared Euclidean distances over exact reals. `Vector3.Distance`
is the square root of this value, and the square root is strictly increasing,
so over exact reals every `<` comparison in the source has the same outcome.

## Model

| member | source | states |
|---|---|---|
| `Geometry.SqDist` | Assets/Avoider.cs:95-99 | The distance used for ranking is never negative, and it is zero from a point to itself. |
| `Geometry.Lift` | Assets/Avoider.cs:119-122 | A lifted sample lies on the world's ground plane (y = 0). Over exact reals, undoing the shift by the sample radius gives back the sample. |
| `Geometry.LiftAll` | Assets/Avoider.cs:116-124 | Exactly one candidate per sample, in sample order. Candidate i is sample i shifted by the radius and lifted. |
| `Geometry.LiftAllInjective` | Assets/Avoider.cs:116-124 | Over exact reals, distinct samples give distinct candidates. |
| `Geometry.LiftCentres` | Assets/Avoider.cs:116-122 | A sample lies in the sampler's square [0, 2r]² exactly when its candidate lies in [-r, r]² around the world origin. The agent's position plays no part. |
| `HidingSpots.ScanValid` | Assets/Avoider.cs:61-89 | The clear, filter and duplicate-check scan, as a function of the candidates and the raycast. It yields at most one valid point per candidate. |
| `HidingSpots.ScanValidMembership` | Assets/Avoider.cs:63-89 | Concerns `ScanValid` and the classification `Hidden` (Assets/Avoider.cs:68-72). A point is valid if and only if it is a candidate and the first hit of the stalker's ray to it is tagged "Obstacle". A miss or any other tag excludes it. |
| `HidingSpots.ScanValidDistinct` | Assets/Avoider.cs:73-75 | The valid set never holds the same point twice. |
| `HidingSpots.ScanValidOrdered` | Assets/Avoider.cs:63-75 | The valid set is a subsequence of the candidates, in scan order. |
| `HidingSpots.ScanValidFresh` | Assets/Avoider.cs:61-89 | The valid set depends only on the candidates and on this tick's raycast verdicts for them. Two ticks that agree on those verdicts build the same set. |
| `HidingSpots.ScanValidIsFilter` | Assets/Avoider.cs:73-75 | When the candidates are distinct, the duplicate check has no effect. The valid set then equals the plain in-order filter of hidden candidates. |
| `HidingSpots.LiftedScanIsFilter` | Assets/Avoider.cs:55-75 | Take candidates lifted from distinct samples. Over exact reals, the duplicate check at line 73 then drops nothing, and the valid set is the plain in-order filter. |
| `HidingSpots.HiddenOnlySnoc` | Assets/Avoider.cs:63-75 | A proof helper for `ScanValidIsFilter`; it models no source line of its own. The reference filter treats a point appended to the scan as the last one it considers. |
| `HidingSpots.FirstNearestUnique` | Assets/Avoider.cs:94-107 | At most one point satisfies "nearest, and first among the nearest". The goal is therefore fully determined by the valid set and the agent's position. |
| `HidingSpots.TieBreakExample` | Assets/Avoider.cs:97-104 | Take points at distances 5, 3 and 3, in that order. The goal is the first point at distance 3, and only that point. |
| `AvoiderPlugin.Nearest` | Assets/Avoider.cs:94-105 | The chosen point belongs to the valid set. No valid point is strictly nearer to the agent. Every point before it in scan order is strictly farther, so it is the first minimum. |
| `AvoiderPlugin.Avoider.constructor` | Assets/Avoider.cs:19-30 | The avoider starts with no candidates and no valid points. The sample radius is 25 and the goal is the zero vector. No destination has been issued. |
| `AvoiderPlugin.Avoider.GeneratePoissonPoints` | Assets/Avoider.cs:114-125 | The candidate list grows by exactly the lifted samples, in sample order. |
| `AvoiderPlugin.Avoider.RebuildValid` | Assets/Avoider.cs:61-89 | The previous contents are discarded. The new valid set is exactly `ScanValid` of the current candidates against this tick's raycasts, classified by `Hidden`. |
| `AvoiderPlugin.Avoider.Update` | Assets/Avoider.cs:48-110 | Candidates are generated only when the list is empty; otherwise they are unchanged. The valid set is the fresh, duplicate-free, in-order set of hidden candidates. If it is non-empty, the goal becomes its first nearest point and exactly that destination is issued. If it is empty, the goal and the issued destinations stay unchanged. |

## Left out

- The Poisson-disc sampler (`PoissonDiscSampler`) is not part of this model. Its output is an arbitrary input sequence, and the model claims nothing about spacing or containment. `LiftCentres` takes containment as an assumption of its statement. Because the sampler is out, `spaceBetweenPoints` is not modelled.
- `Physics.Raycast`, `hit.collider` and `CompareTag` are engine physics. They are an oracle from (origin, target) to the optional tag of the first hit. The normalised direction and the distance bound are folded into that oracle.
- All `Vector2` and `Vector3` coordinate arithmetic is exact real arithmetic here. In the source it is single-precision float. This covers the lift's subtraction at Assets/Avoider.cs:119-120 and `Vector3.Distance`. So two points whose float distances round to equal (or unequal) values may be ranked differently here.
- Geometry.Lift: its round trip through `Unlift` holds only over reals. In float32, with r = 25, x = 0.1 lifts to -24.9, and adding 25 back gives 0.10000038.
- HidingSpots.LiftedScanIsFilter: holds only over reals, because it relies on Geometry.LiftAllInjective.
- Geometry.LiftAllInjective: holds only over reals. In float32, samples with x = 1e-7 and x = 2e-7 both lift to -25.0. The duplicate check at Assets/Avoider.cs:73 would then drop one of them.
- `SetDestination` and the `NavMeshAgent` lookup in `OnEnable` are engine navigation. A call is recorded as an entry in `destinations`. A missing agent component, which makes the source fault when it sets a destination, is not modelled.
- The missing-stalker fault is not modelled. The stalker's position is a parameter, so there is no null reference.
- `transform.LookAt` only turns the two objects and has no effect on selection.
- `Debug.DrawLine` and `OnDrawGizmos` are rendering only.
- `SpawnCubes` and `Start` are not modelled. They use random numbers and scene instantiation; the model sees obstacles only through the raycast oracle.
- The unused inspector fields `speed`, `range`, `cubeSize` and `turnGizmosOff` are not modelled.
- Geometry.SqDist: does not state that the distance is zero only between equal points. Ranking never relies on that fact.
