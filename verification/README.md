# Spawn-point generator of `Spawner`, in Dafny

`Spawner.CalculatePoints` (Assets/Scripts/Spawner.cs) picks the positions
where grass is placed in a square area of half side `h = areaHalfLength`
centred on the origin. It uses two families of concentric circles:

- family A is centred at `(-h - circleCenterOffset, -h)`;
- family B is centred `2h` above it;
- ring `i` of one family has radius `i * ringRadiusIncrement`. It is pushed
  out by `staggerRingOffset` when the *other* family's ring index is a
  multiple of `staggerRingModulo`.

For every ring pair `(ringIndexA, ringIndexB)` in `[0, numRings)^2`, with A
in the outer loop, the generator does three things. It tests whether the two
rings properly cross. If they do, it constructs one of the two crossing
points. It keeps that point when Unity's `Rect.Contains` puts it inside the
area.

The project models this as follows:

- `wrappers.dfy` (`Wrappers`) holds the `Option` and `Result` types.
- `csharp_int.dfy` (`CSharpInt`) is C#'s truncating `%` (`TruncRem`). It
  proves that `TruncRem` is zero exactly when the mathematical remainder is
  zero.
- `geometry.dfy` (`Geometry`) covers the parts of `Vector2`, `Rect` and
  `Mathf` that are used, over exact reals. `Mathf.Sqrt` is a parameter
  `sqrt: real -> real`. Facts that need its meaning assume
  `IsSquareRoot(sqrt)`: for `x >= 0`, `sqrt(x) >= 0` and `sqrt(x)^2 == x`.
- `circles.dfy` (`Circles`) covers `DoCirclesIntersect` and
  `CalcIntersectionPoint`. It proves when the square-root argument is
  positive and that the constructed point lies on both circles.
- `spawner.dfy` (`Spawner`) covers `Settings`, `CalcRingRadius`,
  `IsPointInBounds` and `CalculatePoints`. `CalculatePoints` is written as a
  method with the two nested loops of the source. The inner loop is
  `VisitRing` and its body is `VisitRingPair`. The method is proved equal to
  `SpawnPoints`, a functional definition: the points kept from the ring
  pairs, in visiting order. A C# `DivideByZeroException` from `% 0` is the
  `Failure(DivideByZero)` result.
- `scenarios.dfy` (`Scenarios`) holds worked configurations computed to their
  exact output:
  - one crossing;
  - four equal points, all kept;
  - points on the lower edge (kept) and the upper edge (dropped);
  - no rings;
  - a zero modulo;
  - the stagger rule on negative indices.

## Model

| member | source | states |
|---|---|---|
| `Spawner.CircleACenter` | Assets/Scripts/Spawner.cs:73 | centre of family A; no contract of its own, see `CenterDistanceIsMagnitude` |
| `Spawner.CenterDelta` | Assets/Scripts/Spawner.cs:74 | vector from centre A to centre B; no contract of its own, see `CenterDistanceIsMagnitude` |
| `Spawner.CenterDistance` | Assets/Scripts/Spawner.cs:75 | `centerDelta.magnitude`; no contract of its own, see `CenterDistanceIsMagnitude` |
| `Spawner.AreaBounds` | Assets/Scripts/Spawner.cs:76 | the area as a `Rect`; no contract of its own, see `AreaBoundsIsHalfOpenSquare` |
| `Spawner.CalcRingRadius` | Assets/Scripts/Spawner.cs:103-108 | the radius rule; no contract of its own, see `RingRadiusRule`, `StaggerIsPeriodic`, `StaggerDependsOnlyOnOtherIndex` |
| `Circles.DoCirclesIntersect` | Assets/Scripts/Spawner.cs:110-115 | the strict crossing test; no contract of its own, see `IntersectSymmetric`, `IntersectGivesPositiveHeight`, `PositiveHeightMeansIntersect` |
| `Circles.CalcIntersectionPoint` | Assets/Scripts/Spawner.cs:117-133 | the crossing construction; no contract of its own, see `IntersectionPointIsVectorConstruction`, `IntersectionPointOnCircleA`, `IntersectionPointOnCircleB` |
| `Circles.IntersectionPointIsVectorConstruction` | Assets/Scripts/Spawner.cs:120-127 | the point's coordinates are centre A plus `lengthMultiplier / d` times `centerDelta` plus `heightMultiplier / d` times `centerDelta` turned a quarter clockwise, the perpendicular being orthogonal to `centerDelta` and as long |
| `Spawner.IsPointInBounds` | Assets/Scripts/Spawner.cs:135-138 | `Rect.Contains`; no contract of its own, see `AreaBoundsIsHalfOpenSquare` |
| `CSharpInt.TruncRem` | Assets/Scripts/Spawner.cs:107 | C# `%` by a nonzero divisor: smaller than the divisor in magnitude, of the dividend's sign (or zero), and differing from the dividend by a multiple of the divisor |
| `CSharpInt.TruncRemZeroIffDivides` | Assets/Scripts/Spawner.cs:107 | the C# remainder is zero exactly when the divisor divides the dividend, for either sign of either operand |
| `CSharpInt.TruncRemZeroPeriodic` | Assets/Scripts/Spawner.cs:107 | shifting the dividend by any multiple of the divisor does not change whether C# `%` gives zero |
| `Spawner.RingRadiusRule` | Assets/Scripts/Spawner.cs:103-108 | radius is `ringIndex * ringRadiusIncrement + staggerRingOffset` when the other index is a multiple of the modulo, and `ringIndex * ringRadiusIncrement` otherwise |
| `Spawner.StaggerDependsOnlyOnOtherIndex` | Assets/Scripts/Spawner.cs:105-107 | two rings of one family, met by the same ring of the other, differ by exactly their index difference times the increment: the stagger never depends on the ring's own index |
| `Spawner.StaggerIsPeriodic` | Assets/Scripts/Spawner.cs:105-107 | the stagger repeats with period `staggerRingModulo` in the other family's index |
| `Spawner.InnermostPairStaggered` | Assets/Scripts/Spawner.cs:106-107 | for the pair (0, 0) both radii equal `staggerRingOffset` |
| `Circles.IntersectSymmetric` | Assets/Scripts/Spawner.cs:110-115 | the intersection test gives the same answer with the radii swapped |
| `Circles.TangentCirclesDoNotIntersect` | Assets/Scripts/Spawner.cs:114 | external tangency (`rA + rB == d`) and internal tangency (`d == abs(rA - rB)`) fail the test |
| `Circles.IntersectingCentersAreApart` | Assets/Scripts/Spawner.cs:114 | a passing test implies `centerDistance > 0`, so the solver never divides by zero |
| `Circles.HeightSquaredFactors` | Assets/Scripts/Spawner.cs:120-121 | `4 d^2 (rA^2 - l^2)` is the product of the four triangle-inequality slacks `(rA+rB-d)(rB+d-rA)(d+rA-rB)(d+rA+rB)` |
| `Circles.IntersectGivesPositiveHeight` | Assets/Scripts/Spawner.cs:114-121 | whenever the test passes, `d > 0` and the square-root argument `rA^2 - l^2` is strictly positive |
| `Circles.PositiveHeightMeansIntersect` | Assets/Scripts/Spawner.cs:114-121 | converse for non-negative radii and `d > 0`: a positive square-root argument means the test passes |
| `Circles.IntersectionPointOnCircleA` | Assets/Scripts/Spawner.cs:117-127 | when the test passes and `centerDistance` is the length of `centerDelta`, the constructed point is at squared distance `rA^2` from centre A |
| `Circles.IntersectionPointOnCircleB` | Assets/Scripts/Spawner.cs:117-127 | under the same conditions the point is at squared distance `rB^2` from centre A plus `centerDelta` |
| `Circles.VerticalDeltaPicksRightCrossing` | Assets/Scripts/Spawner.cs:122-127 | for `centerDelta = (0, d)` the point is centre A moved up by `lengthMultiplier` and right by `heightMultiplier > 0`: the crossing right of the line of centres |
| `Spawner.CenterDistanceIsMagnitude` | Assets/Scripts/Spawner.cs:73-75 | `centerDistance` is non-negative and squares to the squared length of `centerDelta`, so it is the square root of that; it is `2h > 0` when `h > 0`; centre B is centre A plus `centerDelta` |
| `Spawner.AreaBoundsIsHalfOpenSquare` | Assets/Scripts/Spawner.cs:135-138 | the `Rect` built from the settings contains a point exactly when `-h <= x < h` and `-h <= y < h`; for `h <= 0` it contains nothing |
| `Spawner.PairPoint` | Assets/Scripts/Spawner.cs:83-95 | a point kept for a ring pair lies in the half-open area |
| `Spawner.PairPointKeepsCrossingsInArea` | Assets/Scripts/Spawner.cs:83-95 | a ring pair yields a point exactly when its rings pass the test and the constructed crossing lies in the area |
| `Spawner.PairPointOnBothRings` | Assets/Scripts/Spawner.cs:83-89 | a yielded point lies on ring `ringIndexA` of family A and ring `ringIndexB` of family B |
| `Spawner.VisitRingPair` | Assets/Scripts/Spawner.cs:83-95 | one pass of the inner loop body appends the pair's point when it is kept, and nothing else |
| `Spawner.VisitRing` | Assets/Scripts/Spawner.cs:81-97 | the inner loop appends the kept points of pairs `(ringIndexA, 0) ... (ringIndexA, numRings - 1)` in that order |
| `Spawner.CalculatePoints` | Assets/Scripts/Spawner.cs:65-101 | the two nested loops return exactly `SpawnPoints`: the kept points of all ring pairs in visiting order, or the divide-by-zero exception |
| `Spawner.SpawnPoints` | Assets/Scripts/Spawner.cs:79-107 | the result is the exception exactly when there are rings and the modulo is zero; with no rings the list is empty, whatever the modulo |
| `Spawner.KeepPointsAppend` | Assets/Scripts/Spawner.cs:79-98 | visiting `a` then `b` keeps the points of `a` followed by those of `b` |
| `Spawner.KeepPointsInArea` | Assets/Scripts/Spawner.cs:92-94 | every point kept from any list of pairs lies in the area |
| `Spawner.RingPairsInLexOrder` | Assets/Scripts/Spawner.cs:79-81 | the loops visit exactly `numRings^2` pairs (none when `numRings <= 0`), the `t`-th being `(t / numRings, t % numRings)` |
| `Spawner.RingPairsStrictlyIncreasing` | Assets/Scripts/Spawner.cs:79-81 | visited pairs come in strictly increasing lexicographic order, A index first |
| `Spawner.KeptIndices` | Assets/Scripts/Spawner.cs:86-94 | the positions of yielding pairs are in range, strictly increasing, all yield a point, and include every yielding position |
| `Spawner.KeepPointsAtKeptIndices` | Assets/Scripts/Spawner.cs:86-94 | the `k`-th kept point is the point of the pair at the `k`-th yielding position, so there are as many points as yielding pairs |
| `Spawner.SpawnPointsInArea` | Assets/Scripts/Spawner.cs:92-94 | every returned point satisfies `-h <= x < h` and `-h <= y < h` |
| `Spawner.SpawnPointsAtMostOnePerPair` | Assets/Scripts/Spawner.cs:79-98 | the returned list has at most `numRings^2` points, and none when `numRings <= 0` |
| `Spawner.EmptyAreaSpawnsNothing` | Assets/Scripts/Spawner.cs:76 | with `areaHalfLength <= 0` the returned list is empty |
| `Spawner.SpawnPointsAreKeptPairPoints` | Assets/Scripts/Spawner.cs:79-98 | the returned points are the points of the yielding pairs, one per pair and in visiting order, so equal points from different pairs are all kept |
| `Spawner.SpawnPointsInLexOrder` | Assets/Scripts/Spawner.cs:79-98 | the pairs behind successive returned points are strictly increasing in lexicographic `(ringIndexA, ringIndexB)` order |
| `Spawner.SpawnPointPair` | Assets/Scripts/Spawner.cs:79-98 | every returned point is the point of some pair in `[0, numRings)^2` |
| `Spawner.SpawnPointsFromCrossingPairs` | Assets/Scripts/Spawner.cs:83-94 | every returned point is the constructed crossing of some pair in `[0, numRings)^2` whose rings pass the intersection test |
| `Spawner.SpawnPointsOnBothRings` | Assets/Scripts/Spawner.cs:83-94 | every returned point lies on ring `i` of family A and ring `j` of family B for some `i, j` in `[0, numRings)` |
| `Scenarios.SingleRingOutput` | Assets/Scripts/Spawner.cs:65-101 | half length 10, one ring, offset 15: the output is exactly `[(sqrt(125) - 10, 0)]` |
| `Scenarios.RepeatedCrossingOutput` | Assets/Scripts/Spawner.cs:92-94 | half length 4, two rings of radius 5: all four pairs give `(-1, 0)` and the output holds four copies |
| `Scenarios.EdgePair10` | Assets/Scripts/Spawner.cs:135-138 | a crossing exactly on the upper edge `y = h` is dropped |
| `Scenarios.EdgeCrossingsOutput` | Assets/Scripts/Spawner.cs:76-94 | half length 4, radii `4i + 6`: the output is `[(sqrt(20) - 4, 0), (2, -4)]`; the point on the lower edge is kept, the one on the upper edge and the one right of the area are not |
| `Scenarios.NoRingsNoPoints` | Assets/Scripts/Spawner.cs:79 | with no rings the output is empty, even with a zero modulo |
| `Scenarios.ZeroModuloThrows` | Assets/Scripts/Spawner.cs:107 | with rings and a zero modulo the call fails with the divide-by-zero error |
| `Scenarios.EmptyAreaZeroModuloThrows` | Assets/Scripts/Spawner.cs:107 | half length 0, one ring, modulo 0: the call still fails with the divide-by-zero error, so an empty area gives an empty list only when the call does not throw |
| `Scenarios.StaggerEveryFifthRing` | Assets/Scripts/Spawner.cs:103-108 | modulo 5: ring 1 gets the offset against other indices 0, 5 and -5 but not 1, 2 or -3 |

## Left out

- `Awake` (Spawner.cs:50-63) is left out. It instantiates a prefab per point
  with a random rotation, which is engine side effects and randomness.
- `GUI_Settings`, the `[Tooltip]` and `[Serializable]` attributes and the
  prefab field (Spawner.cs:21-47) are left out. They are editor metadata.
- IEEE-754 single-precision arithmetic is not modelled. Every `float` is an
  exact `real`, and the int-to-float conversions of `areaHalfLength` and
  `ringIndex` are exact. Properties such as "the point lies on both circles"
  hold exactly here, and only up to rounding in the program.
- `Mathf.Sqrt` is not defined. It is the parameter `sqrt`, and every lemma
  that relies on it assumes `IsSquareRoot(sqrt)`.
- `Vector2.magnitude` is replaced by `|2h|`, its exact value for the
  vertical vector `(0, 2h)`. `Spawner.CenterDistanceIsMagnitude` proves that
  `|2h|` is the square root of the squared length.
- `Rect.Contains` is not modelled from Unity's source. It is taken to be
  half-open: lower edges in, upper edges out, nothing in a rectangle of
  negative size.
- 32-bit overflow of `areaHalfLength * 2` (Spawner.cs:74, 76) is not
  modelled. Integers are unbounded.
- The second crossing point (commented out at Spawner.cs:128-130) is left
  out. So is the claim that it always lies outside the area: nothing in the
  code establishes it in general.
- Circles.CalcIntersectionPoint requires `centerDistance != 0`. In C# a
  zero distance would give infinities or NaN rather than fail, and that case
  is not modelled. `CalculatePoints` never reaches it, because a passing
  intersection test implies `centerDistance > 0`
  (`Circles.IntersectingCentersAreApart`).
- The square-root argument is passed to `Mathf.Sqrt` unchanged; nothing
  clamps it (`Circles.IntersectGivesPositiveHeight` shows it is positive
  whenever it is computed).
- Nothing is validated up front. `% 0` throws only when a radius is
  computed, which needs at least one ring. The list is empty for
  `numRings <= 0`, whatever the modulo, and, whenever the call does not
  throw, for `areaHalfLength <= 0`.
