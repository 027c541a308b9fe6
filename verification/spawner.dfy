/**
 * The spawn-point generator of `Spawner` (Spawner.cs): two families of
 * concentric circles, one centred below-left of a square area and one
 * directly above it, are crossed ring by ring; each crossing inside the area
 * becomes a spawn point.
 *
 * `sqrt` stands for `Mathf.Sqrt` throughout; facts that depend on what it
 * computes assume `IsSquareRoot(sqrt)`.
 */
module Spawner {
  import opened Wrappers
  import opened Geometry
  import opened Circles
  import CSharpInt

  /** The inspector-edited `Spawner.Settings`, as an immutable value. */
  datatype Settings = Settings(
    areaHalfLength: int,
    numRings: int,
    ringRadiusIncrement: real,
    staggerRingModulo: int,
    staggerRingOffset: real,
    circleCenterOffset: real)

  /** What `CalculatePoints` can throw: C# `%` by zero raises `DivideByZeroException`. */
  datatype SpawnError = DivideByZero

  // ---------------------------------------------------------------------------
  // Geometry derived from the settings (CalculatePoints, before the loops)

  /** Centre of every circle of family A: left of the area by the centre offset, level with its bottom edge. */
  function CircleACenter(s: Settings): Vec2
  {
    Vec2(-(s.areaHalfLength as real) - s.circleCenterOffset, -(s.areaHalfLength as real))
  }

  /** From centre A to centre B: straight up by the side length of the area. */
  function CenterDelta(s: Settings): Vec2
  {
    Vec2(0.0, (s.areaHalfLength * 2) as real)
  }

  function CircleBCenter(s: Settings): Vec2
  {
    Plus(CircleACenter(s), CenterDelta(s))
  }

  /** `centerDelta.magnitude`, written out for a vertical vector (see `CenterDistanceIsMagnitude`). */
  function CenterDistance(s: Settings): real
  {
    RealAbs((s.areaHalfLength * 2) as real)
  }

  /** The area as a Unity `Rect`: corner `(-h, -h)`, width and height `2h`. */
  function AreaBounds(s: Settings): Rect
  {
    var h := s.areaHalfLength as real;
    Rect(-h, -h, (s.areaHalfLength * 2) as real, (s.areaHalfLength * 2) as real)
  }

  /** The promised region of every spawn point: the half-open square `[-h, h) x [-h, h)`. */
  predicate InArea(s: Settings, p: Vec2)
  {
    var h := s.areaHalfLength as real;
    -h <= p.x < h && -h <= p.y < h
  }

  // ---------------------------------------------------------------------------
  // The helpers called from the loop body

  /**
   * `CalcRingRadius`: ring `ringIndex` of one family has radius
   * `ringIndex * ringRadiusIncrement`, pushed out by `staggerRingOffset`
   * whenever the OTHER family's ring index is a multiple of the modulo.
   */
  function CalcRingRadius(s: Settings, ringIndex: int, otherCircleRingIndex: int): real
    requires s.staggerRingModulo != 0
  {
    ringIndex as real * s.ringRadiusIncrement
      + (if CSharpInt.TruncRem(otherCircleRingIndex, s.staggerRingModulo) == 0 then s.staggerRingOffset else 0.0)
  }

  /** `IsPointInBounds`: Unity's half-open `Rect.Contains`. */
  predicate IsPointInBounds(areaBounds: Rect, point: Vec2)
  {
    Contains(areaBounds, point)
  }

  /**
   * One pass of the inner loop body for the ring pair `(ringIndexA, ringIndexB)`:
   * the crossing point of the two rings if they cross and it lies in the area.
   */
  function PairPoint(s: Settings, sqrt: real -> real, ringIndexA: int, ringIndexB: int): (r: Option<Vec2>)
    requires s.staggerRingModulo != 0
    ensures r.Some? ==> InArea(s, r.value)
  {
    var radiusA := CalcRingRadius(s, ringIndexA, ringIndexB);
    var radiusB := CalcRingRadius(s, ringIndexB, ringIndexA);
    if DoCirclesIntersect(CenterDistance(s), radiusA, radiusB) then
      var pointA := CalcIntersectionPoint(CircleACenter(s), CenterDelta(s), CenterDistance(s), radiusA, radiusB, sqrt);
      if IsPointInBounds(AreaBounds(s), pointA) then Some(pointA) else None
    else
      None
  }

  // ---------------------------------------------------------------------------
  // The order in which the two loops visit ring pairs

  /** `(ringIndexA, 0), ..., (ringIndexA, count - 1)`: the inner loop after `count` passes. */
  function RowPairs(ringIndexA: int, count: nat): seq<(int, int)>
  {
    if count == 0 then [] else RowPairs(ringIndexA, count - 1) + [(ringIndexA, count - 1)]
  }

  /** All pairs the two loops visit in their first `rows` outer passes, `numRings` inner passes each. */
  function GridPairs(numRings: nat, rows: nat): seq<(int, int)>
  {
    if rows == 0 then [] else GridPairs(numRings, rows - 1) + RowPairs(rows - 1, numRings)
  }

  /** Lexicographic order on ring pairs: A index first, then B index. */
  predicate LexBefore(p: (int, int), q: (int, int))
  {
    p.0 < q.0 || (p.0 == q.0 && p.1 < q.1)
  }

  /** Every ring pair the two loops visit, in visiting order. */
  function RingPairs(numRings: int): seq<(int, int)>
  {
    if numRings <= 0 then [] else GridPairs(numRings, numRings)
  }

  // ---------------------------------------------------------------------------
  // The generator

  /** The points a pass of the inner loop body adds for one ring pair: none or one. */
  function PairPoints(s: Settings, sqrt: real -> real, pair: (int, int)): (ps: seq<Vec2>)
    requires s.staggerRingModulo != 0
    ensures |ps| <= 1
  {
    match PairPoint(s, sqrt, pair.0, pair.1)
    case Some(p) => [p]
    case None => []
  }

  /** The points kept from a run over `pairs`, in the order the pairs come. */
  function KeepPoints(s: Settings, sqrt: real -> real, pairs: seq<(int, int)>): (points: seq<Vec2>)
    requires s.staggerRingModulo != 0
    ensures |points| <= |pairs|
  {
    if pairs == [] then []
    else
      KeepPoints(s, sqrt, pairs[..|pairs| - 1]) + PairPoints(s, sqrt, pairs[|pairs| - 1])
  }

  /**
   * The positions in `pairs` of the pairs that yield a point: strictly
   * increasing, and holding every such position.
   */
  function KeptIndices(s: Settings, sqrt: real -> real, pairs: seq<(int, int)>): (idx: seq<nat>)
    requires s.staggerRingModulo != 0
    ensures forall k :: 0 <= k < |idx| ==> idx[k] < |pairs|
    ensures forall k :: 0 <= k < |idx| ==> PairPoint(s, sqrt, pairs[idx[k]].0, pairs[idx[k]].1).Some?
    ensures forall k1, k2 :: 0 <= k1 < k2 < |idx| ==> idx[k1] < idx[k2]
    ensures forall t :: 0 <= t < |pairs| && PairPoint(s, sqrt, pairs[t].0, pairs[t].1).Some? ==> t in idx
  {
    if pairs == [] then []
    else
      var n := |pairs| - 1;
      var init := pairs[..n];
      KeptIndices(s, sqrt, init)
        + if PairPoint(s, sqrt, pairs[n].0, pairs[n].1).Some? then [n] else []
  }

  /**
   * `CalculatePoints` as a value: empty when there are no rings, the
   * divide-by-zero exception when there are rings and the modulo is zero,
   * otherwise the kept crossing points in ring-pair order.
   */
  function SpawnPoints(s: Settings, sqrt: real -> real): (r: Result<seq<Vec2>, SpawnError>)
    ensures r.Failure? <==> s.numRings > 0 && s.staggerRingModulo == 0
    ensures s.numRings <= 0 ==> r == Success([])
  {
    if s.numRings <= 0 then Success([])
    else if s.staggerRingModulo == 0 then Failure(DivideByZero)
    else
      Success(KeepPoints(s, sqrt, RingPairs(s.numRings)))
  }

  /**
   * The body of the inner loop of `CalculatePoints` for the ring pair
   * `(ringIndexA, ringIndexB)`, given the geometry computed before the loops.
   */
  method VisitRingPair(s: Settings, sqrt: real -> real, circleACenter: Vec2, centerDelta: Vec2,
                       centerDistance: real, areaBounds: Rect, ringIndexA: int, ringIndexB: int,
                       spawnPoints: seq<Vec2>)
    returns (spawnPoints': seq<Vec2>)
    requires s.staggerRingModulo != 0
    requires circleACenter == CircleACenter(s) && centerDelta == CenterDelta(s)
    requires centerDistance == CenterDistance(s) && areaBounds == AreaBounds(s)
    ensures spawnPoints' == spawnPoints + PairPoints(s, sqrt, (ringIndexA, ringIndexB))
  {
    spawnPoints' := spawnPoints;
    var radiusA := CalcRingRadius(s, ringIndexA, ringIndexB);
    var radiusB := CalcRingRadius(s, ringIndexB, ringIndexA);
    if DoCirclesIntersect(centerDistance, radiusA, radiusB) {
      IntersectingCentersAreApart(centerDistance, radiusA, radiusB);
      var pointA := CalcIntersectionPoint(circleACenter, centerDelta, centerDistance, radiusA, radiusB, sqrt);
      if IsPointInBounds(areaBounds, pointA) {
        spawnPoints' := spawnPoints' + [pointA];
      }
    }
  }

  /**
   * The inner loop of `CalculatePoints` for one value of `ringIndexA`, given
   * the geometry computed before the loops: appends the kept points of the
   * pairs `(ringIndexA, 0), ..., (ringIndexA, numRings - 1)`.
   */
  method VisitRing(s: Settings, sqrt: real -> real, circleACenter: Vec2, centerDelta: Vec2,
                   centerDistance: real, areaBounds: Rect, ringIndexA: int, spawnPoints: seq<Vec2>)
    returns (spawnPoints': seq<Vec2>)
    requires s.staggerRingModulo != 0 && s.numRings >= 0
    requires circleACenter == CircleACenter(s) && centerDelta == CenterDelta(s)
    requires centerDistance == CenterDistance(s) && areaBounds == AreaBounds(s)
    ensures spawnPoints' == spawnPoints + KeepPoints(s, sqrt, RowPairs(ringIndexA, s.numRings))
  {
    spawnPoints' := spawnPoints;
    var ringIndexB := 0;
    while ringIndexB < s.numRings
      invariant 0 <= ringIndexB <= s.numRings
      invariant spawnPoints' == spawnPoints + KeepPoints(s, sqrt, RowPairs(ringIndexA, ringIndexB))
    {
      KeepPointsRowStep(s, sqrt, ringIndexA, ringIndexB);
      spawnPoints' := VisitRingPair(s, sqrt, circleACenter, centerDelta, centerDistance, areaBounds,
                                    ringIndexA, ringIndexB, spawnPoints');
      ringIndexB := ringIndexB + 1;
    }
  }

  /**
   * `CalculatePoints`: the outer loop over ring index A; the inner loop over
   * ring index B is `VisitRing`. With `staggerRingModulo == 0` the first
   * pass of the inner loop throws, before any point is added.
   */
  method CalculatePoints(s: Settings, sqrt: real -> real) returns (r: Result<seq<Vec2>, SpawnError>)
    ensures r == SpawnPoints(s, sqrt)
  {
    var spawnPoints: seq<Vec2> := [];
    var circleACenter := CircleACenter(s);
    var centerDelta := CenterDelta(s);
    var centerDistance := CenterDistance(s);
    var areaBounds := AreaBounds(s);

    var ringIndexA := 0;
    while ringIndexA < s.numRings
      invariant ringIndexA == 0 || (0 < ringIndexA <= s.numRings && s.staggerRingModulo != 0)
      invariant ringIndexA == 0 ==> spawnPoints == []
      invariant ringIndexA > 0 ==> spawnPoints == KeepPoints(s, sqrt, GridPairs(s.numRings, ringIndexA))
    {
      if s.staggerRingModulo == 0 {
        // `otherCircleRingIndex % settings.staggerRingModulo` throws.
        return Failure(DivideByZero);
      }
      KeepPointsGridStep(s, sqrt, s.numRings, ringIndexA);
      spawnPoints := VisitRing(s, sqrt, circleACenter, centerDelta, centerDistance, areaBounds,
                               ringIndexA, spawnPoints);
      ringIndexA := ringIndexA + 1;
    }
    return Success(spawnPoints);
  }

  // ---------------------------------------------------------------------------
  // Lemmas

  /** Visiting one more pair appends that pair's point, if any, and nothing else. */
  lemma KeepPointsSnoc(s: Settings, sqrt: real -> real, pairs: seq<(int, int)>, pair: (int, int))
    requires s.staggerRingModulo != 0
    ensures KeepPoints(s, sqrt, pairs + [pair]) == KeepPoints(s, sqrt, pairs) + PairPoints(s, sqrt, pair)
  {
    assert (pairs + [pair])[..|pairs|] == pairs;
  }

  /** One more pass of the inner loop appends the point of pair `(ringIndexA, ringIndexB)`, if any. */
  lemma KeepPointsRowStep(s: Settings, sqrt: real -> real, ringIndexA: int, ringIndexB: nat)
    requires s.staggerRingModulo != 0
    ensures KeepPoints(s, sqrt, RowPairs(ringIndexA, ringIndexB + 1))
         == KeepPoints(s, sqrt, RowPairs(ringIndexA, ringIndexB)) + PairPoints(s, sqrt, (ringIndexA, ringIndexB))
  {
    KeepPointsSnoc(s, sqrt, RowPairs(ringIndexA, ringIndexB), (ringIndexA, ringIndexB));
  }

  /** One more pass of the outer loop appends the kept points of row `rows`. */
  lemma KeepPointsGridStep(s: Settings, sqrt: real -> real, numRings: nat, rows: nat)
    requires s.staggerRingModulo != 0
    ensures KeepPoints(s, sqrt, GridPairs(numRings, rows + 1))
         == KeepPoints(s, sqrt, GridPairs(numRings, rows)) + KeepPoints(s, sqrt, RowPairs(rows, numRings))
  {
    KeepPointsAppend(s, sqrt, GridPairs(numRings, rows), RowPairs(rows, numRings));
  }

  /** Running over `a` then `b` keeps the points of `a`, then those of `b`. */
  lemma {:induction false} KeepPointsAppend(s: Settings, sqrt: real -> real, a: seq<(int, int)>, b: seq<(int, int)>)
    requires s.staggerRingModulo != 0
    ensures KeepPoints(s, sqrt, a + b) == KeepPoints(s, sqrt, a) + KeepPoints(s, sqrt, b)
    decreases |b|
  {
    if b == [] {
      assert a + b == a;
    } else {
      var init := b[..|b| - 1];
      var last := b[|b| - 1];
      assert a + b == (a + init) + [last];
      assert b == init + [last];
      KeepPointsSnoc(s, sqrt, a + init, last);
      KeepPointsSnoc(s, sqrt, init, last);
      KeepPointsAppend(s, sqrt, a, init);
    }
  }

  /** Every kept point lies in the area, whatever pairs are visited. */
  lemma {:induction false} KeepPointsInArea(s: Settings, sqrt: real -> real, pairs: seq<(int, int)>)
    requires s.staggerRingModulo != 0
    ensures forall k :: 0 <= k < |KeepPoints(s, sqrt, pairs)| ==> InArea(s, KeepPoints(s, sqrt, pairs)[k])
  {
    if pairs != [] {
      var init := pairs[..|pairs| - 1];
      KeepPointsInArea(s, sqrt, init);
      var ps := KeepPoints(s, sqrt, pairs);
      forall k | 0 <= k < |ps|
        ensures InArea(s, ps[k])
      {
        if k >= |KeepPoints(s, sqrt, init)| {
          assert ps[k] in PairPoints(s, sqrt, pairs[|pairs| - 1]);
        }
      }
    }
  }

  /** `t = k n + r` with `0 <= r < n`: then `t / n == k` and `t % n == r`. */
  lemma DivModUnique(t: int, n: int, k: int)
    requires n > 0
    requires k * n <= t < k * n + n
    ensures t / n == k
    ensures t % n == t - k * n
  {
    var q, r := t / n, t % n;
    assert t == q * n + r && 0 <= r < n;
    assert (q - k) * n == (t - k * n) - r;
    OnlyZeroMultipleIsSmall(q - k, n);
  }

  /** The only multiple of `n` strictly between `-n` and `n` is zero. */
  lemma OnlyZeroMultipleIsSmall(x: int, n: int)
    requires n > 0
    requires -n < x * n < n
    ensures x == 0
  {
  }

  lemma {:induction false} RowPairsClosedForm(i: int, count: nat)
    ensures |RowPairs(i, count)| == count
    ensures forall t :: 0 <= t < count ==> RowPairs(i, count)[t] == (i, t)
  {
    if count > 0 {
      RowPairsClosedForm(i, count - 1);
    }
  }

  lemma {:induction false} GridPairsClosedForm(numRings: nat, rows: nat)
    requires numRings > 0
    ensures |GridPairs(numRings, rows)| == rows * numRings
    ensures forall t :: 0 <= t < rows * numRings ==> GridPairs(numRings, rows)[t] == (t / numRings, t % numRings)
  {
    if rows > 0 {
      GridPairsClosedForm(numRings, rows - 1);
      RowPairsClosedForm(rows - 1, numRings);
      var prev := GridPairs(numRings, rows - 1);
      var row := RowPairs(rows - 1, numRings);
      assert |prev| == (rows - 1) * numRings;
      assert rows * numRings == (rows - 1) * numRings + numRings;
      forall t | (rows - 1) * numRings <= t < rows * numRings
        ensures GridPairs(numRings, rows)[t] == (t / numRings, t % numRings)
      {
        DivModUnique(t, numRings, rows - 1);
        assert GridPairs(numRings, rows)[t] == row[t - |prev|];
      }
    }
  }

  /**
   * The loops visit exactly the `numRings^2` pairs of `[0, numRings)^2`, in
   * lexicographic order: the `t`-th visited pair is `(t / numRings, t % numRings)`.
   */
  lemma RingPairsInLexOrder(numRings: int)
    ensures |RingPairs(numRings)| == if numRings <= 0 then 0 else numRings * numRings
    ensures forall t :: 0 <= t < |RingPairs(numRings)| ==> RingPairs(numRings)[t] == (t / numRings, t % numRings)
  {
    if numRings > 0 {
      GridPairsClosedForm(numRings, numRings);
    }
  }

  // ---------------------------------------------------------------------------
  // The ring radius rule

  /**
   * A ring's radius is `ringIndex * ringRadiusIncrement`, plus
   * `staggerRingOffset` exactly when the other family's ring index is a
   * multiple of `staggerRingModulo` (of either sign: C# `%` is zero on the
   * same inputs as the mathematical remainder).
   */
  lemma RingRadiusRule(s: Settings, ringIndex: int, otherCircleRingIndex: int)
    requires s.staggerRingModulo != 0
    ensures otherCircleRingIndex % s.staggerRingModulo == 0 ==>
              CalcRingRadius(s, ringIndex, otherCircleRingIndex)
                == ringIndex as real * s.ringRadiusIncrement + s.staggerRingOffset
    ensures otherCircleRingIndex % s.staggerRingModulo != 0 ==>
              CalcRingRadius(s, ringIndex, otherCircleRingIndex) == ringIndex as real * s.ringRadiusIncrement
  {
    CSharpInt.TruncRemZeroIffDivides(otherCircleRingIndex, s.staggerRingModulo);
  }

  /** The stagger repeats with period `staggerRingModulo` in the other family's ring index. */
  lemma StaggerIsPeriodic(s: Settings, ringIndex: int, otherCircleRingIndex: int, k: int)
    requires s.staggerRingModulo != 0
    ensures CalcRingRadius(s, ringIndex, otherCircleRingIndex + k * s.staggerRingModulo)
         == CalcRingRadius(s, ringIndex, otherCircleRingIndex)
  {
    CSharpInt.TruncRemZeroPeriodic(otherCircleRingIndex, k, s.staggerRingModulo);
  }

  /**
   * The stagger depends on the other ring index only: two rings of one family
   * met by the same ring of the other differ by exactly their index
   * difference times `ringRadiusIncrement`.
   */
  lemma StaggerDependsOnlyOnOtherIndex(s: Settings, ringIndex: int, ringIndex': int, otherCircleRingIndex: int)
    requires s.staggerRingModulo != 0
    ensures CalcRingRadius(s, ringIndex, otherCircleRingIndex) - CalcRingRadius(s, ringIndex', otherCircleRingIndex)
         == (ringIndex - ringIndex') as real * s.ringRadiusIncrement
  {
  }

  /** The innermost pair `(0, 0)` gets the offset on both radii: each is `staggerRingOffset`. */
  lemma InnermostPairStaggered(s: Settings)
    requires s.staggerRingModulo != 0
    ensures CalcRingRadius(s, 0, 0) == s.staggerRingOffset
  {
    RingRadiusRule(s, 0, 0);
  }

  // ---------------------------------------------------------------------------
  // The derived geometry

  /**
   * `centerDistance` is the length of `centerDelta`: non-negative and squaring
   * to its squared length, so it is what `Mathf.Sqrt` gives for that squared
   * length; for a positive half length it is the side `2h > 0` of the area.
   */
  lemma CenterDistanceIsMagnitude(s: Settings, sqrt: real -> real)
    ensures CenterDistance(s) >= 0.0
    ensures CenterDistance(s) * CenterDistance(s) == NormSq(CenterDelta(s))
    ensures IsSquareRoot(sqrt) ==> sqrt(NormSq(CenterDelta(s))) == CenterDistance(s)
    ensures s.areaHalfLength > 0 ==> CenterDistance(s) == 2.0 * s.areaHalfLength as real > 0.0
    ensures Plus(CircleACenter(s), CenterDelta(s)) == CircleBCenter(s)
  {
    var d := CenterDistance(s);
    var y := (s.areaHalfLength * 2) as real;
    assert NormSq(CenterDelta(s)) == y * y;
    assert d * d == y * y;
    if IsSquareRoot(sqrt) {
      SquareRootOfSquare(sqrt, d);
    }
  }

  /** `IsPointInBounds(areaBounds, p)` holds exactly for the points of the half-open square. */
  lemma AreaBoundsIsHalfOpenSquare(s: Settings, p: Vec2)
    ensures IsPointInBounds(AreaBounds(s), p) <==> InArea(s, p)
    ensures s.areaHalfLength <= 0 ==> !InArea(s, p)
  {
  }

  // ---------------------------------------------------------------------------
  // One ring pair

  /**
   * A ring pair yields a point exactly when its two rings cross and the
   * constructed crossing lies in the area; the point is then that crossing.
   */
  lemma PairPointKeepsCrossingsInArea(s: Settings, sqrt: real -> real, ringIndexA: int, ringIndexB: int)
    requires s.staggerRingModulo != 0
    ensures var radiusA, radiusB := CalcRingRadius(s, ringIndexA, ringIndexB), CalcRingRadius(s, ringIndexB, ringIndexA);
            PairPoint(s, sqrt, ringIndexA, ringIndexB).Some? <==>
              DoCirclesIntersect(CenterDistance(s), radiusA, radiusB)
              && InArea(s, CalcIntersectionPoint(CircleACenter(s), CenterDelta(s), CenterDistance(s), radiusA, radiusB, sqrt))
  {
    var radiusA, radiusB := CalcRingRadius(s, ringIndexA, ringIndexB), CalcRingRadius(s, ringIndexB, ringIndexA);
    if DoCirclesIntersect(CenterDistance(s), radiusA, radiusB) {
      AreaBoundsIsHalfOpenSquare(s, CalcIntersectionPoint(CircleACenter(s), CenterDelta(s), CenterDistance(s), radiusA, radiusB, sqrt));
    }
  }

  /** A kept point is the crossing of its two rings, which do cross. */
  lemma PairPointIsCrossing(s: Settings, sqrt: real -> real, ringIndexA: int, ringIndexB: int)
    requires s.staggerRingModulo != 0
    requires PairPoint(s, sqrt, ringIndexA, ringIndexB).Some?
    ensures var radiusA, radiusB := CalcRingRadius(s, ringIndexA, ringIndexB), CalcRingRadius(s, ringIndexB, ringIndexA);
            && DoCirclesIntersect(CenterDistance(s), radiusA, radiusB)
            && PairPoint(s, sqrt, ringIndexA, ringIndexB).value
               == CalcIntersectionPoint(CircleACenter(s), CenterDelta(s), CenterDistance(s), radiusA, radiusB, sqrt)
  {
  }

  /**
   * A kept point lies on ring `ringIndexA` of family A and on ring
   * `ringIndexB` of family B.
   */
  lemma PairPointOnBothRings(s: Settings, sqrt: real -> real, ringIndexA: int, ringIndexB: int)
    requires s.staggerRingModulo != 0 && IsSquareRoot(sqrt)
    requires PairPoint(s, sqrt, ringIndexA, ringIndexB).Some?
    ensures OnCircle(PairPoint(s, sqrt, ringIndexA, ringIndexB).value, CircleACenter(s), CalcRingRadius(s, ringIndexA, ringIndexB))
    ensures OnCircle(PairPoint(s, sqrt, ringIndexA, ringIndexB).value, CircleBCenter(s), CalcRingRadius(s, ringIndexB, ringIndexA))
  {
    PairPointIsCrossing(s, sqrt, ringIndexA, ringIndexB);
    CenterDistanceIsMagnitude(s, sqrt);
    CrossingOnBothCircles(CircleACenter(s), CenterDelta(s), CenterDistance(s),
                          CalcRingRadius(s, ringIndexA, ringIndexB), CalcRingRadius(s, ringIndexB, ringIndexA), sqrt);
  }

  /** Both circle facts for one crossing, stated over plain values. */
  lemma CrossingOnBothCircles(a: Vec2, delta: Vec2, d: real, radiusA: real, radiusB: real, sqrt: real -> real)
    requires IsSquareRoot(sqrt)
    requires DoCirclesIntersect(d, radiusA, radiusB)
    requires NormSq(delta) == d * d
    ensures d != 0.0
    ensures OnCircle(CalcIntersectionPoint(a, delta, d, radiusA, radiusB, sqrt), a, radiusA)
    ensures OnCircle(CalcIntersectionPoint(a, delta, d, radiusA, radiusB, sqrt), Plus(a, delta), radiusB)
  {
    IntersectionPointOnCircleA(a, delta, d, radiusA, radiusB, sqrt);
    IntersectionPointOnCircleB(a, delta, d, radiusA, radiusB, sqrt);
  }

  // ---------------------------------------------------------------------------
  // The whole run

  /** The `k`-th kept point is the point of the pair at the `k`-th kept position. */
  lemma {:induction false} KeepPointsAtKeptIndices(s: Settings, sqrt: real -> real, pairs: seq<(int, int)>)
    requires s.staggerRingModulo != 0
    ensures |KeepPoints(s, sqrt, pairs)| == |KeptIndices(s, sqrt, pairs)|
    ensures forall k :: 0 <= k < |KeptIndices(s, sqrt, pairs)| ==>
              var pair := pairs[KeptIndices(s, sqrt, pairs)[k]];
              PairPoint(s, sqrt, pair.0, pair.1) == Some(KeepPoints(s, sqrt, pairs)[k])
  {
    if pairs != [] {
      var last := |pairs| - 1;
      var init := pairs[..last];
      KeepPointsAtKeptIndices(s, sqrt, init);
      var idx, points := KeptIndices(s, sqrt, pairs), KeepPoints(s, sqrt, pairs);
      var idx0, points0 := KeptIndices(s, sqrt, init), KeepPoints(s, sqrt, init);
      assert idx == idx0 + if PairPoint(s, sqrt, pairs[last].0, pairs[last].1).Some? then [last] else [];
      assert points == points0 + PairPoints(s, sqrt, pairs[last]);
      forall k | 0 <= k < |idx|
        ensures PairPoint(s, sqrt, pairs[idx[k]].0, pairs[idx[k]].1) == Some(points[k])
      {
        if k < |idx0| {
          assert idx[k] == idx0[k] && pairs[idx0[k]] == init[idx0[k]];
          assert points[k] == points0[k];
        } else {
          assert idx[k] == last;
        }
      }
    }
  }

  /** Every spawn point lies in the half-open square `[-h, h) x [-h, h)`. */
  lemma SpawnPointsInArea(s: Settings, sqrt: real -> real)
    ensures SpawnPoints(s, sqrt).Success? ==>
              forall k :: 0 <= k < |SpawnPoints(s, sqrt).value| ==> InArea(s, SpawnPoints(s, sqrt).value[k])
  {
    if s.numRings > 0 && s.staggerRingModulo != 0 {
      KeepPointsInArea(s, sqrt, RingPairs(s.numRings));
    }
  }

  /** At most one point per ring pair: no more than `numRings^2` points. */
  lemma SpawnPointsAtMostOnePerPair(s: Settings, sqrt: real -> real)
    ensures SpawnPoints(s, sqrt).Success? ==>
              |SpawnPoints(s, sqrt).value| <= if s.numRings <= 0 then 0 else s.numRings * s.numRings
  {
    RingPairsInLexOrder(s.numRings);
  }

  /** With a half length of zero or less the area is empty, and so is the output. */
  lemma EmptyAreaSpawnsNothing(s: Settings, sqrt: real -> real)
    requires s.areaHalfLength <= 0
    ensures SpawnPoints(s, sqrt).Success? ==> SpawnPoints(s, sqrt).value == []
  {
    SpawnPointsInArea(s, sqrt);
    if SpawnPoints(s, sqrt).Success? && SpawnPoints(s, sqrt).value != [] {
      AreaBoundsIsHalfOpenSquare(s, SpawnPoints(s, sqrt).value[0]);
    }
  }

  /**
   * The spawn points, in order, are the points of the ring pairs that yield
   * one, in the order the loops visit the pairs: the `k`-th point comes from
   * the `k`-th such pair. Pairs are visited in lexicographic order
   * (`RingPairsInLexOrder`), the kept positions increase and include every
   * pair that yields a point (`KeptIndices`), so equal points from different
   * pairs all appear.
   */
  lemma SpawnPointsAreKeptPairPoints(s: Settings, sqrt: real -> real)
    requires s.numRings > 0 && s.staggerRingModulo != 0
    ensures var idx := KeptIndices(s, sqrt, RingPairs(s.numRings));
            && |SpawnPoints(s, sqrt).value| == |idx|
            && forall k :: 0 <= k < |idx| ==>
                 PairPoint(s, sqrt, idx[k] / s.numRings, idx[k] % s.numRings) == Some(SpawnPoints(s, sqrt).value[k])
  {
    var pairs := RingPairs(s.numRings);
    KeepPointsAtKeptIndices(s, sqrt, pairs);
    RingPairsInLexOrder(s.numRings);
  }

  /** The loops visit ring pairs in strictly increasing lexicographic order. */
  lemma RingPairsStrictlyIncreasing(numRings: int)
    ensures forall t1, t2 :: 0 <= t1 < t2 < |RingPairs(numRings)| ==> LexBefore(RingPairs(numRings)[t1], RingPairs(numRings)[t2])
  {
    RingPairsInLexOrder(numRings);
    forall t1, t2 | 0 <= t1 < t2 < |RingPairs(numRings)|
      ensures LexBefore(RingPairs(numRings)[t1], RingPairs(numRings)[t2])
    {
      DivModLexMonotone(t1, t2, numRings);
    }
  }

  /** `t |-> (t / n, t % n)` is strictly increasing into the lexicographic order. */
  lemma DivModLexMonotone(t1: int, t2: int, n: int)
    requires n > 0 && t1 < t2
    ensures t1 / n < t2 / n || (t1 / n == t2 / n && t1 % n < t2 % n)
  {
    var q1, q2 := t1 / n, t2 / n;
    if q1 != q2 {
      assert t2 - t1 == (q2 - q1) * n + (t2 % n - t1 % n);
      assert (q2 - q1) * n > -n;
      OnlyPositiveMultipleExceedsMinus(q2 - q1, n);
    }
  }

  lemma OnlyPositiveMultipleExceedsMinus(x: int, n: int)
    requires n > 0 && x * n > -n
    ensures x >= 0
  {
  }

  /**
   * The spawn points come in increasing lexicographic order of the ring
   * pairs that yield them (equal points of different pairs included).
   */
  lemma SpawnPointsInLexOrder(s: Settings, sqrt: real -> real)
    requires s.numRings > 0 && s.staggerRingModulo != 0
    ensures var idx := KeptIndices(s, sqrt, RingPairs(s.numRings));
            forall k1, k2 :: 0 <= k1 < k2 < |idx| ==>
              LexBefore((idx[k1] / s.numRings, idx[k1] % s.numRings), (idx[k2] / s.numRings, idx[k2] % s.numRings))
  {
    var idx := KeptIndices(s, sqrt, RingPairs(s.numRings));
    forall k1, k2 | 0 <= k1 < k2 < |idx|
      ensures LexBefore((idx[k1] / s.numRings, idx[k1] % s.numRings), (idx[k2] / s.numRings, idx[k2] % s.numRings))
    {
      DivModLexMonotone(idx[k1], idx[k2], s.numRings);
    }
  }

  /**
   * Every spawn point is the constructed crossing of a ring pair `(i, j)`
   * with `0 <= i, j < numRings` whose rings pass the intersection test.
   */
  lemma SpawnPointsFromCrossingPairs(s: Settings, sqrt: real -> real, k: int)
    requires SpawnPoints(s, sqrt).Success? && 0 <= k < |SpawnPoints(s, sqrt).value|
    ensures s.staggerRingModulo != 0
    ensures exists i, j :: 0 <= i < s.numRings && 0 <= j < s.numRings
                           && DoCirclesIntersect(CenterDistance(s), CalcRingRadius(s, i, j), CalcRingRadius(s, j, i))
                           && SpawnPoints(s, sqrt).value[k]
                              == CalcIntersectionPoint(CircleACenter(s), CenterDelta(s), CenterDistance(s),
                                                       CalcRingRadius(s, i, j), CalcRingRadius(s, j, i), sqrt)
  {
    var i, j := SpawnPointPair(s, sqrt, k);
    PairPointIsCrossing(s, sqrt, i, j);
  }

  /**
   * Every spawn point lies on some ring `i` of family A and ring `j` of
   * family B with `0 <= i, j < numRings`.
   */
  lemma SpawnPointsOnBothRings(s: Settings, sqrt: real -> real, k: int)
    requires IsSquareRoot(sqrt)
    requires SpawnPoints(s, sqrt).Success? && 0 <= k < |SpawnPoints(s, sqrt).value|
    ensures s.staggerRingModulo != 0
    ensures exists i, j :: 0 <= i < s.numRings && 0 <= j < s.numRings
                           && OnCircle(SpawnPoints(s, sqrt).value[k], CircleACenter(s), CalcRingRadius(s, i, j))
                           && OnCircle(SpawnPoints(s, sqrt).value[k], CircleBCenter(s), CalcRingRadius(s, j, i))
  {
    var i, j := SpawnPointPair(s, sqrt, k);
    PairPointOnBothRings(s, sqrt, i, j);
  }

  /** The ring pair a spawn point comes from. */
  lemma SpawnPointPair(s: Settings, sqrt: real -> real, k: int) returns (i: int, j: int)
    requires SpawnPoints(s, sqrt).Success? && 0 <= k < |SpawnPoints(s, sqrt).value|
    ensures s.staggerRingModulo != 0
    ensures 0 <= i < s.numRings && 0 <= j < s.numRings
    ensures PairPoint(s, sqrt, i, j) == Some(SpawnPoints(s, sqrt).value[k])
  {
    var n := s.numRings;
    SpawnPointsAreKeptPairPoints(s, sqrt);
    var t := KeptIndices(s, sqrt, RingPairs(n))[k];
    RingPairsInLexOrder(n);
    i, j := t / n, t % n;
    DivBelowSquare(t, n);
  }

  lemma DivBelowSquare(t: int, n: int)
    requires n > 0 && 0 <= t < n * n
    ensures 0 <= t / n < n
  {
  }
}
