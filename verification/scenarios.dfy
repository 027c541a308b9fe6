/**
 * Worked configurations of the spawn-point generator, each computed to the
 * exact output list. Square roots that are not rational are left symbolic
 * as `sqrt(x)`; the only thing used about them is `IsSquareRoot(sqrt)`.
 */
module Scenarios {
  import opened Wrappers
  import opened Geometry
  import opened Circles
  import opened Spawner

  // ---------------------------------------------------------------------------
  // Shared steps

  /**
   * With a positive half length the circle centres are stacked vertically,
   * so a crossing pair's point is centre A moved right by the half-chord
   * length and up by `lengthMultiplier`.
   */
  lemma CrossingCoordinates(s: Settings, sqrt: real -> real, ringIndexA: int, ringIndexB: int)
    requires s.areaHalfLength > 0 && s.staggerRingModulo != 0 && IsSquareRoot(sqrt)
    requires DoCirclesIntersect(CenterDistance(s), CalcRingRadius(s, ringIndexA, ringIndexB),
                                CalcRingRadius(s, ringIndexB, ringIndexA))
    ensures var d, radiusA, radiusB := CenterDistance(s), CalcRingRadius(s, ringIndexA, ringIndexB),
                                       CalcRingRadius(s, ringIndexB, ringIndexA);
            CalcIntersectionPoint(CircleACenter(s), CenterDelta(s), d, radiusA, radiusB, sqrt)
              == Vec2(CircleACenter(s).x + sqrt(HeightSquared(d, radiusA, radiusB)),
                      CircleACenter(s).y + LengthMultiplier(d, radiusA, radiusB))
  {
    CenterDistanceIsMagnitude(s, sqrt);
    assert CenterDelta(s) == Vec2(0.0, CenterDistance(s));
    VerticalDeltaPicksRightCrossing(CircleACenter(s), CenterDistance(s), CalcRingRadius(s, ringIndexA, ringIndexB),
                                    CalcRingRadius(s, ringIndexB, ringIndexA), sqrt);
  }

  /** A run over four pairs keeps their points in order. */
  lemma KeepPointsOfFour(s: Settings, sqrt: real -> real, p0: (int, int), p1: (int, int), p2: (int, int), p3: (int, int))
    requires s.staggerRingModulo != 0
    ensures KeepPoints(s, sqrt, [p0, p1, p2, p3])
         == PairPoints(s, sqrt, p0) + PairPoints(s, sqrt, p1) + PairPoints(s, sqrt, p2) + PairPoints(s, sqrt, p3)
  {
    var k0, k1, k2, k3 := PairPoints(s, sqrt, p0), PairPoints(s, sqrt, p1), PairPoints(s, sqrt, p2), PairPoints(s, sqrt, p3);
    assert KeepPoints(s, sqrt, []) == [];
    KeepPointsSnoc(s, sqrt, [], p0);
    assert [] + [p0] == [p0];
    assert KeepPoints(s, sqrt, [p0]) == k0;
    KeepPointsSnoc(s, sqrt, [p0], p1);
    assert [p0] + [p1] == [p0, p1];
    assert KeepPoints(s, sqrt, [p0, p1]) == k0 + k1;
    KeepPointsSnoc(s, sqrt, [p0, p1], p2);
    assert [p0, p1] + [p2] == [p0, p1, p2];
    assert KeepPoints(s, sqrt, [p0, p1, p2]) == k0 + k1 + k2;
    KeepPointsSnoc(s, sqrt, [p0, p1, p2], p3);
    assert [p0, p1, p2] + [p3] == [p0, p1, p2, p3];
  }

  lemma TwoRingsVisitOrder()
    ensures RingPairs(2) == [(0, 0), (0, 1), (1, 0), (1, 1)]
  {
    RingPairsInLexOrder(2);
  }

  /** A non-negative number whose square is below `b * b` is below `b`. */
  lemma BelowBySquares(r: real, b: real)
    requires 0.0 <= r && 0.0 < b && r * r < b * b
    ensures r < b
  {
    if r >= b {
      NonNegativeProduct(r - b, r + b);
    }
  }

  /** A non-negative number whose square is above `b * b` is above `b`. */
  lemma AboveBySquares(r: real, b: real)
    requires 0.0 <= r && 0.0 <= b && b * b < r * r
    ensures b < r
  {
    if r <= b {
      NonNegativeProduct(b - r, b + r);
    }
  }

  // ---------------------------------------------------------------------------
  // One ring pair, one crossing

  /** Half length 10, one ring, no increment, modulo 1, offset 15, no centre offset. */
  const SingleRing := Settings(10, 1, 0.0, 1, 15.0, 0.0)

  /**
   * Both radii are the offset 15, the centres are 20 apart, and the crossing
   * is at `(sqrt(125) - 10, 0)`, inside the area.
   */
  lemma SingleRingPair(sqrt: real -> real)
    requires IsSquareRoot(sqrt)
    ensures PairPoint(SingleRing, sqrt, 0, 0) == Some(Vec2(-10.0 + sqrt(125.0), 0.0))
  {
    var s := SingleRing;
    InnermostPairStaggered(s);
    assert CenterDistance(s) == 20.0;
    assert LengthMultiplier(20.0, 15.0, 15.0) == 10.0;
    assert HeightSquared(20.0, 15.0, 15.0) == 125.0;
    CrossingCoordinates(s, sqrt, 0, 0);
    var r := sqrt(125.0);
    assert 0.0 <= r && r * r == 125.0;
    BelowBySquares(r, 20.0);
    AreaBoundsIsHalfOpenSquare(s, Vec2(-10.0 + r, 0.0));
  }

  lemma SingleRingOutput(sqrt: real -> real)
    requires IsSquareRoot(sqrt)
    ensures SpawnPoints(SingleRing, sqrt) == Success([Vec2(-10.0 + sqrt(125.0), 0.0)])
  {
    var s := SingleRing;
    assert RingPairs(1) == [(0, 0)] by {
      RingPairsInLexOrder(1);
    }
    KeepPointsSnoc(s, sqrt, [], (0, 0));
    assert [] + [(0, 0)] == [(0, 0)];
    SingleRingPair(sqrt);
    assert PairPoints(s, sqrt, (0, 0)) == [Vec2(-10.0 + sqrt(125.0), 0.0)];
    assert SpawnPoints(s, sqrt) == Success(KeepPoints(s, sqrt, [(0, 0)]));
    assert KeepPoints(s, sqrt, []) == [];
    assert KeepPoints(s, sqrt, [(0, 0)]) == [Vec2(-10.0 + sqrt(125.0), 0.0)];
  }

  // ---------------------------------------------------------------------------
  // Equal points are kept

  /** Half length 4, two rings, no increment, modulo 1, offset 5: every radius is 5. */
  const RepeatedCrossing := Settings(4, 2, 0.0, 1, 5.0, 0.0)

  /** Every pair has radii 5 and 5 on centres 8 apart: the crossing `(-1, 0)`. */
  lemma RepeatedCrossingPair(sqrt: real -> real, ringIndexA: int, ringIndexB: int)
    requires IsSquareRoot(sqrt)
    requires 0 <= ringIndexA < 2 && 0 <= ringIndexB < 2
    ensures PairPoint(RepeatedCrossing, sqrt, ringIndexA, ringIndexB) == Some(Vec2(-1.0, 0.0))
  {
    var s := RepeatedCrossing;
    RingRadiusRule(s, ringIndexA, ringIndexB);
    RingRadiusRule(s, ringIndexB, ringIndexA);
    assert CalcRingRadius(s, ringIndexA, ringIndexB) == 5.0;
    assert CalcRingRadius(s, ringIndexB, ringIndexA) == 5.0;
    assert CenterDistance(s) == 8.0;
    assert LengthMultiplier(8.0, 5.0, 5.0) == 4.0;
    assert HeightSquared(8.0, 5.0, 5.0) == 3.0 * 3.0;
    SquareRootOfSquare(sqrt, 3.0);
    CrossingCoordinates(s, sqrt, ringIndexA, ringIndexB);
    AreaBoundsIsHalfOpenSquare(s, Vec2(-1.0, 0.0));
  }

  /** All four pairs yield the same point and all four copies are kept. */
  lemma RepeatedCrossingOutput(sqrt: real -> real)
    requires IsSquareRoot(sqrt)
    ensures SpawnPoints(RepeatedCrossing, sqrt)
         == Success([Vec2(-1.0, 0.0), Vec2(-1.0, 0.0), Vec2(-1.0, 0.0), Vec2(-1.0, 0.0)])
  {
    var s := RepeatedCrossing;
    TwoRingsVisitOrder();
    KeepPointsOfFour(s, sqrt, (0, 0), (0, 1), (1, 0), (1, 1));
    RepeatedCrossingPair(sqrt, 0, 0);
    RepeatedCrossingPair(sqrt, 0, 1);
    RepeatedCrossingPair(sqrt, 1, 0);
    RepeatedCrossingPair(sqrt, 1, 1);
    var p := [Vec2(-1.0, 0.0)];
    assert PairPoints(s, sqrt, (0, 0)) == p && PairPoints(s, sqrt, (0, 1)) == p;
    assert PairPoints(s, sqrt, (1, 0)) == p && PairPoints(s, sqrt, (1, 1)) == p;
    assert SpawnPoints(s, sqrt) == Success(KeepPoints(s, sqrt, [(0, 0), (0, 1), (1, 0), (1, 1)]));
    assert p + p + p + p == [Vec2(-1.0, 0.0), Vec2(-1.0, 0.0), Vec2(-1.0, 0.0), Vec2(-1.0, 0.0)];
  }

  // ---------------------------------------------------------------------------
  // Points on the edges of the area

  /** Half length 4, two rings, increment 4, modulo 1, offset 6: ring `i` has radius `4 i + 6`. */
  const EdgeCrossings := Settings(4, 2, 4.0, 1, 6.0, 0.0)

  lemma EdgeRadii(i: int, j: int)
    requires 0 <= i < 2 && 0 <= j < 2
    ensures CalcRingRadius(EdgeCrossings, i, j) == 4.0 * i as real + 6.0
  {
    RingRadiusRule(EdgeCrossings, i, j);
  }

  /** Radii 6 and 6: the crossing `(sqrt(20) - 4, 0)` is inside. */
  lemma EdgePair00(sqrt: real -> real)
    requires IsSquareRoot(sqrt)
    ensures PairPoint(EdgeCrossings, sqrt, 0, 0) == Some(Vec2(-4.0 + sqrt(20.0), 0.0))
  {
    var s := EdgeCrossings;
    EdgeRadii(0, 0);
    assert CenterDistance(s) == 8.0;
    assert LengthMultiplier(8.0, 6.0, 6.0) == 4.0;
    assert HeightSquared(8.0, 6.0, 6.0) == 20.0;
    CrossingCoordinates(s, sqrt, 0, 0);
    var r := sqrt(20.0);
    assert 0.0 <= r && r * r == 20.0;
    BelowBySquares(r, 8.0);
    AreaBoundsIsHalfOpenSquare(s, Vec2(-4.0 + r, 0.0));
  }

  /** Radii 6 and 10: the crossing `(2, -4)` lies on the lower edge, which belongs to the area. */
  lemma EdgePair01(sqrt: real -> real)
    requires IsSquareRoot(sqrt)
    ensures PairPoint(EdgeCrossings, sqrt, 0, 1) == Some(Vec2(2.0, -4.0))
  {
    var s := EdgeCrossings;
    EdgeRadii(0, 1);
    EdgeRadii(1, 0);
    assert CenterDistance(s) == 8.0;
    assert LengthMultiplier(8.0, 6.0, 10.0) == 0.0;
    assert HeightSquared(8.0, 6.0, 10.0) == 6.0 * 6.0;
    SquareRootOfSquare(sqrt, 6.0);
    CrossingCoordinates(s, sqrt, 0, 1);
    AreaBoundsIsHalfOpenSquare(s, Vec2(2.0, -4.0));
  }

  /** Radii 10 and 6: the crossing `(2, 4)` lies on the upper edge, which does not. */
  lemma EdgePair10(sqrt: real -> real)
    requires IsSquareRoot(sqrt)
    ensures DoCirclesIntersect(CenterDistance(EdgeCrossings), 10.0, 6.0)
    ensures CalcIntersectionPoint(CircleACenter(EdgeCrossings), CenterDelta(EdgeCrossings),
                                  CenterDistance(EdgeCrossings), 10.0, 6.0, sqrt) == Vec2(2.0, 4.0)
    ensures PairPoint(EdgeCrossings, sqrt, 1, 0) == None
  {
    var s := EdgeCrossings;
    EdgeRadii(1, 0);
    EdgeRadii(0, 1);
    assert CenterDistance(s) == 8.0;
    assert LengthMultiplier(8.0, 10.0, 6.0) == 8.0;
    assert HeightSquared(8.0, 10.0, 6.0) == 6.0 * 6.0;
    SquareRootOfSquare(sqrt, 6.0);
    CrossingCoordinates(s, sqrt, 1, 0);
    AreaBoundsIsHalfOpenSquare(s, Vec2(2.0, 4.0));
  }

  /** Radii 10 and 10: the crossing `(sqrt(84) - 4, 0)` is right of the area. */
  lemma EdgePair11(sqrt: real -> real)
    requires IsSquareRoot(sqrt)
    ensures PairPoint(EdgeCrossings, sqrt, 1, 1) == None
  {
    var s := EdgeCrossings;
    EdgeRadii(1, 1);
    assert CenterDistance(s) == 8.0;
    assert LengthMultiplier(8.0, 10.0, 10.0) == 4.0;
    assert HeightSquared(8.0, 10.0, 10.0) == 84.0;
    CrossingCoordinates(s, sqrt, 1, 1);
    var r := sqrt(84.0);
    assert 0.0 <= r && r * r == 84.0;
    AboveBySquares(r, 9.0);
    AreaBoundsIsHalfOpenSquare(s, Vec2(-4.0 + r, 0.0));
  }

  /** Of the four crossings, the two on or beyond the upper and right edges are dropped. */
  lemma EdgeCrossingsOutput(sqrt: real -> real)
    requires IsSquareRoot(sqrt)
    ensures SpawnPoints(EdgeCrossings, sqrt) == Success([Vec2(-4.0 + sqrt(20.0), 0.0), Vec2(2.0, -4.0)])
  {
    var s := EdgeCrossings;
    TwoRingsVisitOrder();
    KeepPointsOfFour(s, sqrt, (0, 0), (0, 1), (1, 0), (1, 1));
    EdgePair00(sqrt);
    EdgePair01(sqrt);
    EdgePair10(sqrt);
    EdgePair11(sqrt);
    assert PairPoints(s, sqrt, (0, 0)) == [Vec2(-4.0 + sqrt(20.0), 0.0)];
    assert PairPoints(s, sqrt, (0, 1)) == [Vec2(2.0, -4.0)];
    assert PairPoints(s, sqrt, (1, 0)) == [] && PairPoints(s, sqrt, (1, 1)) == [];
    assert SpawnPoints(s, sqrt) == Success(KeepPoints(s, sqrt, [(0, 0), (0, 1), (1, 0), (1, 1)]));
    assert [Vec2(-4.0 + sqrt(20.0), 0.0)] + [Vec2(2.0, -4.0)] + [] + []
        == [Vec2(-4.0 + sqrt(20.0), 0.0), Vec2(2.0, -4.0)];
  }

  // ---------------------------------------------------------------------------
  // No rings, and a zero modulo

  /** With no rings the loops never run: no points, and a zero modulo is never used. */
  lemma NoRingsNoPoints(sqrt: real -> real)
    ensures SpawnPoints(Settings(10, 0, 5.0, 0, 1.0, 0.0), sqrt) == Success([])
  {
  }

  /** With rings and a zero modulo the first radius computation throws. */
  lemma ZeroModuloThrows(sqrt: real -> real)
    ensures SpawnPoints(Settings(10, 3, 5.0, 0, 1.0, 0.0), sqrt) == Failure(DivideByZero)
  {
  }

  /** An empty area does not prevent the throw: with rings, a zero modulo still fails. */
  lemma EmptyAreaZeroModuloThrows(sqrt: real -> real)
    ensures SpawnPoints(Settings(0, 1, 0.0, 0, 0.0, 0.0), sqrt) == Failure(DivideByZero)
  {
  }

  // ---------------------------------------------------------------------------
  // The radius rule on concrete indices

  /**
   * Modulo 5, increment 5, offset 2: ring 1 gets the offset only against the
   * other family's rings 0, 5 and -5 (C# `%` gives `0` there), not against
   * 1, 2 or -3 (where C# `%` gives `1`, `2` and `-3`); ring 0 has radius 2
   * against ring 0.
   */
  lemma StaggerEveryFifthRing()
    ensures var s := Settings(10, 3, 5.0, 5, 2.0, 0.0);
            && CalcRingRadius(s, 1, 0) == 7.0
            && CalcRingRadius(s, 1, 1) == 5.0
            && CalcRingRadius(s, 1, 2) == 5.0
            && CalcRingRadius(s, 1, 5) == 7.0
            && CalcRingRadius(s, 1, -5) == 7.0
            && CalcRingRadius(s, 1, -3) == 5.0
            && CalcRingRadius(s, 0, 0) == 2.0
  {
    var s := Settings(10, 3, 5.0, 5, 2.0, 0.0);
    RingRadiusRule(s, 1, 0);
    RingRadiusRule(s, 1, 1);
    RingRadiusRule(s, 1, 2);
    RingRadiusRule(s, 1, 5);
    RingRadiusRule(s, 1, -5);
    RingRadiusRule(s, 1, -3);
    RingRadiusRule(s, 0, 0);
  }
}
