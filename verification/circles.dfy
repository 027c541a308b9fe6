/**
 * The two-circle machinery of the spawner: the "do these circles cross" test
 * and the closed-form construction of one crossing point.
 */
module Circles {
  import opened Geometry

  /**
   * `DoCirclesIntersect` (Spawner.cs): two circles whose centres are
   * `centerDistance` apart cross at two points when the distance is below
   * the sum of the radii and above their difference. Both comparisons are
   * strict, so tangent circles do not count.
   */
  predicate DoCirclesIntersect(centerDistance: real, radiusA: real, radiusB: real)
  {
    radiusA + radiusB > centerDistance && centerDistance > RealAbs(radiusA - radiusB)
  }

  /**
   * The source's `lengthMultiplier`: signed distance from centre A, along the
   * line of centres, to the foot of the chord through both crossing points.
   */
  function LengthMultiplier(centerDistance: real, radiusA: real, radiusB: real): real
    requires centerDistance != 0.0
  {
    (radiusA * radiusA - radiusB * radiusB + centerDistance * centerDistance) / (2.0 * centerDistance)
  }

  /** The argument the source passes to `Mathf.Sqrt`: squared half-chord length. */
  function HeightSquared(centerDistance: real, radiusA: real, radiusB: real): real
    requires centerDistance != 0.0
  {
    var l := LengthMultiplier(centerDistance, radiusA, radiusB);
    radiusA * radiusA - l * l
  }

  /**
   * `CalcIntersectionPoint` (Spawner.cs): centre A plus `lengthMultiplier`
   * along the unit vector of `centerDelta` plus `heightMultiplier` along that
   * unit vector turned clockwise. The second crossing point (the other sign
   * of the height) is never built. `sqrt` stands for `Mathf.Sqrt`.
   */
  function CalcIntersectionPoint(circleACenter: Vec2, centerDelta: Vec2, centerDistance: real,
                                 radiusA: real, radiusB: real, sqrt: real -> real): Vec2
    requires centerDistance != 0.0
  {
    var lengthMultiplier := LengthMultiplier(centerDistance, radiusA, radiusB);
    var heightMultiplier := sqrt(HeightSquared(centerDistance, radiusA, radiusB));
    var lDivD := lengthMultiplier / centerDistance;
    var hDivD := heightMultiplier / centerDistance;
    Vec2(lDivD * centerDelta.x + hDivD * centerDelta.y + circleACenter.x,
         lDivD * centerDelta.y - hDivD * centerDelta.x + circleACenter.y)
  }

  // ---------------------------------------------------------------------------
  // The intersection test

  /** The test does not depend on which circle is called A. */
  lemma IntersectSymmetric(d: real, rA: real, rB: real)
    ensures DoCirclesIntersect(d, rA, rB) <==> DoCirclesIntersect(d, rB, rA)
  {
  }

  /** Circles that pass the test have distinct centres, so the solver never divides by zero. */
  lemma IntersectingCentersAreApart(d: real, rA: real, rB: real)
    requires DoCirclesIntersect(d, rA, rB)
    ensures d > 0.0
  {
  }

  /** Tangency, outside or inside, is classified as no intersection. */
  lemma TangentCirclesDoNotIntersect(d: real, rA: real, rB: real)
    requires rA + rB == d || d == RealAbs(rA - rB)
    ensures !DoCirclesIntersect(d, rA, rB)
  {
  }

  /**
   * Heron-style factorisation of the square-root argument:
   * `4 d^2 (rA^2 - l^2)` is the product of the four triangle-inequality slacks.
   */
  lemma HeightSquaredFactors(d: real, rA: real, rB: real)
    requires d != 0.0
    ensures 4.0 * (d * d) * HeightSquared(d, rA, rB)
         == ((rA + rB - d) * (rB + d - rA)) * ((d + rA - rB) * (d + rA + rB))
  {
    var x := rA * rA - rB * rB + d * d;
    var l := LengthMultiplier(d, rA, rB);
    assert l * (2.0 * d) == x;
    assert 4.0 * (d * d) * (l * l) == x * x by {
      assert (l * (2.0 * d)) * (l * (2.0 * d)) == 4.0 * (d * d) * (l * l);
    }
    assert 4.0 * (d * d) * HeightSquared(d, rA, rB) == (2.0 * d * rA - x) * (2.0 * d * rA + x);
    assert 2.0 * d * rA - x == (rB + d - rA) * (rA + rB - d);
    assert 2.0 * d * rA + x == (d + rA - rB) * (d + rA + rB);
  }

  /**
   * Whenever the test passes, the square-root argument is strictly positive:
   * `Mathf.Sqrt` is never asked for the root of a negative number.
   */
  lemma IntersectGivesPositiveHeight(d: real, rA: real, rB: real)
    requires DoCirclesIntersect(d, rA, rB)
    ensures d > 0.0
    ensures HeightSquared(d, rA, rB) > 0.0
  {
    HeightSquaredFactors(d, rA, rB);
    var f1, f2, f3, f4 := rA + rB - d, rB + d - rA, d + rA - rB, d + rA + rB;
    PositiveProduct(f1, f2);
    PositiveProduct(f3, f4);
    PositiveProduct(f1 * f2, f3 * f4);
    SignOfScaled(d, HeightSquared(d, rA, rB), (f1 * f2) * (f3 * f4));
  }

  /**
   * For circles of non-negative radius the converse holds too: a positive
   * square-root argument means the test passes. (With a negative radius it
   * does not: `d = 1`, `rA = rB = -5` gives a positive argument.)
   */
  lemma PositiveHeightMeansIntersect(d: real, rA: real, rB: real)
    requires d > 0.0 && 0.0 <= rA && 0.0 <= rB
    requires HeightSquared(d, rA, rB) > 0.0
    ensures DoCirclesIntersect(d, rA, rB)
  {
    HeightSquaredFactors(d, rA, rB);
    var f1, f2, f3, f4 := rA + rB - d, rB + d - rA, d + rA - rB, d + rA + rB;
    SignOfScaled(d, HeightSquared(d, rA, rB), (f1 * f2) * (f3 * f4));
    if !DoCirclesIntersect(d, rA, rB) {
      // f2 + f3 == 2d > 0, and f1 >= 0 whenever f2 or f3 is not positive,
      // so exactly one slack is non-positive and the product is not positive.
      if f2 <= 0.0 {
        NonPositiveTriple(f2, f1, f3, f4);
      } else if f3 <= 0.0 {
        NonPositiveTriple(f3, f1, f2, f4);
      } else {
        NonPositiveTriple(f1, f2, f3, f4);
      }
    }
  }

  /** One non-positive factor against three non-negative ones. */
  lemma NonPositiveTriple(neg: real, p: real, q: real, r: real)
    requires neg <= 0.0 && 0.0 <= p && 0.0 <= q && 0.0 <= r
    ensures (neg * p) * (q * r) <= 0.0
    ensures (p * neg) * (q * r) <= 0.0
    ensures (p * q) * (neg * r) <= 0.0
  {
    NonNegativeProduct(q, r);
    NonNegativeProduct(p, q * r);
    NonPositiveProduct(neg, p * (q * r));
    assert (neg * p) * (q * r) == neg * (p * (q * r));
    assert (p * neg) * (q * r) == neg * (p * (q * r));
    assert (p * q) * (neg * r) == neg * (p * (q * r));
  }

  lemma NonNegativeProduct(x: real, y: real)
    requires x >= 0.0 && y >= 0.0
    ensures x * y >= 0.0
  {
  }

  /** Scaling by `4 d^2 > 0` keeps the sign. */
  lemma SignOfScaled(d: real, h: real, p: real)
    requires d != 0.0 && 4.0 * (d * d) * h == p
    ensures h > 0.0 <==> p > 0.0
  {
    if h > 0.0 {
      if d > 0.0 {
        PositiveProduct(d, h);
        PositiveProduct(d, d * h);
      } else {
        PositiveProduct(-d, h);
        PositiveProduct(-d, -d * h);
      }
      assert (d * d) * h == d * (d * h);
    } else {
      NonNegativeProduct(-h, d * d);
      assert (d * d) * h == -((d * d) * (-h));
    }
  }

  lemma PositiveProduct(x: real, y: real)
    requires x > 0.0 && y > 0.0
    ensures x * y > 0.0
  {
  }

  lemma NonPositiveProduct(x: real, y: real)
    requires x <= 0.0 && y >= 0.0
    ensures x * y <= 0.0
  {
  }

  // ---------------------------------------------------------------------------
  // The constructed point

  /** `u δ + w δ⊥` has squared length `(u^2 + w^2) |δ|^2`: the two directions are orthogonal. */
  lemma RotatedCombinationNorm(u: real, w: real, dx: real, dy: real)
    ensures (u * dx + w * dy) * (u * dx + w * dy) + (u * dy - w * dx) * (u * dy - w * dx)
         == (u * u + w * w) * (dx * dx + dy * dy)
  {
  }

  /** Dividing by `d` and scaling back by `d^2` restores the squares. */
  lemma RescaledSquares(l: real, h: real, d: real)
    requires d != 0.0
    ensures ((l / d) * (l / d) + (h / d) * (h / d)) * (d * d) == l * l + h * h
  {
    var u, w := l / d, h / d;
    assert u * d == l;
    assert w * d == h;
    assert (u * u + w * w) * (d * d) == (u * d) * (u * d) + (w * d) * (w * d);
  }

  lemma ShiftedQuotient(l: real, d: real)
    requires d != 0.0
    ensures (l - d) / d == l / d - 1.0
  {
    var q, u := (l - d) / d, l / d;
    assert q * d == l - d;
    assert u * d == l;
    assert (q - (u - 1.0)) * d == 0.0;
    ZeroProductFactor(q - (u - 1.0), d);
  }

  /** A point given by its offset `(x, y)` from `a` is at squared distance `x^2 + y^2` from `a`. */
  lemma DistanceOfOffsetPoint(p: Vec2, a: Vec2, x: real, y: real)
    requires p.x == x + a.x && p.y == y + a.y
    ensures DistSq(p, a) == x * x + y * y
  {
  }

  /** The point `a + (l/d) δ + (h/d) δ⊥` is at distance `rA` from `a` when `h^2 + l^2 == rA^2`. */
  lemma CircleADistance(p: Vec2, a: Vec2, dx: real, dy: real, d: real, l: real, h: real, rA: real)
    requires d != 0.0
    requires p.x == (l / d) * dx + (h / d) * dy + a.x
    requires p.y == (l / d) * dy - (h / d) * dx + a.y
    requires dx * dx + dy * dy == d * d
    requires h * h == rA * rA - l * l
    ensures DistSq(p, a) == rA * rA
  {
    var u, w := l / d, h / d;
    DistanceOfOffsetPoint(p, a, u * dx + w * dy, u * dy - w * dx);
    RotatedCombinationNorm(u, w, dx, dy);
    RescaledSquares(l, h, d);
  }

  /** The same point is at distance `rB` from `a + δ` when `2 l d == rA^2 - rB^2 + d^2`. */
  lemma CircleBDistance(p: Vec2, a: Vec2, dx: real, dy: real, d: real, l: real, h: real, rA: real, rB: real)
    requires d != 0.0
    requires p.x == (l / d) * dx + (h / d) * dy + a.x
    requires p.y == (l / d) * dy - (h / d) * dx + a.y
    requires dx * dx + dy * dy == d * d
    requires h * h == rA * rA - l * l
    requires l * (2.0 * d) == rA * rA - rB * rB + d * d
    ensures DistSq(p, Vec2(a.x + dx, a.y + dy)) == rB * rB
  {
    var u, w := l / d, h / d;
    DistanceOfOffsetPoint(p, Vec2(a.x + dx, a.y + dy), (u - 1.0) * dx + w * dy, (u - 1.0) * dy - w * dx);
    RotatedCombinationNorm(u - 1.0, w, dx, dy);
    ShiftedQuotient(l, d);
    RescaledSquares(l - d, h, d);
    assert (l - d) * (l - d) == l * l - l * (2.0 * d) + d * d;
  }

  /** Undoing the division in `LengthMultiplier`. */
  lemma LengthMultiplierScaled(d: real, radiusA: real, radiusB: real)
    requires d != 0.0
    ensures LengthMultiplier(d, radiusA, radiusB) * (2.0 * d) == radiusA * radiusA - radiusB * radiusB + d * d
  {
  }

  /** On a passing test, `Mathf.Sqrt` returns the half-chord length itself. */
  lemma HeightMultiplierSquares(d: real, radiusA: real, radiusB: real, sqrt: real -> real)
    requires IsSquareRoot(sqrt)
    requires DoCirclesIntersect(d, radiusA, radiusB)
    ensures d > 0.0
    ensures sqrt(HeightSquared(d, radiusA, radiusB)) > 0.0
    ensures sqrt(HeightSquared(d, radiusA, radiusB)) * sqrt(HeightSquared(d, radiusA, radiusB))
         == radiusA * radiusA - LengthMultiplier(d, radiusA, radiusB) * LengthMultiplier(d, radiusA, radiusB)
  {
    IntersectGivesPositiveHeight(d, radiusA, radiusB);
    var hh := HeightSquared(d, radiusA, radiusB);
    assert sqrt(hh) >= 0.0 && sqrt(hh) * sqrt(hh) == hh;
  }

  /**
   * The coordinates written out in the source are the vector construction
   * `a + (l/d) δ + (h/d) δ⊥`, with `δ⊥` the quarter turn clockwise of `δ`.
   */
  lemma IntersectionPointIsVectorConstruction(circleACenter: Vec2, centerDelta: Vec2, centerDistance: real,
                                              radiusA: real, radiusB: real, sqrt: real -> real)
    requires centerDistance != 0.0
    ensures var l := LengthMultiplier(centerDistance, radiusA, radiusB);
            var h := sqrt(HeightSquared(centerDistance, radiusA, radiusB));
            var p := Plus(circleACenter, Plus(Scale(l / centerDistance, centerDelta),
                                              Scale(h / centerDistance, Perp(centerDelta))));
            && CalcIntersectionPoint(circleACenter, centerDelta, centerDistance, radiusA, radiusB, sqrt).x == p.x
            && CalcIntersectionPoint(circleACenter, centerDelta, centerDistance, radiusA, radiusB, sqrt).y == p.y
            && Dot(Perp(centerDelta), centerDelta) == 0.0
            && NormSq(Perp(centerDelta)) == NormSq(centerDelta)
  {
    var hDivD := sqrt(HeightSquared(centerDistance, radiusA, radiusB)) / centerDistance;
    assert hDivD * -centerDelta.x == -(hDivD * centerDelta.x);
  }

  /**
   * Whenever the test passes and `centerDistance` is the length of
   * `centerDelta`, the constructed point lies on circle A: at distance
   * `radiusA` from `circleACenter`.
   */
  lemma IntersectionPointOnCircleA(circleACenter: Vec2, centerDelta: Vec2, centerDistance: real,
                                   radiusA: real, radiusB: real, sqrt: real -> real)
    requires IsSquareRoot(sqrt)
    requires DoCirclesIntersect(centerDistance, radiusA, radiusB)
    requires NormSq(centerDelta) == centerDistance * centerDistance
    ensures centerDistance != 0.0
    ensures DistSq(CalcIntersectionPoint(circleACenter, centerDelta, centerDistance, radiusA, radiusB, sqrt),
                   circleACenter) == radiusA * radiusA
  {
    var d := centerDistance;
    HeightMultiplierSquares(d, radiusA, radiusB, sqrt);
    CircleADistance(CalcIntersectionPoint(circleACenter, centerDelta, d, radiusA, radiusB, sqrt),
                    circleACenter, centerDelta.x, centerDelta.y, d,
                    LengthMultiplier(d, radiusA, radiusB), sqrt(HeightSquared(d, radiusA, radiusB)), radiusA);
  }

  /**
   * Under the same conditions the point also lies on circle B: at distance
   * `radiusB` from `circleACenter + centerDelta`.
   */
  lemma IntersectionPointOnCircleB(circleACenter: Vec2, centerDelta: Vec2, centerDistance: real,
                                   radiusA: real, radiusB: real, sqrt: real -> real)
    requires IsSquareRoot(sqrt)
    requires DoCirclesIntersect(centerDistance, radiusA, radiusB)
    requires NormSq(centerDelta) == centerDistance * centerDistance
    ensures centerDistance != 0.0
    ensures DistSq(CalcIntersectionPoint(circleACenter, centerDelta, centerDistance, radiusA, radiusB, sqrt),
                   Plus(circleACenter, centerDelta)) == radiusB * radiusB
  {
    var d := centerDistance;
    HeightMultiplierSquares(d, radiusA, radiusB, sqrt);
    var l := LengthMultiplier(d, radiusA, radiusB);
    LengthMultiplierScaled(d, radiusA, radiusB);
    CircleBDistance(CalcIntersectionPoint(circleACenter, centerDelta, d, radiusA, radiusB, sqrt),
                    circleACenter, centerDelta.x, centerDelta.y, d,
                    l, sqrt(HeightSquared(d, radiusA, radiusB)), radiusA, radiusB);
  }

  /**
   * For a vertical `centerDelta = (0, d)`, the spawner's geometry, the point is
   * centre A moved up by `lengthMultiplier` and right by `heightMultiplier`:
   * of the two crossings, the one to the right of the line of centres.
   */
  lemma VerticalDeltaPicksRightCrossing(circleACenter: Vec2, d: real, radiusA: real, radiusB: real,
                                        sqrt: real -> real)
    requires IsSquareRoot(sqrt)
    requires DoCirclesIntersect(d, radiusA, radiusB)
    ensures d != 0.0
    ensures CalcIntersectionPoint(circleACenter, Vec2(0.0, d), d, radiusA, radiusB, sqrt)
         == Vec2(circleACenter.x + sqrt(HeightSquared(d, radiusA, radiusB)),
                 circleACenter.y + LengthMultiplier(d, radiusA, radiusB))
    ensures CalcIntersectionPoint(circleACenter, Vec2(0.0, d), d, radiusA, radiusB, sqrt).x > circleACenter.x
  {
    IntersectGivesPositiveHeight(d, radiusA, radiusB);
    var hh := HeightSquared(d, radiusA, radiusB);
    var h := sqrt(hh);
    assert h * h == hh && h >= 0.0;
    assert h != 0.0;
    var l := LengthMultiplier(d, radiusA, radiusB);
    assert (h / d) * d == h;
    assert (l / d) * d == l;
  }
}
