/**
 * Plane geometry over exact reals: the parts of Unity's `Vector2`, `Rect` and
 * `Mathf` that the spawn-point generator uses.
 */
module Geometry {

  /** A point or displacement in the plane (Unity `Vector2`). */
  datatype Vec2 = Vec2(x: real, y: real)

  function Plus(p: Vec2, q: Vec2): Vec2
  {
    Vec2(p.x + q.x, p.y + q.y)
  }

  function Minus(p: Vec2, q: Vec2): Vec2
  {
    Vec2(p.x - q.x, p.y - q.y)
  }

  function Scale(k: real, v: Vec2): Vec2
  {
    Vec2(k * v.x, k * v.y)
  }

  function Dot(p: Vec2, q: Vec2): real
  {
    p.x * q.x + p.y * q.y
  }

  /** Squared length; `Vector2.magnitude` is its square root. */
  function NormSq(v: Vec2): real
  {
    Dot(v, v)
  }

  /** Squared Euclidean distance between two points. */
  function DistSq(p: Vec2, q: Vec2): real
  {
    NormSq(Minus(p, q))
  }

  /** `p` lies on the circle of the given centre and radius. */
  predicate OnCircle(p: Vec2, center: Vec2, radius: real)
  {
    DistSq(p, center) == radius * radius
  }

  /** `v` turned a quarter turn clockwise: orthogonal to `v` and just as long. */
  function Perp(v: Vec2): (r: Vec2)
    ensures Dot(r, v) == 0.0
    ensures NormSq(r) == NormSq(v)
  {
    Vec2(v.y, -v.x)
  }

  function RealAbs(x: real): real
  {
    if x < 0.0 then -x else x
  }

  /**
   * An axis-aligned rectangle as Unity builds it: corner `(x, y)` and a
   * width and height, which may be negative.
   */
  datatype Rect = Rect(x: real, y: real, width: real, height: real)
  {
    function XMax(): real { x + width }
    function YMax(): real { y + height }
  }

  /**
   * Unity's `Rect.Contains(Vector2)`: the lower edges belong to the rectangle,
   * the upper edges do not, and a rectangle with a negative width or height
   * contains nothing. This half-open reading is taken as given.
   */
  predicate Contains(r: Rect, p: Vec2)
  {
    r.x <= p.x < r.XMax() && r.y <= p.y < r.YMax()
  }

  /**
   * What `Mathf.Sqrt` is assumed to compute: on a non-negative argument, the
   * non-negative number whose square is that argument.
   */
  ghost predicate IsSquareRoot(sqrt: real -> real)
  {
    forall x :: 0.0 <= x ==> 0.0 <= sqrt(x) && sqrt(x) * sqrt(x) == x
  }

  /** A square root is the only non-negative number with its square. */
  lemma SquareRootOfSquare(sqrt: real -> real, y: real)
    requires IsSquareRoot(sqrt)
    requires 0.0 <= y
    ensures sqrt(y * y) == y
  {
    var s := sqrt(y * y);
    assert 0.0 <= s && s * s == y * y;
    NonNegativeSquaresDetermineBase(s, y);
  }

  lemma NonNegativeSquaresDetermineBase(s: real, y: real)
    requires 0.0 <= s && 0.0 <= y
    requires s * s == y * y
    ensures s == y
  {
    assert (s - y) * (s + y) == s * s - y * y;
    if s + y == 0.0 {
    } else {
      assert s + y > 0.0;
      ZeroProductFactor(s - y, s + y);
    }
  }

  lemma ZeroProductFactor(u: real, v: real)
    requires u * v == 0.0
    requires v != 0.0
    ensures u == 0.0
  {
  }
}
