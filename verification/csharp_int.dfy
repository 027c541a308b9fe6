/**
 * C# integer remainder. The `%` operator of C# truncates toward zero, so the
 * remainder takes the sign of the dividend; Dafny's `%` is Euclidean and is
 * never negative. The two agree on whether the remainder is zero, which is
 * all the ring-radius rule asks.
 */
module CSharpInt {

  function Abs(x: int): nat
  {
    if x < 0 then -x else x
  }

  /** `a % b` as C# evaluates it for `b != 0` (C# throws on `b == 0`). */
  function TruncRem(a: int, b: int): (r: int)
    requires b != 0
    ensures Abs(r) < Abs(b)
    ensures r == 0 || (r < 0 <==> a < 0)
    ensures (a - r) % b == 0
  {
    var m := Abs(b);
    var r := if a >= 0 then a % m else -((-a) % m);
    var q := if a >= 0 then a / m else -((-a) / m);
    EuclidOnMagnitude(if a >= 0 then a else -a, m);
    assert a - r == q * m;
    MultipleHasZeroRem(q, b);
    r
  }

  /** Euclidean division by a positive divisor. */
  lemma EuclidOnMagnitude(x: int, m: int)
    requires m > 0
    ensures x == (x / m) * m + x % m
    ensures 0 <= x % m < m
  {
  }

  /** A multiple of `|b|` leaves no Euclidean remainder when divided by `b`. */
  lemma MultipleHasZeroRem(q: int, b: int)
    requires b != 0
    ensures (q * Abs(b)) % b == 0
  {
    var k := if b > 0 then q else -q;
    assert q * Abs(b) == k * b;
    MultipleOfDivisor(k, b);
  }

  /** A multiple of `b` leaves no Euclidean remainder when divided by `b`. */
  lemma MultipleOfDivisor(k: int, b: int)
    requires b != 0
    ensures (k * b) % b == 0
  {
    var x := k * b;
    assert x == (x / b) * b + x % b;
    assert x % b == (k - x / b) * b;
    SmallMultipleIsZero(k - x / b, b, x % b);
  }

  /** The only multiple of `b` in `[0, |b|)` is zero. */
  lemma SmallMultipleIsZero(k: int, b: int, r: int)
    requires b != 0
    requires r == k * b
    requires 0 <= r < Abs(b)
    ensures k == 0
  {
  }

  /** The C# remainder is zero exactly when `b` divides `a`. */
  lemma TruncRemZeroIffDivides(a: int, b: int)
    requires b != 0
    ensures TruncRem(a, b) == 0 <==> a % b == 0
  {
    var r := TruncRem(a, b);
    if a % b == 0 {
      // Both a and a - r are multiples of b, hence so is r; |r| < |b| forces r == 0.
      var qa := a / b;
      var qd := (a - r) / b;
      assert a == qa * b;
      assert a - r == qd * b;
      assert r == (qa - qd) * b;
      if r < 0 {
        SmallMultipleIsZero(qd - qa, b, -r);
      } else {
        SmallMultipleIsZero(qa - qd, b, r);
      }
    }
  }

  /** Shifting the dividend by a multiple of `b` does not change whether C# `%` gives zero. */
  lemma TruncRemZeroPeriodic(a: int, k: int, b: int)
    requires b != 0
    ensures TruncRem(a + k * b, b) == 0 <==> TruncRem(a, b) == 0
  {
    TruncRemZeroIffDivides(a, b);
    TruncRemZeroIffDivides(a + k * b, b);
    ShiftedMultiple(a, k, b);
    assert (a + k * b) + (-k) * b == a;
    ShiftedMultiple(a + k * b, -k, b);
  }

  /** A multiple of `b` shifted by a multiple of `b` is still one. */
  lemma ShiftedMultiple(a: int, k: int, b: int)
    requires b != 0
    ensures a % b == 0 ==> (a + k * b) % b == 0
  {
    if a % b == 0 {
      var q := a / b;
      assert a == q * b;
      assert a + k * b == (q + k) * b;
      MultipleOfDivisor(q + k, b);
    }
  }
}
