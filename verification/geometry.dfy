/**
 * The engine's vector types and the two scalar helpers the grid relies on,
 * over exact reals: rounding to the nearest integer and clamping to [0, 1].
 */
module Geometry {

  /** A planar extent; `y` is the depth of the region (the world's z axis). */
  datatype Vec2 = Vec2(x: real, y: real)

  /** A world-space point; `y` is the vertical axis, the grid lies in x/z. */
  datatype Vec3 = Vec3(x: real, y: real, z: real)

  /**
   * Round to the nearest integer, halves going to the even neighbour
   * (the default midpoint rule of the runtime's rounding).
   */
  function Round(x: real): (r: int)
    ensures x - 0.5 <= r as real <= x + 0.5
  {
    var f := x.Floor;
    var frac := x - f as real;
    if frac < 0.5 then f
    else if frac > 0.5 then f + 1
    else if f % 2 == 0 then f
    else f + 1
  }

  /** A value exactly halfway between two integers goes to the even one. */
  lemma RoundTiesToEven(k: int)
    ensures Round(k as real + 0.5) % 2 == 0
    ensures Round(k as real + 0.5) == k || Round(k as real + 0.5) == k + 1
  {
    assert (k as real + 0.5).Floor == k;
  }

  /** No integer is strictly closer to `x` than `Round(x)`. */
  lemma RoundIsNearest(x: real, k: int)
    ensures var d := x - Round(x) as real; var e := x - k as real;
      (if d < 0.0 then -d else d) <= (if e < 0.0 then -e else e)
  {
    var r := Round(x);
    if k != r {
      assert k <= r - 1 || k >= r + 1;
    }
  }

  /** Rounding a value of [0, n] stays in [0, n] when n is an integer. */
  lemma RoundWithin(v: real, n: int)
    requires 0.0 <= v <= n as real
    ensures 0 <= Round(v) <= n
  {
    var r := Round(v);
    assert -0.5 <= r as real <= n as real + 0.5;
  }

  /** A value strictly within half a unit of the integer k rounds to k. */
  lemma RoundNear(v: real, k: int)
    requires k as real - 0.5 < v < k as real + 0.5
    ensures Round(v) == k
  {
    var r := Round(v);
    assert k as real - 1.0 < r as real < k as real + 1.0;
  }

  /** Clamp a fraction into the unit interval. */
  function Clamp01(v: real): (r: real)
    ensures 0.0 <= r <= 1.0
    ensures 0.0 <= v <= 1.0 ==> r == v
    ensures v < 0.0 ==> r == 0.0
    ensures v > 1.0 ==> r == 1.0
  {
    if v < 0.0 then 0.0
    else if v > 1.0 then 1.0
    else v
  }

  lemma MulNonNeg(x: real, b: real)
    requires x >= 0.0 && b > 0.0
    ensures x * b >= 0.0
  {
  }

  lemma MulNonPos(x: real, b: real)
    requires x <= 0.0 && b > 0.0
    ensures x * b <= 0.0
  {
  }

  lemma MulNonZero(x: real, y: real)
    requires x != 0.0 && y != 0.0
    ensures x * y != 0.0
  {
  }

  /** A positive quotient of a smaller by a larger number lies strictly in (0, 1). */
  lemma QuotientInUnit(a: real, b: real)
    requires 0.0 < a < b
    ensures 0.0 < a / b < 1.0
  {
    var t := a / b;
    assert t * b == a;
    assert (t - 1.0) * b == a - b;
    if t >= 1.0 {
      MulNonNeg(t - 1.0, b);
    }
    if t <= 0.0 {
      MulNonPos(t, b);
    }
  }

  /** (b - 1) * (a / b) is a less the quotient. */
  lemma ScaleByPredecessor(a: real, b: real)
    requires b != 0.0
    ensures (b - 1.0) * (a / b) == a - a / b
  {
    var t := a / b;
    assert t * b == a;
    assert (b - 1.0) * t == b * t - t;
  }

  /** A quotient of a number by a positive number it does not exceed. */
  lemma QuotientAtLeastOne(a: real, b: real)
    requires 0.0 < b <= a
    ensures a / b >= 1.0
  {
    var t := a / b;
    assert t * b == a;
    assert (t - 1.0) * b == a - b;
    if t < 1.0 {
      MulNonPos(t - 1.0, b);
    }
  }

  /** Multiplying by a positive factor keeps a strict order. */
  lemma MulStrictMono(a: real, b: real, d: real)
    requires a < b && d > 0.0
    ensures a * d < b * d
  {
    MulNonZero(b - a, d);
    MulNonNeg(b - a, d);
    assert (b - a) * d == b * d - a * d;
  }

  /** Multiplying by a positive factor keeps a weak order. */
  lemma MulMono(a: real, b: real, d: real)
    requires a <= b && d > 0.0
    ensures a * d <= b * d
  {
    MulNonNeg(b - a, d);
    assert (b - a) * d == b * d - a * d;
  }

  /** An offset in [i·d, (i+1)·d) lies i whole steps of a positive d in. */
  lemma FloorInSpan(offset: real, d: real, i: int)
    requires d > 0.0
    requires i as real * d <= offset < (i as real + 1.0) * d
    ensures (offset / d).Floor == i
  {
    var q := offset / d;
    assert q * d == offset;
    if q < i as real {
      MulStrictMono(q, i as real, d);
    }
    if q >= i as real + 1.0 {
      MulMono(i as real + 1.0, q, d);
    }
  }
}
