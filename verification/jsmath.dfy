/** The few JavaScript numeric primitives the colour conversions use,
    stated over exact reals. Floating-point rounding is not modelled. */
module JsMath {

  /** `Math.abs` */
  function Abs(x: real): (r: real)
    ensures r >= 0.0
    ensures r == x || r == -x
  {
    if x < 0.0 then -x else x
  }

  /** `Math.round`: the nearest integer, a half rounding up (towards +infinity). */
  function Round(x: real): (n: int)
    ensures n as real - 0.5 <= x < n as real + 0.5
  {
    (x + 0.5).Floor
  }

  /** Truncation towards zero, the quotient JavaScript's `%` is built on. */
  function Trunc(x: real): (n: int)
    ensures x >= 0.0 ==> n as real <= x < n as real + 1.0
    ensures x <= 0.0 ==> n as real - 1.0 < x <= n as real
  {
    if x >= 0.0 then x.Floor else -((-x).Floor)
  }

  /** The number has no fractional part. */
  predicate IsInteger(x: real) {
    x.Floor as real == x
  }

  /** JavaScript's `a % 2` on numbers: what is left after taking away a whole number of 2s,
      with the sign of the dividend. */
  function RemainderTwo(a: real): (r: real)
    ensures IsInteger((a - r) / 2.0)
    ensures a >= 0.0 ==> 0.0 <= r < 2.0
    ensures a <= 0.0 ==> -2.0 < r <= 0.0
    ensures 0.0 <= a < 2.0 ==> r == a
  {
    var k := Trunc(a / 2.0);
    assert (a - (a - 2.0 * k as real)) / 2.0 == k as real;
    a - 2.0 * k as real
  }

  /** Multiplying by a positive number keeps a strict order. */
  lemma MultiplyStrict(n: real, u: real, v: real)
    requires n > 0.0 && u < v
    ensures n * u < n * v
  {
    assert n * v - n * u == n * (v - u);
  }

  /** Dividing by a positive number keeps the sign. */
  lemma DivideKeepsSign(a: real, n: real)
    requires n > 0.0
    ensures a >= 0.0 ==> a / n >= 0.0
    ensures a < 0.0 ==> a / n < 0.0
  {
    var t := a / n;
    assert n * t == a;
    if a >= 0.0 && t < 0.0 {
      MultiplyStrict(n, t, 0.0);
    }
  }

  /** `Math.max` of three numbers */
  function Max3(a: real, b: real, c: real): (m: real)
    ensures m >= a && m >= b && m >= c
    ensures m == a || m == b || m == c
  {
    if a >= b && a >= c then a else if b >= c then b else c
  }

  /** `Math.min` of three numbers */
  function Min3(a: real, b: real, c: real): (m: real)
    ensures m <= a && m <= b && m <= c
    ensures m == a || m == b || m == c
  {
    if a <= b && a <= c then a else if b <= c then b else c
  }

  /** `Math.round` never reverses an order. */
  lemma RoundMonotone(x: real, y: real)
    requires x <= y
    ensures Round(x) <= Round(y)
  {
  }

  /** A product of a non-negative number with a fraction in [0,1] lies between 0 and that number. */
  lemma ScaleByFraction(a: real, f: real)
    requires a >= 0.0 && 0.0 <= f <= 1.0
    ensures 0.0 <= a * f <= a
  {
    assert a * f <= a * 1.0 by {
      assert a * (1.0 - f) >= 0.0;
    }
  }

  /** A quotient whose numerator is at most the (positive) denominator in magnitude lies in [-1, 1]. */
  lemma QuotientBounds(a: real, d: real)
    requires d > 0.0 && -d <= a <= d
    ensures -1.0 <= a / d <= 1.0
    ensures a < 0.0 ==> a / d < 0.0
    ensures a >= 0.0 ==> a / d >= 0.0
  {
    var q := a / d;
    assert d * q == a;
    DivideKeepsSign(a, d);
    if q > 1.0 {
      MultiplyStrict(d, 1.0, q);
    }
    if q < -1.0 {
      MultiplyStrict(d, q, -1.0);
    }
  }
}
