/** Exact-real stand-ins for the two numeric library calls the cost curve uses:
    Math.ceil and Math.pow with a whole-number exponent. */
module Numeric {

  /** Math.ceil on an exact real: the least integer that is not below x. */
  function Ceil(x: real): (c: int)
    ensures x <= c as real < x + 1.0
  {
    -((-x).Floor)
  }

  /** Rounding up never reverses the order of two reals. */
  lemma CeilMonotone(x: real, y: real)
    requires x <= y
    ensures Ceil(x) <= Ceil(y)
  {
  }

  /** A product of two non-negative reals is non-negative. */
  lemma MulNonNeg(x: real, y: real)
    requires x >= 0.0 && y >= 0.0
    ensures x * y >= 0.0
  {
  }

  /** A product of two reals of at least 1 is at least 1. */
  lemma MulAtLeastOne(x: real, y: real)
    requires x >= 1.0 && y >= 1.0
    ensures x * y >= 1.0
  {
    MulNonNeg(x - 1.0, y - 1.0);
  }

  /** Math.pow(m, n) for a whole exponent n, as repeated multiplication. */
  function Pow(m: real, n: nat): (p: real)
    ensures m > 0.0 ==> p > 0.0
    ensures m >= 1.0 ==> p >= 1.0
  {
    if n == 0 then 1.0 else m * Pow(m, n - 1)
  }

  /** With a base of at least 1, a larger exponent never gives a smaller power. */
  lemma {:induction false} PowMonotone(m: real, a: nat, b: nat)
    requires m >= 1.0
    requires a <= b
    ensures Pow(m, a) <= Pow(m, b)
    decreases b - a
  {
    if a < b {
      PowMonotone(m, a, b - 1);
      var p := Pow(m, b - 1);
      assert Pow(m, b) == m * p;
      assert m * p - p == (m - 1.0) * p;
      MulNonNeg(m - 1.0, p);
    }
  }
}
