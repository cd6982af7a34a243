/**
 * Exact-arithmetic stand-ins for the numeric primitives the engine uses:
 * an integer power on reals (Python's `**` with an integer exponent) and
 * rounding half to even (numpy's `round`), applied to amounts in cents;
 * and the few facts of non-linear arithmetic the proofs about them need.
 */
module Numerics {

  /** x raised to a natural exponent. */
  function Pow(x: real, n: nat): real
  {
    if n == 0 then 1.0 else x * Pow(x, n - 1)
  }

  /**
   * The nearest integer to x, ties going to the even neighbour. On an amount
   * in cents this is rounding to two decimals of the amount in currency units.
   */
  function RoundHalfEven(x: real): (r: int)
    ensures r as real - 0.5 <= x <= r as real + 0.5
    ensures (x == r as real - 0.5 || x == r as real + 0.5) ==> r % 2 == 0
  {
    var f := x.Floor;
    var frac := x - f as real;
    if frac < 0.5 then f
    else if frac > 0.5 then f + 1
    else if f % 2 == 0 then f
    else f + 1
  }

  /** A whole number of cents scaled by a real factor, rounded back to the cent. */
  function RoundScaled(a: int, factor: real): int
  {
    RoundHalfEven(a as real * factor)
  }

  /** Scaling a non-negative amount by a larger factor never gives a smaller rounded amount. */
  lemma RoundScaledMonotone(a: int, x: real, y: real)
    requires a >= 0 && x <= y
    ensures RoundScaled(a, x) <= RoundScaled(a, y)
  {
    ScaleMonotone(a as real, x, y);
    RoundMonotone(a as real * x, a as real * y);
    RoundScaledUnfold(a, x);
    RoundScaledUnfold(a, y);
  }

  /** A larger non-negative-factor amount never gives a smaller rounded amount. */
  lemma RoundScaledMonotoneInAmount(a: int, b: int, factor: real)
    requires a <= b && factor >= 0.0
    ensures RoundScaled(a, factor) <= RoundScaled(b, factor)
  {
    ScaleMonotone(factor, a as real, b as real);
    assert a as real * factor <= b as real * factor;
    RoundMonotone(a as real * factor, b as real * factor);
    RoundScaledUnfold(a, factor);
    RoundScaledUnfold(b, factor);
  }

  /** RoundScaled rounds the product. */
  lemma RoundScaledUnfold(a: int, x: real)
    ensures RoundScaled(a, x) == RoundHalfEven(a as real * x)
  {
  }

  /** Rounding preserves order. */
  lemma RoundMonotone(x: real, y: real)
    requires x <= y
    ensures RoundHalfEven(x) <= RoundHalfEven(y)
  {
  }

  /** A whole number of cents is left as it is. */
  lemma RoundWhole(n: int)
    ensures RoundHalfEven(n as real) == n
  {
  }

  /** A base of at least one grows (weakly) with the exponent. */
  lemma {:induction false} PowMonotone(x: real, m: nat, n: nat)
    requires x >= 1.0
    requires m <= n
    ensures 1.0 <= Pow(x, m) <= Pow(x, n)
  {
    if m < n {
      PowMonotone(x, m, n - 1);
      var y := Pow(x, n - 1);
      assert Pow(x, n) == x * y;
      assert x * y - y == (x - 1.0) * y;
    } else if m > 0 {
      PowMonotone(x, m - 1, m - 1);
      var y := Pow(x, m - 1);
      assert Pow(x, m) == x * y;
      assert x * y - y == (x - 1.0) * y;
    }
  }

  /** A base above one raised to a positive exponent exceeds one. */
  lemma {:induction false} PowAboveOne(x: real, n: nat)
    requires x > 1.0 && n > 0
    ensures Pow(x, n) > 1.0
  {
    PowMonotone(x, n - 1, n - 1);
    var y := Pow(x, n - 1);
    assert Pow(x, n) == x * y;
    assert x * y - 1.0 == (x - 1.0) * y + (y - 1.0);
  }

  /** A base in [0, 1) raised to a positive exponent stays below one. */
  lemma {:induction false} PowBelowOne(x: real, n: nat)
    requires 0.0 <= x < 1.0 && n > 0
    ensures 0.0 <= Pow(x, n) < 1.0
  {
    if n == 1 {
      assert Pow(x, 1) == x * Pow(x, 0);
    } else {
      PowBelowOne(x, n - 1);
      var y := Pow(x, n - 1);
      assert Pow(x, n) == x * y;
      assert 1.0 - x * y == (1.0 - x) + x * (1.0 - y);
      MulNonNegative(x, 1.0 - y);
      MulNonNegative(x, y);
    }
  }

  /** For a non-negative base, the power is one exactly when the exponent is zero or the base is one. */
  lemma {:induction false} PowIsOne(x: real, n: nat)
    requires x >= 0.0
    ensures Pow(x, n) == 1.0 <==> (n == 0 || x == 1.0)
  {
    if n > 0 {
      if x > 1.0 {
        PowAboveOne(x, n);
      } else if x < 1.0 {
        PowBelowOne(x, n);
      } else {
        PowMonotone(x, n - 1, n - 1);
        assert Pow(x, n - 1) == 1.0 by { PowOfOne(n - 1); }
      }
    }
  }

  /** One raised to any exponent is one. */
  lemma {:induction false} PowOfOne(n: nat)
    ensures Pow(1.0, n) == 1.0
  {
    if n > 0 {
      PowOfOne(n - 1);
    }
  }

  /** A product of non-negative reals is non-negative. */
  lemma MulNonNegative(a: real, b: real)
    requires a >= 0.0 && b >= 0.0
    ensures a * b >= 0.0
  {
  }

  /** Scaling by a non-negative factor preserves order. */
  lemma ScaleMonotone(a: real, x: real, y: real)
    requires a >= 0.0 && x <= y
    ensures a * x <= a * y
  {
    MulNonNegative(a, y - x);
    assert a * y - a * x == a * (y - x);
  }

  /** A product of positive reals is positive. */
  lemma MulPositive(x: real, y: real)
    requires x > 0.0 && y > 0.0
    ensures x * y > 0.0
  {
  }

  /** Euclidean division: quotient times divisor plus remainder, the remainder below the divisor. */
  lemma DivMod(i: nat, p: nat)
    requires p > 0
    ensures i == (i / p) * p + i % p && i % p < p
  {
  }

  /** Multiplying by a non-negative factor preserves order. */
  lemma MulMonotone(a: int, b: int, p: nat)
    requires a <= b
    ensures a * p <= b * p
  {
    assert b * p - a * p == (b - a) * p;
  }

  /** Integer division by a positive divisor preserves order. */
  lemma DivMonotone(i: nat, j: nat, p: nat)
    requires p > 0 && i <= j
    ensures i / p <= j / p
  {
    var qi, qj := i / p, j / p;
    DivMod(i, p);
    DivMod(j, p);
    if qi > qj {
      MulMonotone(qj + 1, qi, p);
      assert false;
    }
  }
}
