/**
 * Exact arithmetic on prices: sums, means and rounding to cents. Prices are
 * reals, not binary floats; rounding is to the nearest cent with ties to
 * the even cent, as Python's `round` does on exact decimal values.
 */
module Prices {

  function Sum(xs: seq<real>): real {
    if xs == [] then 0.0 else Sum(xs[..|xs| - 1]) + xs[|xs| - 1]
  }

  /** `statistics.mean` */
  function Mean(xs: seq<real>): real
    requires xs != []
  {
    Sum(xs) / |xs| as real
  }

  /** The integer nearest to `x`, the even one on a tie. */
  function RoundHalfEven(x: real): int {
    var f := x.Floor;
    var frac := x - f as real;
    if frac < 0.5 then f
    else if frac > 0.5 then f + 1
    else if f % 2 == 0 then f
    else f + 1
  }

  /** `round(x, 2)`: the nearest whole number of cents, never more than half a cent away. */
  function Round2(x: real): (r: real)
    ensures -0.005 <= r - x <= 0.005
  {
    RoundHalfEvenNearest(x * 100.0);
    RoundHalfEven(x * 100.0) as real / 100.0
  }

  lemma {:induction false} SumBounds(xs: seq<real>, lo: real, hi: real)
    requires forall i | 0 <= i < |xs| :: lo <= xs[i] <= hi
    ensures |xs| as real * lo <= Sum(xs) <= |xs| as real * hi
  {
    if xs != [] {
      SumBounds(xs[..|xs| - 1], lo, hi);
    }
  }

  /** A mean lies between any lower and upper bound of the values averaged. */
  lemma MeanBounds(xs: seq<real>, lo: real, hi: real)
    requires xs != [] && forall i | 0 <= i < |xs| :: lo <= xs[i] <= hi
    ensures lo <= Mean(xs) <= hi
  {
    SumBounds(xs, lo, hi);
    var n := |xs| as real;
    assert Mean(xs) * n == Sum(xs);
  }

  /** The mean of equal values is that value. */
  lemma MeanOfConstant(xs: seq<real>, v: real)
    requires xs != [] && forall i | 0 <= i < |xs| :: xs[i] == v
    ensures Mean(xs) == v
  {
    MeanBounds(xs, v, v);
  }

  /** Rounding moves a value by at most one half, and a tie goes to the even integer. */
  lemma RoundHalfEvenNearest(x: real)
    ensures -0.5 <= RoundHalfEven(x) as real - x <= 0.5
    ensures RoundHalfEven(x) as real - x == 0.5 || RoundHalfEven(x) as real - x == -0.5 ==> RoundHalfEven(x) % 2 == 0
  {
  }

  lemma RoundHalfEvenMonotone(x: real, y: real)
    requires x <= y
    ensures RoundHalfEven(x) <= RoundHalfEven(y)
  {
  }

  /** Rounding to cents never reorders two values, and keeps whole cents. */
  lemma Round2Properties(x: real, y: real, cents: int)
    ensures x <= y ==> Round2(x) <= Round2(y)
    ensures Round2(cents as real / 100.0) == cents as real / 100.0
  {
    if x <= y {
      RoundHalfEvenMonotone(x * 100.0, y * 100.0);
    }
    assert (cents as real / 100.0) * 100.0 == cents as real;
  }

  /** A value rounded to cents has at most two decimal places: rounding it again changes nothing. */
  lemma Round2WholeCents(x: real)
    ensures Round2(Round2(x)) == Round2(x)
  {
    Round2Properties(Round2(x), Round2(x), RoundHalfEven(x * 100.0));
  }

}
