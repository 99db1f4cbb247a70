/** The few IEEE 754 outcomes the statistics code can produce from exact
    inputs. Finite doubles are modelled as exact reals (rounding is not
    modelled); the only non-finite values that arise are those of dividing a
    sum by an `int` count of zero, which the C# code never guards against. */
module Doubles {

  datatype Double = Finite(r: real) | NaN | PositiveInfinity | NegativeInfinity

  /** `q` is `total / count`: `count` copies of `q` add up to `total`. */
  predicate IsQuotient(q: real, total: real, count: int)
  {
    q * count as real == total
  }

  /** `x / d` where `d` is an `int` promoted to `double`: a finite quotient
      when `d` is non-zero, otherwise an infinity of the sign of `x`, or NaN
      for `0 / 0`. (A zero divided by a negative count is -0.0 in IEEE 754,
      which compares equal to 0 and is modelled as `Finite(0.0)`.) */
  function Divide(x: real, d: int): (q: Double)
    ensures q.Finite? <==> d != 0
    ensures q.Finite? ==> IsQuotient(q.r, x, d)
    ensures d == 0 ==> (q.NaN? <==> x == 0.0)
    ensures d == 0 && x > 0.0 ==> q.PositiveInfinity?
    ensures d == 0 && x < 0.0 ==> q.NegativeInfinity?
    ensures d > 0 && x >= 0.0 ==> q.r >= 0.0
    ensures d != 0 && x == 0.0 ==> q == Finite(0.0)
  {
    if d != 0 then Finite(x / d as real)
    else if x > 0.0 then PositiveInfinity
    else if x < 0.0 then NegativeInfinity
    else NaN
  }
}
