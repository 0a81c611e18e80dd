/** Rounding as numpy and pandas do it (`np.rint`, `Series.round(k)`, and
    Python's `round`): to the nearest value, ties to the even neighbour. */
module Rounding {

  /** `np.rint(x)`: the nearest integer, a tie going to the even one. */
  function RoundHalfEven(x: real): (r: int)
    ensures x - 0.5 <= r as real <= x + 0.5
    ensures r as real - x == 0.5 || x - r as real == 0.5 ==> r % 2 == 0
  {
    var f := x.Floor;
    var d := x - f as real;
    if d < 0.5 then f
    else if d > 0.5 then f + 1
    else if f % 2 == 0 then f
    else f + 1
  }

  /** x times 10^k, one factor of ten at a time. */
  function Scale(x: real, k: nat): (r: real)
    ensures 0.0 <= x ==> 0.0 <= r
  {
    if k == 0 then x else 10.0 * Scale(x, k - 1)
  }

  /** y divided by 10^k, one factor of ten at a time. */
  function Unscale(y: real, k: nat): (r: real)
    ensures 0.0 <= y ==> 0.0 <= r
  {
    if k == 0 then y else Unscale(y, k - 1) / 10.0
  }

  /** Scaling commutes with a division by ten. */
  lemma {:induction false} ScaleTenth(x: real, k: nat)
    ensures Scale(x / 10.0, k) == Scale(x, k) / 10.0
  {
    if k > 0 {
      ScaleTenth(x, k - 1);
    }
  }

  /** Scaling undoes unscaling. */
  lemma {:induction false} ScaleUnscale(y: real, k: nat)
    ensures Scale(Unscale(y, k), k) == y
  {
    if k > 0 {
      ScaleTenth(Unscale(y, k - 1), k - 1);
      ScaleUnscale(y, k - 1);
    }
  }

  lemma Hundredfold(x: real)
    ensures Scale(x, 2) == 100.0 * x
  {
    assert Scale(x, 1) == 10.0 * x;
  }

  lemma Thousandfold(x: real)
    ensures Scale(x, 3) == 1000.0 * x
  {
    Hundredfold(x);
  }

  /** A value with no fractional part. */
  predicate IsWhole(x: real)
  {
    x.Floor as real == x
  }

  /** An integer that is even when it lies half a unit from y: then its half is whole. */
  lemma HalfOfEvenTie(n: int, y: real)
    requires n as real - y == 0.5 || y - n as real == 0.5 ==> n % 2 == 0
    ensures n as real - y == 0.5 || y - n as real == 0.5 ==> IsWhole(n as real / 2.0)
  {
    if n % 2 == 0 {
      assert n as real / 2.0 == (n / 2) as real;
    }
  }

  /** `Series.round(digits)`: the multiple of 10^-digits nearest to x, ties
      to even. Scaled by 10^digits it is a whole number within 0.5 of the
      scaled x, and on a tie that whole number is even. */
  function RoundTo(x: real, digits: nat): (r: real)
    ensures IsWhole(Scale(r, digits))
    ensures Scale(x, digits) - 0.5 <= Scale(r, digits) <= Scale(x, digits) + 0.5
    ensures Scale(r, digits) - Scale(x, digits) == 0.5 || Scale(x, digits) - Scale(r, digits) == 0.5
            ==> IsWhole(Scale(r, digits) / 2.0)
    ensures 0.0 <= x ==> 0.0 <= r
  {
    var n := RoundHalfEven(Scale(x, digits));
    ScaleUnscale(n as real, digits);
    HalfOfEvenTie(n, Scale(x, digits));
    Unscale(n as real, digits)
  }

  /** `round(2)` in plain decimal terms: a whole number of hundredths within half a hundredth. */
  lemma RoundToHundredths(x: real)
    ensures IsWhole(RoundTo(x, 2) * 100.0)
    ensures x * 100.0 - 0.5 <= RoundTo(x, 2) * 100.0 <= x * 100.0 + 0.5
    ensures RoundTo(x, 2) * 100.0 - x * 100.0 == 0.5 || x * 100.0 - RoundTo(x, 2) * 100.0 == 0.5
            ==> IsWhole(RoundTo(x, 2) * 50.0)
  {
    Hundredfold(x);
    Hundredfold(RoundTo(x, 2));
  }

  /** `round(3)` in plain decimal terms: a whole number of thousandths within half a thousandth. */
  lemma RoundToThousandths(x: real)
    ensures IsWhole(RoundTo(x, 3) * 1000.0)
    ensures x * 1000.0 - 0.5 <= RoundTo(x, 3) * 1000.0 <= x * 1000.0 + 0.5
    ensures RoundTo(x, 3) * 1000.0 - x * 1000.0 == 0.5 || x * 1000.0 - RoundTo(x, 3) * 1000.0 == 0.5
            ==> IsWhole(RoundTo(x, 3) * 500.0)
  {
    Thousandfold(x);
    Thousandfold(RoundTo(x, 3));
  }

  /** `Series.round()` with no digits: the nearest whole number, a tie going
      to the even one. */
  function Round(x: real): (r: real)
    ensures IsWhole(r)
    ensures x - 0.5 <= r <= x + 0.5
    ensures r - x == 0.5 || x - r == 0.5 ==> IsWhole(r / 2.0)
    ensures 0.0 <= x ==> 0.0 <= r
  {
    var n := RoundHalfEven(x);
    HalfOfEvenTie(n, x);
    n as real
  }
}
