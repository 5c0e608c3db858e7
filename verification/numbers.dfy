/** Python's numeric rounding, on exact reals. */
module Numbers {
  import opened Wrappers

  /** Python's `round(x)`: the nearest integer, ties to the even one */
  function RoundHalfEven(x: real): (r: int)
    ensures x - 1.0 / 2.0 <= r as real <= x + 1.0 / 2.0
    ensures (r as real - x == 1.0 / 2.0 || x - r as real == 1.0 / 2.0) ==> r % 2 == 0
  {
    var f := x.Floor;
    var d := x - f as real;
    if d < 1.0 / 2.0 then f
    else if d > 1.0 / 2.0 then f + 1
    else if f % 2 == 0 then f
    else f + 1
  }

  /** Rounding an integer gives it back */
  lemma {:induction false} RoundInteger(n: int)
    ensures RoundHalfEven(n as real) == n
  {
  }

  /** Python's `round(x, 4)`: a multiple of 0.0001 nearest to `x`, a tie
      going to the even multiple */
  function RoundTo4(x: real): (r: real)
    ensures (r * 10000.0).Floor as real == r * 10000.0
    ensures x - 1.0 / 20000.0 <= r <= x + 1.0 / 20000.0
    ensures (r - x == 1.0 / 20000.0 || x - r == 1.0 / 20000.0) ==> (r * 10000.0).Floor % 2 == 0
  {
    RoundHalfEven(x * 10000.0) as real / 10000.0
  }

  /** Python's `round(x, 6)`: a multiple of 0.000001 nearest to `x`, a tie
      going to the even multiple */
  function RoundTo6(x: real): (r: real)
    ensures (r * 1000000.0).Floor as real == r * 1000000.0
    ensures x - 1.0 / 2000000.0 <= r <= x + 1.0 / 2000000.0
    ensures (r - x == 1.0 / 2000000.0 || x - r == 1.0 / 2000000.0) ==> (r * 1000000.0).Floor % 2 == 0
  {
    RoundHalfEven(x * 1000000.0) as real / 1000000.0
  }

  /** Rounding never reverses an order */
  lemma {:induction false} RoundMonotone(x: real, y: real)
    requires x <= y
    ensures RoundHalfEven(x) <= RoundHalfEven(y)
  {
  }

  /** Rounding to four places never reverses an order */
  lemma {:induction false} RoundTo4Monotone(x: real, y: real)
    requires x <= y
    ensures RoundTo4(x) <= RoundTo4(y)
  {
    RoundMonotone(x * 10000.0, y * 10000.0);
  }

  /** `round(x * y)`: a salary converted at a rate, rounded, a tie going
      to the even integer */
  function RoundProduct(x: real, y: real): (r: int)
    ensures x * y - 1.0 / 2.0 <= r as real <= x * y + 1.0 / 2.0
    ensures (r as real - x * y == 1.0 / 2.0 || x * y - r as real == 1.0 / 2.0) ==> r % 2 == 0
  {
    RoundHalfEven(x * y)
  }

  /** Sum of the present values (pandas skips NaN) */
  function SumPresent(xs: seq<Option<real>>): real {
    if |xs| == 0 then 0.0
    else SumPresent(xs[..|xs| - 1]) + xs[|xs| - 1].GetOr(0.0)
  }

  /** Number of present values */
  function CountPresent(xs: seq<Option<real>>): (n: nat)
    ensures n <= |xs|
  {
    if |xs| == 0 then 0
    else CountPresent(xs[..|xs| - 1]) + (if xs[|xs| - 1].Some? then 1 else 0)
  }

  /** pandas `Series.mean()`: NaN (here `None`) when no value is present */
  function Mean(xs: seq<Option<real>>): (r: Option<real>)
    ensures r.None? <==> CountPresent(xs) == 0
  {
    if CountPresent(xs) == 0 then None
    else Some(SumPresent(xs) / CountPresent(xs) as real)
  }

  /** `round(mean)`: `round` raises on NaN, which ends the computation */
  function RoundMean(xs: seq<Option<real>>): (r: Option<int>)
    ensures r.None? <==> CountPresent(xs) == 0
  {
    match Mean(xs)
    case None => None
    case Some(m) => Some(RoundHalfEven(m))
  }
}
