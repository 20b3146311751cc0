/** The JavaScript numbers the key recovery computes with. Finite values are
    exact reals; rounding is not modelled. NaN is kept because the source
    relies on it: 0 / 0 gives NaN, NaN absorbs every arithmetic operation,
    and every comparison with NaN is false. */
module Numeric {

  /** A number produced by the frequency and error computations. */
  datatype Num = NaN | Fin(v: real)

  /** The running minimum of the scan: +Infinity before any error was
      accepted, a finite error afterwards. */
  datatype Bound = Infinity | Value(v: real)

  /** IEEE `error < minError`: false for NaN, true for any finite value
      against +Infinity. */
  predicate Less(e: Num, m: Bound)
    ensures e.NaN? ==> !Less(e, m)
    ensures e.Fin? && m.Infinity? ==> Less(e, m)
    ensures m.Value? ==> (Less(e, m) <==> Below(e, Fin(m.v)))
  {
    match e
    case NaN => false
    case Fin(x) => m.Infinity? || x < m.v
  }

  /** Both numbers are finite and the first is no larger. */
  predicate AtMost(x: Num, y: Num) {
    x.Fin? && y.Fin? && x.v <= y.v
  }

  /** Both numbers are finite and the first is strictly smaller. */
  predicate Below(x: Num, y: Num) {
    x.Fin? && y.Fin? && x.v < y.v
  }

  function Minus(a: Num, b: Num): (r: Num)
    ensures r.Fin? <==> a.Fin? && b.Fin?
  {
    if a.Fin? && b.Fin? then Fin(a.v - b.v) else NaN
  }

  function Plus(a: Num, b: Num): (r: Num)
    ensures r.Fin? <==> a.Fin? && b.Fin?
  {
    if a.Fin? && b.Fin? then Fin(a.v + b.v) else NaN
  }

  /** `Math.pow(a, 2)`. */
  function Square(a: Num): (r: Num)
    ensures r.Fin? <==> a.Fin?
    ensures r.Fin? ==> r.v >= 0.0
  {
    if a.Fin? then Fin(a.v * a.v) else NaN
  }

  /** `x / y` for a count `x` and a total `y`: 0 / 0 is NaN. A positive count
      over a zero total (which would be +Infinity) is excluded by the caller,
      since no character is counted more often than the total. */
  function Quotient(x: real, y: real): (r: Num)
    requires y > 0.0 || x == 0.0
    ensures r.Fin? <==> y != 0.0
  {
    if y == 0.0 then NaN else Fin(x / y)
  }

  /** `xs.reduce((sum, x) => sum + x, 0)`: a left fold starting at 0. */
  function Sum(xs: seq<Num>): (r: Num) {
    if |xs| == 0 then Fin(0.0) else Plus(Sum(xs[..|xs| - 1]), xs[|xs| - 1])
  }

  /** The sum is finite exactly when every term is: one NaN spoils it. */
  lemma {:induction false} SumFinite(xs: seq<Num>)
    ensures Sum(xs).Fin? <==> forall i :: 0 <= i < |xs| ==> xs[i].Fin?
  {
    if |xs| > 0 {
      SumFinite(xs[..|xs| - 1]);
      assert forall i :: 0 <= i < |xs| - 1 ==> xs[..|xs| - 1][i] == xs[i];
    }
  }
}
