/**
 Doubles, apart from rounding and overflow: real numbers, the two infinities and NaN.
*/
module Doubles {

  datatype Double = Finite(r: real) | Infinite(negative: bool) | NaN

  /** `v > limit`, which is false of NaN. */
  predicate Exceeds(v: Double, limit: real) {
    match v
    case Finite(r) => r > limit
    case Infinite(negative) => !negative
    case NaN => false
  }

  /** A number at its limit does not exceed it, and NaN exceeds nothing. */
  lemma ExceedsMeans(r: real, limit: real)
    ensures Exceeds(Finite(r), limit) <==> r > limit
    ensures Exceeds(Infinite(false), limit) && !Exceeds(Infinite(true), limit) && !Exceeds(NaN, limit)
  {
  }

  function Times(v: Double, factor: real): Double {
    match v
    case Finite(r) => Finite(r * factor)
    case Infinite(negative) => if factor == 0.0 then NaN else Infinite(negative != (factor < 0.0))
    case NaN => NaN
  }

  function Plus(a: Double, b: Double): Double {
    if a.Finite? && b.Finite? then Finite(a.r + b.r)
    else if a.NaN? || b.NaN? || (a.Infinite? && b.Infinite? && a != b) then NaN
    else if a.Infinite? then a
    else b
  }
}
