/**
 * The score domain of the search: integers extended with both infinities.
 *
 * The engine scores with `f32`, but every finite cost it uses is a small
 * integer and the tree is at most five plies deep, so every finite sum is
 * exact; the only non-integer values that occur are the two infinities.
 * `Less` is `f32`'s `<` restricted to this domain and `Plus` is `f32`'s `+`
 * (undefined, i.e. NaN, for opposite infinities, which the search never adds).
 */
module ExtInt {

  datatype Ext = NegInf | Fin(v: int) | PosInf

  /** Strict order: NegInf < every integer < PosInf. */
  predicate Less(a: Ext, b: Ext) {
    match a
    case NegInf => !b.NegInf?
    case Fin(x) => b.PosInf? || (b.Fin? && x < b.v)
    case PosInf => false
  }

  /** Non-strict order. */
  predicate Le(a: Ext, b: Ext) {
    !Less(b, a)
  }

  /** Addition; an infinite operand absorbs a finite one. */
  function Plus(a: Ext, b: Ext): (r: Ext)
    requires !(a.PosInf? && b.NegInf?) && !(a.NegInf? && b.PosInf?)
    ensures r.PosInf? <==> a.PosInf? || b.PosInf?
    ensures r.NegInf? <==> a.NegInf? || b.NegInf?
    ensures a.Fin? && b.Fin? ==> r == Fin(a.v + b.v)
  {
    if a.PosInf? || b.PosInf? then PosInf
    else if a.NegInf? || b.NegInf? then NegInf
    else Fin(a.v + b.v)
  }

  /** Mixed transitivity of `Less` and `Le`. */
  lemma LessLeTrans(a: Ext, b: Ext, c: Ext)
    ensures Less(a, b) && Le(b, c) ==> Less(a, c)
    ensures Le(a, b) && Less(b, c) ==> Less(a, c)
    ensures Le(a, b) && Le(b, c) ==> Le(a, c)
  {
  }
}
