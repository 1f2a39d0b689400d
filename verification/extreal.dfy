/** Scores of the search: real numbers extended with the two sentinels
    `float('-inf')` and `float('inf')` that the search loops use as seeds. */
module ExtReals {

  datatype ExtReal = NegInf | Fin(r: real) | PosInf

  /** `a <= b` on extended reals, as Python compares floats. */
  predicate Le(a: ExtReal, b: ExtReal) {
    match (a, b)
    case (NegInf, _) => true
    case (_, PosInf) => true
    case (Fin(x), Fin(y)) => x <= y
    case _ => false
  }

  /** `a < b` on extended reals; `-inf < -inf` and `inf < inf` are false. */
  predicate Lt(a: ExtReal, b: ExtReal) {
    Le(a, b) && a != b
  }

  /** Python's `max(a, b)`. */
  function Max(a: ExtReal, b: ExtReal): (r: ExtReal)
    ensures Le(a, r) && Le(b, r)
    ensures r == a || r == b
  {
    if Le(a, b) then b else a
  }

  /** Python's `min(a, b)`. */
  function Min(a: ExtReal, b: ExtReal): (r: ExtReal)
    ensures Le(r, a) && Le(r, b)
    ensures r == a || r == b
  {
    if Le(a, b) then a else b
  }

  /** Float addition where no NaN can arise: `inf + -inf` is excluded. */
  predicate Summable(a: ExtReal, b: ExtReal) {
    !(a == PosInf && b == NegInf) && !(a == NegInf && b == PosInf)
  }

  function Plus(a: ExtReal, b: ExtReal): (r: ExtReal)
    requires Summable(a, b)
    ensures r == NegInf <==> a == NegInf || b == NegInf
    ensures r == PosInf <==> a == PosInf || b == PosInf
    ensures a.Fin? && b.Fin? ==> r == Fin(a.r + b.r)
  {
    match (a, b)
    case (Fin(x), Fin(y)) => Fin(x + y)
    case (NegInf, _) => NegInf
    case (_, NegInf) => NegInf
    case _ => PosInf
  }

  /** Multiplication by a positive factor: infinities are kept. */
  function Scale(a: ExtReal, p: real): (r: ExtReal)
    requires p > 0.0
    ensures r.Fin? <==> a.Fin?
    ensures r == NegInf <==> a == NegInf
    ensures a.Fin? ==> r.r == a.r * p
  {
    match a
    case Fin(x) => Fin(x * p)
    case _ => a
  }

  lemma LeTotalOrder(a: ExtReal, b: ExtReal, c: ExtReal)
    ensures Le(a, a)
    ensures Le(a, b) || Le(b, a)
    ensures Le(a, b) && Le(b, a) ==> a == b
    ensures Le(a, b) && Le(b, c) ==> Le(a, c)
    ensures Lt(a, b) <==> !Le(b, a)
  {
  }
}
