// JavaScript numbers as the depiction code uses them: a finite value or
// one of the non-finite values that a division by zero or an arithmetic
// on them produces.  Values are exact reals: rounding to double
// precision and the sign of zero are not part of this model.

module JsNumber {

  datatype Num = Fin(v: real) | PosInf | NegInf | NaN

  /** -1, 0 or 1 for a value that is not NaN. */
  function Sign(a: Num): int
    requires !a.NaN?
  {
    match a
    case Fin(v) => if v > 0.0 then 1 else if v < 0.0 then -1 else 0
    case PosInf => 1
    case NegInf => -1
  }

  /** The infinity of the given sign. */
  function Inf(sign: int): (r: Num)
    requires sign != 0
    ensures !r.Fin? && !r.NaN? && (Sign(r) > 0 <==> sign > 0)
  {
    if sign > 0 then PosInf else NegInf
  }

  /** The sign of a product of two values that are not NaN and not zero. */
  function SignProduct(a: Num, b: Num): (s: int)
    requires !a.NaN? && !b.NaN? && Sign(a) != 0 && Sign(b) != 0
    ensures s == Sign(a) * Sign(b)
  {
    if Sign(a) == Sign(b) then 1 else -1
  }

  function Neg(a: Num): (r: Num)
    ensures a.NaN? <==> r.NaN?
    ensures !a.NaN? ==> Sign(r) == -Sign(a)
  {
    match a
    case Fin(v) => Fin(-v)
    case PosInf => NegInf
    case NegInf => PosInf
    case NaN => NaN
  }

  /** `a + b`: infinities of opposite signs cancel to NaN. */
  function Add(a: Num, b: Num): (r: Num)
  {
    if a.NaN? || b.NaN? then NaN
    else if a.Fin? && b.Fin? then Fin(a.v + b.v)
    else if a.Fin? then b
    else if b.Fin? then a
    else if a == b then a
    else NaN
  }

  /** `a - b`. */
  function Sub(a: Num, b: Num): Num
  {
    Add(a, Neg(b))
  }

  /** `a * b`: an infinity times zero is NaN. */
  function Mul(a: Num, b: Num): (r: Num)
  {
    if a.NaN? || b.NaN? then NaN
    else if a.Fin? && b.Fin? then Fin(a.v * b.v)
    else if Sign(a) == 0 || Sign(b) == 0 then NaN
    else Inf(SignProduct(a, b))
  }

  /** `a / b`: a non-zero value over zero is an infinity, zero over zero
      and an infinity over an infinity are NaN, a finite value over an
      infinity is zero. */
  function Div(a: Num, b: Num): (r: Num)
  {
    if a.NaN? || b.NaN? then NaN
    else if a.Fin? && b.Fin? then
      if b.v != 0.0 then Fin(a.v / b.v)
      else if a.v == 0.0 then NaN
      else Inf(Sign(a))
    else if a.Fin? then Fin(0.0)
    else if b.Fin? then
      if b.v == 0.0 then a else Inf(SignProduct(a, b))
    else NaN
  }

  /** Finite operands give the exact real result. */
  lemma FiniteArithmetic(a: real, b: real)
    ensures Add(Fin(a), Fin(b)) == Fin(a + b)
    ensures Sub(Fin(a), Fin(b)) == Fin(a - b)
    ensures Mul(Fin(a), Fin(b)) == Fin(a * b)
    ensures b != 0.0 ==> Div(Fin(a), Fin(b)) == Fin(a / b)
  {
  }

  /** A sum is finite exactly when both operands are. */
  lemma AddFinite(a: Num, b: Num)
    ensures Add(a, b).Fin? <==> a.Fin? && b.Fin?
  {
  }

  /** Adding and multiplying do not depend on the operands' order. */
  lemma Commutative(a: Num, b: Num)
    ensures Add(a, b) == Add(b, a)
    ensures Mul(a, b) == Mul(b, a)
  {
  }

  /** A quotient is finite exactly when the numerator is finite and the
      denominator is a non-zero finite value or an infinity. */
  lemma DivFinite(a: Num, b: Num)
    ensures Div(a, b).Fin? <==> a.Fin? && !b.NaN? && (!b.Fin? || b.v != 0.0)
  {
  }

  /** Dividing by zero never gives a finite value. */
  lemma DivByZero(a: Num)
    ensures !Div(a, Fin(0.0)).Fin?
    ensures a.Fin? && a.v != 0.0 ==> Div(a, Fin(0.0)) == Inf(Sign(a))
  {
  }
}
