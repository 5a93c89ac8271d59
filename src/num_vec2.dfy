// Plane vectors whose coordinates are JavaScript numbers: the arithmetic
// of the two vector classes (src/math/vector2d.js and
// src/layout/vector2d.js), including the infinities and NaN that a
// division by zero leaves in the coordinates.  On finite coordinates each
// operation agrees with the real arithmetic of `Vec2`.

module NumVec2 {
  import opened JsNumber
  import Vec2

  datatype NVec = NVec(x: Num, y: Num)

  predicate Finite(a: NVec)
  {
    a.x.Fin? && a.y.Fin?
  }

  /** The finite vector holding a real one. */
  function Lift(v: Vec2.Vec): (r: NVec)
    ensures Finite(r) && r.x.v == v.x && r.y.v == v.y
  {
    NVec(Fin(v.x), Fin(v.y))
  }

  /** The real value of a finite vector. */
  function Real(a: NVec): (r: Vec2.Vec)
    requires Finite(a)
    ensures Lift(r) == a
  {
    Vec2.Vec(a.x.v, a.y.v)
  }

  function Plus(a: NVec, b: NVec): (r: NVec)
    ensures Finite(a) && Finite(b) ==> Finite(r) && Real(r) == Vec2.Plus(Real(a), Real(b))
    ensures Finite(r) <==> Finite(a) && Finite(b)
  {
    AddFinite(a.x, b.x);
    AddFinite(a.y, b.y);
    NVec(Add(a.x, b.x), Add(a.y, b.y))
  }

  function Minus(a: NVec, b: NVec): (r: NVec)
    ensures Finite(a) && Finite(b) ==> Finite(r) && Real(r) == Vec2.Minus(Real(a), Real(b))
  {
    NVec(Sub(a.x, b.x), Sub(a.y, b.y))
  }

  function Scaled(a: NVec, s: Num): (r: NVec)
    ensures Finite(a) && s.Fin? ==> Finite(r) && Real(r) == Vec2.Scaled(Real(a), s.v)
  {
    NVec(Mul(a.x, s), Mul(a.y, s))
  }

  /** `divide`: each coordinate over the scalar.  A non-zero finite scalar
      gives the real quotient; a zero scalar leaves no coordinate finite:
      a non-zero coordinate becomes an infinity of its sign, and a zero
      one NaN. */
  function Quotient(a: NVec, s: Num): (r: NVec)
    ensures Finite(a) && s.Fin? && s.v != 0.0 ==> Finite(r) && Real(r) == Vec2.Quotient(Real(a), s.v)
    ensures s == Fin(0.0) ==> !r.x.Fin? && !r.y.Fin?
    ensures s == Fin(0.0) && a.x.Fin? && a.x.v != 0.0 ==> r.x == Inf(Sign(a.x))
    ensures s == Fin(0.0) && a.x == Fin(0.0) ==> r.x == NaN
  {
    DivByZero(a.x);
    DivByZero(a.y);
    NVec(Div(a.x, s), Div(a.y, s))
  }

  function Dot(a: NVec, b: NVec): Num
  {
    Add(Mul(a.x, b.x), Mul(a.y, b.y))
  }

  lemma DotFinite(a: NVec, b: NVec)
    requires Finite(a) && Finite(b)
    ensures Dot(a, b) == Fin(Vec2.Dot(Real(a), Real(b)))
  {
    FiniteArithmetic(a.x.v, b.x.v);
    FiniteArithmetic(a.y.v, b.y.v);
    FiniteArithmetic(a.x.v * b.x.v, a.y.v * b.y.v);
  }

  function Cross(a: NVec, b: NVec): Num
  {
    Sub(Mul(a.x, b.y), Mul(a.y, b.x))
  }

  lemma CrossFinite(a: NVec, b: NVec)
    requires Finite(a) && Finite(b)
    ensures Cross(a, b) == Fin(Vec2.Cross(Real(a), Real(b)))
  {
    FiniteArithmetic(a.x.v, b.y.v);
    FiniteArithmetic(a.y.v, b.x.v);
    FiniteArithmetic(a.x.v * b.y.v, a.y.v * b.x.v);
  }

  /** `perp`: the quarter turn. */
  function Perp(a: NVec): (r: NVec)
    ensures Finite(r) <==> Finite(a)
    ensures Finite(a) ==> Real(r) == Vec2.Perp(Real(a))
  {
    NVec(Neg(a.y), a.x)
  }

  function Negated(a: NVec): (r: NVec)
    ensures Finite(r) <==> Finite(a)
    ensures Finite(a) ==> Real(r) == Vec2.Negated(Real(a))
  {
    NVec(Neg(a.x), Neg(a.y))
  }

  /** `fromPoints(p1, p2)`: the displacement from p1 to p2. */
  function FromPoints(p1: NVec, p2: NVec): (r: NVec)
    ensures Finite(p1) && Finite(p2) ==> Finite(r) && Real(r) == Vec2.FromPoints(Real(p1), Real(p2))
  {
    NVec(Sub(p2.x, p1.x), Sub(p2.y, p1.y))
  }

  /** `v.project(w)`: w times (v.w)/(w.w).  For finite vectors with w not
      zero this is the real projection; onto the zero vector the ratio is
      0/0 and both coordinates are NaN. */
  function Project(v: NVec, w: NVec): (r: NVec)
    ensures Finite(v) && Finite(w) && Vec2.Dot(Real(w), Real(w)) != 0.0 ==>
              Finite(r) && Real(r) == Vec2.Project(Real(v), Real(w))
    ensures Finite(v) && w == Lift(Vec2.Zero) ==> r == NVec(NaN, NaN)
  {
    var r := Scaled(w, Div(Dot(v, w), Dot(w, w)));
    assert Finite(v) && Finite(w) && Vec2.Dot(Real(w), Real(w)) != 0.0 ==>
             Finite(r) && Real(r) == Vec2.Project(Real(v), Real(w)) by {
      if Finite(v) && Finite(w) && Vec2.Dot(Real(w), Real(w)) != 0.0 {
        ProjectFinite(v, w);
      }
    }
    assert Finite(v) && w == Lift(Vec2.Zero) ==> r == NVec(NaN, NaN) by {
      if Finite(v) && w == Lift(Vec2.Zero) {
        ProjectOntoZero(v, w);
      }
    }
    r
  }

  lemma ProjectFinite(v: NVec, w: NVec)
    requires Finite(v) && Finite(w) && Vec2.Dot(Real(w), Real(w)) != 0.0
    ensures var r := Scaled(w, Div(Dot(v, w), Dot(w, w)));
            Finite(r) && Real(r) == Vec2.Project(Real(v), Real(w))
  {
    var d := Vec2.Dot(Real(v), Real(w)) / Vec2.Dot(Real(w), Real(w));
    DotFinite(v, w);
    DotFinite(w, w);
    FiniteArithmetic(Vec2.Dot(Real(v), Real(w)), Vec2.Dot(Real(w), Real(w)));
    assert Div(Dot(v, w), Dot(w, w)) == Fin(d);
  }

  lemma ProjectOntoZero(v: NVec, w: NVec)
    requires Finite(v) && w == Lift(Vec2.Zero)
    ensures Scaled(w, Div(Dot(v, w), Dot(w, w))) == NVec(NaN, NaN)
  {
    assert w.x == Fin(0.0) && w.y == Fin(0.0);
    assert Mul(v.x, w.x) == Fin(0.0) by { FiniteArithmetic(v.x.v, 0.0); }
    assert Mul(v.y, w.y) == Fin(0.0) by { FiniteArithmetic(v.y.v, 0.0); }
    assert Add(Fin(0.0), Fin(0.0)) == Fin(0.0);
    assert Dot(v, w) == Fin(0.0);
    assert Dot(w, w) == Fin(0.0);
    assert Div(Dot(v, w), Dot(w, w)) == NaN;
    assert Mul(Fin(0.0), NaN) == NaN;
  }

  /** `v.perpendicular(w) = v - v.project(w)`: for finite vectors with w not
      zero the real rejection, orthogonal to w; against the zero vector
      both coordinates are NaN. */
  function Perpendicular(v: NVec, w: NVec): (r: NVec)
    ensures Finite(v) && Finite(w) && Vec2.Dot(Real(w), Real(w)) != 0.0 ==>
              Finite(r) && Real(r) == Vec2.Perpendicular(Real(v), Real(w))
    ensures Finite(v) && w == Lift(Vec2.Zero) ==> r == NVec(NaN, NaN)
  {
    Minus(v, Project(v, w))
  }

  /** Negating twice restores every vector, NaN and infinities included. */
  lemma NegatedTwice(a: NVec)
    ensures Negated(Negated(a)) == a
  {
  }
}
