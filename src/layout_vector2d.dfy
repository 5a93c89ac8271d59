// src/layout/vector2d.js (the LayoutVector2D class, a copy of the math
// one): a mutable plane vector whose coordinates are JavaScript numbers.
// The constructive operations return a fresh vector and leave the
// receiver alone; the `*Equals`, `sub`, `scale` and `negate` operations
// update x and y in place.

module LayoutVector2D {
  import opened JsNumber
  import opened NumVec2
  import Vec2

  class Vector2D {
    var x: Num
    var y: Num

    function Value(): NVec
      reads this
    {
      NVec(x, y)
    }

    /** Both coordinates finite, as every vector built from finite
        coordinates and never divided by zero is. */
    predicate IsFinite()
      reads this
    {
      Finite(Value())
    }

    function RealValue(): Vec2.Vec
      reads this
      requires IsFinite()
    {
      Real(Value())
    }

    constructor (x0: Num, y0: Num)
      ensures Value() == NVec(x0, y0)
    {
      x, y := x0, y0;
    }

    function Dot(that: Vector2D): Num
      reads this, that
    {
      NumVec2.Dot(Value(), that.Value())
    }

    function Cross(that: Vector2D): Num
      reads this, that
    {
      NumVec2.Cross(Value(), that.Value())
    }

    method Add(that: Vector2D) returns (r: Vector2D)
      ensures fresh(r) && r.Value() == Plus(Value(), that.Value())
    {
      r := new Vector2D(JsNumber.Add(x, that.x), JsNumber.Add(y, that.y));
    }

    method AddEquals(that: Vector2D) returns (r: Vector2D)
      modifies this
      ensures r == this && Value() == Plus(old(Value()), old(that.Value()))
    {
      var tx, ty := that.x, that.y;
      x := JsNumber.Add(x, tx);
      y := JsNumber.Add(y, ty);
      r := this;
    }

    method Subtract(that: Vector2D) returns (r: Vector2D)
      ensures fresh(r) && r.Value() == Minus(Value(), that.Value())
    {
      r := new Vector2D(JsNumber.Sub(x, that.x), JsNumber.Sub(y, that.y));
    }

    method SubtractEquals(that: Vector2D) returns (r: Vector2D)
      modifies this
      ensures r == this && Value() == Minus(old(Value()), old(that.Value()))
    {
      var tx, ty := that.x, that.y;
      x := JsNumber.Sub(x, tx);
      y := JsNumber.Sub(y, ty);
      r := this;
    }

    method Multiply(scalar: Num) returns (r: Vector2D)
      ensures fresh(r) && r.Value() == Scaled(Value(), scalar)
    {
      r := new Vector2D(Mul(x, scalar), Mul(y, scalar));
    }

    method MultiplyEquals(scalar: Num) returns (r: Vector2D)
      modifies this
      ensures r == this && Value() == Scaled(old(Value()), scalar)
    {
      x := Mul(x, scalar);
      y := Mul(y, scalar);
      r := this;
    }

    /** `divide`: a zero scalar gives infinities and NaN, as `Quotient`
        states. */
    method Divide(scalar: Num) returns (r: Vector2D)
      ensures fresh(r) && r.Value() == Quotient(Value(), scalar)
    {
      r := new Vector2D(Div(x, scalar), Div(y, scalar));
    }

    method DivideEquals(scalar: Num) returns (r: Vector2D)
      modifies this
      ensures r == this && Value() == Quotient(old(Value()), scalar)
    {
      x := Div(x, scalar);
      y := Div(y, scalar);
      r := this;
    }

    method Perp() returns (r: Vector2D)
      ensures fresh(r) && r.Value() == NumVec2.Perp(Value())
    {
      r := new Vector2D(Neg(y), x);
    }

    /** `project`: onto the zero vector both coordinates are NaN, as
        `NumVec2.Project` states. */
    method Project(that: Vector2D) returns (r: Vector2D)
      ensures fresh(r) && r.Value() == NumVec2.Project(Value(), that.Value())
    {
      var percent := Div(Dot(that), that.Dot(that));
      r := new Vector2D(Mul(that.x, percent), Mul(that.y, percent));
    }

    method Perpendicular(that: Vector2D) returns (r: Vector2D)
      ensures fresh(r) && r.Value() == NumVec2.Perpendicular(Value(), that.Value())
    {
      var p := Project(that);
      r := Subtract(p);
    }

    static method FromPoints(p1: Vector2D, p2: Vector2D) returns (r: Vector2D)
      ensures fresh(r) && r.Value() == NumVec2.FromPoints(p1.Value(), p2.Value())
    {
      r := new Vector2D(JsNumber.Sub(p2.x, p1.x), JsNumber.Sub(p2.y, p1.y));
    }

    method Scale(s: Num)
      modifies this
      ensures Value() == Scaled(old(Value()), s)
    {
      x := Mul(x, s);
      y := Mul(y, s);
    }

    method Sub(t1: Vector2D)
      modifies this
      ensures Value() == Minus(old(Value()), old(t1.Value()))
    {
      var tx, ty := t1.x, t1.y;
      x := JsNumber.Sub(x, tx);
      y := JsNumber.Sub(y, ty);
    }

    /** The zero-argument `negate` (the later definition, which replaces
        the one-argument form on the prototype). */
    method Negate()
      modifies this
      ensures Value() == Negated(old(Value()))
    {
      x := Neg(x);
      y := Neg(y);
    }
  }

  /** Negating twice restores the vector, whatever its coordinates. */
  method NegateTwice(v: Vector2D)
    modifies v
    ensures v.Value() == old(v.Value())
  {
    v.Negate();
    v.Negate();
    NegatedTwice(old(v.Value()));
  }
}
