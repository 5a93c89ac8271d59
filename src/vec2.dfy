// Plane vectors over the reals: the arithmetic shared by the two vector
// classes of the source (src/math/vector2d.js and src/layout/vector2d.js).
// Square roots, arc cosines and floating-point rounding are not modelled.

module Vec2 {

  datatype Vec = Vec(x: real, y: real)

  const Zero := Vec(0.0, 0.0)

  function Plus(a: Vec, b: Vec): Vec { Vec(a.x + b.x, a.y + b.y) }

  function Minus(a: Vec, b: Vec): (r: Vec)
    ensures Plus(r, b) == a
  {
    Vec(a.x - b.x, a.y - b.y)
  }

  function Scaled(a: Vec, s: real): Vec { Vec(a.x * s, a.y * s) }

  function Quotient(a: Vec, s: real): (r: Vec)
    requires s != 0.0
    ensures Scaled(r, s) == a
  {
    Vec(a.x / s, a.y / s)
  }

  function Dot(a: Vec, b: Vec): real { a.x * b.x + a.y * b.y }

  function Cross(a: Vec, b: Vec): real { a.x * b.y - a.y * b.x }

  /** The square of the distance between two points.  Distances are only
      ever compared, and the square root is increasing, so comparing the
      squares decides the same way. */
  function SqDist(a: Vec, b: Vec): real { Dot(Minus(a, b), Minus(a, b)) }

  /** The quarter turn: always orthogonal to its argument. */
  function Perp(a: Vec): (r: Vec)
    ensures Dot(a, r) == 0.0 && Dot(r, r) == Dot(a, a)
  {
    Vec(-a.y, a.x)
  }

  function Negated(a: Vec): (r: Vec)
    ensures Plus(a, r) == Zero
  {
    Vec(-a.x, -a.y)
  }

  /** `fromPoints(p1, p2)`: the displacement that carries p1 onto p2. */
  function FromPoints(p1: Vec, p2: Vec): (r: Vec)
    ensures Plus(p1, r) == p2
  {
    Vec(p2.x - p1.x, p2.y - p1.y)
  }

  /** `v.project(w)`: w scaled by (v.w)/(w.w); it is parallel to w. */
  function Project(v: Vec, w: Vec): (r: Vec)
    requires Dot(w, w) != 0.0
    ensures Cross(r, w) == 0.0
    ensures r == Scaled(w, Dot(v, w) / Dot(w, w))
  {
    Scaled(w, Dot(v, w) / Dot(w, w))
  }

  /** `v.perpendicular(w) = v - v.project(w)`, orthogonal to w. */
  function Perpendicular(v: Vec, w: Vec): (r: Vec)
    requires Dot(w, w) != 0.0
    ensures Dot(r, w) == 0.0
    ensures Plus(r, Project(v, w)) == v
  {
    var p := Project(v, w);
    var q := Dot(v, w) / Dot(w, w);
    assert q * Dot(w, w) == Dot(v, w);
    assert Dot(p, w) == q * Dot(w, w);
    Minus(v, p)
  }

  /** The cosine clamp of `angle`: the value handed to acos lies in [-1, 1]
      and equals its input whenever that input already does. */
  function ClampCosine(c: real): (r: real)
    ensures -1.0 <= r <= 1.0
    ensures -1.0 <= c <= 1.0 ==> r == c
    ensures c < -1.0 ==> r == -1.0
    ensures c > 1.0 ==> r == 1.0
  {
    var lo := if c < -1.0 then -1.0 else c;
    if lo > 1.0 then 1.0 else lo
  }

  lemma DotSymmetric(a: Vec, b: Vec)
    ensures Dot(a, b) == Dot(b, a)
  {
  }

  lemma CrossAntisymmetric(a: Vec, b: Vec)
    ensures Cross(a, b) == -Cross(b, a)
  {
  }

  lemma NegatedTwice(a: Vec)
    ensures Negated(Negated(a)) == a
  {
  }
}
