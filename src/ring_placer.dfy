// src/layout/ring_placer.js lays out the rings of a ring system one after
// another: a ring that shares atoms with an already placed ring is drawn
// as a regular polygon on the free side of the shared part, choosing the
// bridged, fused or spiro construction by the number of shared atoms.
// src/layout/coordinate_generator.js:327-848 declares its own
// `layoutRingPlacer` with a private copy of the same functions, and only
// that copy runs in the layout: ring_placer.js is never loaded.  Each
// member below cites both copies.  Apart from spelling they agree, except
// `resetUnplacedRingAtoms`, whose layout copy is modelled with the
// coordinate generator, and `getBridgeAtoms`, whose layout copy reads an
// atom's bonds with `Array.from` where ring_placer.js calls `getValues()`;
// both are read here as the bond set in insertion order.
//
// Atoms, bonds and rings are numbered as in the rest of the layout model;
// a ring is a RingRecord of atom and bond numbers.  The trigonometry is
// kept uninterpreted (the Trig record); what is proved is which atoms are
// drawn, in which order, which flags change and where errors are thrown.

module RingPlacer {
  import opened Wrappers
  import opened Seqs
  import opened Vec2
  import opened MolGraph
  import opened RingFinder
  import opened RingPartitioner
  import opened LayoutState
  import opened AtomPlacer

  /** `null.otherAtom(...)`. */
  const NullOtherAtomError := "TypeError: Cannot read properties of null (reading 'otherAtom')"
  /** `undefined.coord`, an absent bridge atom. */
  const UndefinedCoordError := "TypeError: Cannot read properties of undefined (reading 'coord')"

  /** The floating-point functions the placement code calls. */
  datatype Trig = Trig(
    /** `getNativeRingRadius(size, bondLength)`. */
    nativeRadius: (nat, real) -> real,
    /** `Math.sqrt`. */
    sqrt: real -> real,
    /** The vector `normalize()` leaves. */
    normalized: Vec -> Vec,
    /** `LayoutVector2D.angle`, the angle between two vectors. */
    between: (Vec, Vec) -> real,
    /** `layoutAtomPlacer.getAngle(x, y)`. */
    getAngle: (real, real) -> real,
    /** `toRadians(goog.math.angle(p.x, p.y, q.x, q.y))`. */
    pointAngle: (Vec, Vec) -> real,
    /** (cos(angle) * r, sin(angle) * r), as in `populatePolygonCorners`. */
    polar: (real, real) -> Vec)

  /** The `{atoms, bonds}` object naming the part a ring shares with the
      ring it is attached to. */
  datatype Fragment = Fragment(atoms: seq<nat>, bonds: seq<nat>)

  /** The `handleType` string of `placeConnectedRings`. */
  datatype Handle = Fused | Spiro | Bridged

  /** A quotient whose divisor the callers never make zero for real
      rings; a zero divisor gives 0 here. */
  function Ratio(x: real, parts: int): real
  {
    if parts == 0 then 0.0 else x / parts as real
  }

  /** Every atom and bond of the fragment exists. */
  predicate FragmentIn(g: Graph, frag: Fragment)
  {
    (forall k :: 0 <= k < |frag.atoms| ==> frag.atoms[k] < g.atomCount) &&
    (forall k :: 0 <= k < |frag.bonds| ==> frag.bonds[k] < |g.bonds|)
  }

  /** Every atom and bond of the ring exists. */
  predicate RingIn(g: Graph, ring: RingRecord)
  {
    (forall k :: 0 <= k < |ring.atoms| ==> ring.atoms[k] < g.atomCount) &&
    (forall k :: 0 <= k < |ring.bonds| ==> ring.bonds[k] < |g.bonds|)
  }

  /** The layout has one entry per atom and a symbol per atom. */
  predicate Fits(g: Graph, st: Layout, symbols: seq<string>)
    reads st
  {
    g.WellFormed() && |st.coords| == g.atomCount && |st.placed| == g.atomCount && |symbols| == g.atomCount
  }

  // ------------------------------------------------------- direction and start

  /** `findDirection(ringCenter, atom1, atom2)` (ring_placer.js:197-214, coordinate_generator.js:481-497):
      the sign of the angle step.  For a vertical pair it is -1 iff the
      centre lies to the right; otherwise it is -1 iff the centre lies
      below the line through the two atoms. */
  function FindDirection(center: Vec, p1: Vec, p2: Vec): (r: int)
    ensures r == 1 || r == -1
    ensures p1.x == p2.x ==> (r == -1 <==> center.x > p1.x)
  {
    var diff := Minus(p1, p2);
    if diff.x == 0.0 then
      (if center.x > p1.x then -1 else 1)
    else if center.y - p1.y < (center.x - p1.x) * diff.y / diff.x then -1
    else 1
  }

  /** For a pair that is not vertical, the direction is -1 exactly when
      the cross product of p1 - p2 with center - p1 has the sign opposite
      to p1.x - p2.x: the side test without a slope. */
  lemma FindDirectionByCross(center: Vec, p1: Vec, p2: Vec)
    requires p1.x != p2.x
    ensures FindDirection(center, p1, p2) == -1 <==>
      (p1.x - p2.x) * Cross(Minus(p1, p2), Minus(center, p1)) < 0.0
  {
    var dx, dy := p1.x - p2.x, p1.y - p2.y;
    var u, v := center.y - p1.y, center.x - p1.x;
    var q := dy / dx;
    assert dy == q * dx;
    var z := u - v * q;
    assert Cross(Minus(p1, p2), Minus(center, p1)) == dx * u - dy * v;
    assert dx * (dx * u - dy * v) == (dx * dx) * z;
    assert dx * dx > 0.0;
    assert z < 0.0 ==> (dx * dx) * z < 0.0;
    assert z >= 0.0 ==> (dx * dx) * z >= 0.0;
  }

  /** The direction depends on the line through the two atoms, not on
      which of them is named first. */
  lemma FindDirectionSymmetric(center: Vec, p1: Vec, p2: Vec)
    ensures FindDirection(center, p1, p2) == FindDirection(center, p2, p1)
  {
    if p1.x != p2.x {
      FindDirectionByCross(center, p1, p2);
      FindDirectionByCross(center, p2, p1);
      var d := Minus(p1, p2);
      assert Cross(Minus(p2, p1), Minus(center, p2)) == -Cross(d, Minus(center, p1));
    }
  }

  /** Is the centre on the line through p1 and p2? */
  predicate OnLine(center: Vec, p1: Vec, p2: Vec)
  {
    if p1.x == p2.x then center.x == p1.x
    else Cross(Minus(p1, p2), Minus(center, p1)) == 0.0
  }

  /** The direction `placeFusedRing` computes inline
      (ring_placer.js:297-333, coordinate_generator.js:579-613). */
  function FusedDirection(center: Vec, p1: Vec, p2: Vec): (r: int)
    ensures r == 1 || r == -1
  {
    var xDiff := p1.x - p2.x;
    var yDiff := p1.y - p2.y;
    if xDiff == 0.0 then
      (if center.x < p1.x then 1 else -1)
    else if center.y - p1.y > (center.x - p1.x) * yDiff / xDiff then 1
    else -1
  }

  /** The fused construction's direction agrees with `findDirection`
      except for a centre on the line through the two atoms, where the
      fused one is -1 and `findDirection` is 1. */
  lemma FusedDirectionAgrees(center: Vec, p1: Vec, p2: Vec)
    ensures !OnLine(center, p1, p2) ==> FusedDirection(center, p1, p2) == FindDirection(center, p1, p2)
    ensures OnLine(center, p1, p2) ==> FusedDirection(center, p1, p2) == -1 && FindDirection(center, p1, p2) == 1
  {
    if p1.x != p2.x {
      var dx, dy := p1.x - p2.x, p1.y - p2.y;
      var u, v := center.y - p1.y, center.x - p1.x;
      var q := dy / dx;
      assert dy == q * dx;
      assert Cross(Minus(p1, p2), Minus(center, p1)) == dx * (u - v * q);
      assert dx * (u - v * q) == 0.0 <==> u == v * q;
    }
  }

  /** Lexicographically above: larger x, or equal x and larger y. */
  predicate LexAbove(p: Vec, q: Vec)
  {
    p.x > q.x || (p.x == q.x && p.y > q.y)
  }

  /** `findStartAtom(ringCenter, atom1, atom2)` (ring_placer.js:216-232, coordinate_generator.js:499-515):
      the atom further along x, or along y for a vertical pair; atom2 on a
      tie.  The comments at 220 and 226 say "lower" and "left", but the
      comparisons pick the larger coordinate.  The centre is not read. */
  function FindStartAtom(a1: nat, a2: nat, p1: Vec, p2: Vec): (r: nat)
    ensures r == (if LexAbove(p1, p2) then a1 else a2)
  {
    var diff := Minus(p1, p2);
    if diff.x == 0.0 then
      (if p1.y > p2.y then a1 else a2)
    else if p1.x > p2.x then a1
    else a2
  }

  /** For two atoms at different places the choice does not depend on
      the order they are passed in. */
  lemma FindStartAtomSymmetric(a1: nat, a2: nat, p1: Vec, p2: Vec)
    requires p1 != p2
    ensures FindStartAtom(a1, a2, p1, p2) == FindStartAtom(a2, a1, p2, p1)
  {
    assert LexAbove(p1, p2) <==> !LexAbove(p2, p1);
  }

  // ------------------------------------------------------------ shared parts

  /** `getIntersectingAtoms(ring1, ring2)` and `getIntersectingBonds`
      (ring_placer.js:409-427, coordinate_generator.js:690-708): the members of list2 that list1 has, in
      list2's order. */
  function Intersecting(list1: seq<nat>, list2: seq<nat>): (r: seq<nat>)
    ensures forall x :: x in r <==> x in list1 && x in list2
    ensures RingPartitioner.Subsequence(r, list2)
  {
    if list2 == [] then []
    else
      var rest := Intersecting(list1, list2[1..]);
      assert forall x :: x in list2 <==> x == list2[0] || x in list2[1..];
      if list2[0] in list1 then [list2[0]] + rest
      else
        RingPartitioner.SubsequenceSkip(rest, list2);
        rest
  }

  /** The other atoms of those bonds in `bonds` that are also in the
      shared bond list, as seen from atom a. */
  function BridgeFrom(g: Graph, a: nat, bonds: seq<nat>, shared: seq<nat>): (r: seq<nat>)
    requires forall k :: 0 <= k < |bonds| ==> bonds[k] < |g.bonds|
  {
    if bonds == [] then []
    else
      var other := OtherAtom(g.bonds[bonds[0]], a);
      (if bonds[0] in shared && other.Some? then [other.value] else []) + BridgeFrom(g, a, bonds[1..], shared)
  }

  /** The values BridgeFrom lists are the other ends, seen from a, of the
      bonds in `bonds` that are shared. */
  lemma {:induction false} BridgeFromMembers(g: Graph, a: nat, bonds: seq<nat>, shared: seq<nat>)
    requires forall k :: 0 <= k < |bonds| ==> bonds[k] < |g.bonds|
    ensures forall x :: x in BridgeFrom(g, a, bonds, shared) <==>
      exists k :: 0 <= k < |bonds| && bonds[k] in shared && OtherAtom(g.bonds[bonds[k]], a) == Some(x)
  {
    if bonds != [] {
      BridgeFromMembers(g, a, bonds[1..], shared);
      assert forall k :: 1 <= k < |bonds| ==> bonds[k] == bonds[1..][k - 1];
    }
  }

  /** `getBridgeAtoms(sharedFragment)` (ring_placer.js:243-253, coordinate_generator.js:526-536): for each
      shared atom in turn, the other atom of each of its bonds (bond-set
      order) that is a shared bond. */
  function GetBridgeAtoms(g: Graph, frag: Fragment): (r: seq<nat>)
    decreases |frag.atoms|
  {
    if frag.atoms == [] then []
    else
      var a := frag.atoms[0];
      BridgeFrom(g, a, IncidentBonds(g, a), frag.bonds) + GetBridgeAtoms(g, Fragment(frag.atoms[1..], frag.bonds))
  }

  /** x is the other end of a shared bond seen from a shared atom. */
  predicate BridgeEnd(g: Graph, frag: Fragment, x: nat)
  {
    exists a, b :: a in frag.atoms && b in frag.bonds && b < |g.bonds| && Touches(g, b, a) &&
      OtherAtom(g.bonds[b], a) == Some(x)
  }

  /** A value is a bridge atom exactly when it is the other end of a
      shared bond seen from a shared atom. */
  lemma {:induction false} BridgeAtomsMembers(g: Graph, frag: Fragment)
    ensures forall x :: x in GetBridgeAtoms(g, frag) <==> BridgeEnd(g, frag, x)
    decreases |frag.atoms|
  {
    if frag.atoms != [] {
      var tail := Fragment(frag.atoms[1..], frag.bonds);
      BridgeAtomsMembers(g, tail);
      forall x
        ensures x in GetBridgeAtoms(g, frag) <==> BridgeEnd(g, frag, x)
      {
        BridgeStep(g, frag, x);
      }
    }
  }

  /** One shared atom more: the bridge atoms it contributes are the
      other ends of its shared bonds. */
  lemma BridgeStep(g: Graph, frag: Fragment, x: nat)
    requires frag.atoms != []
    requires x in GetBridgeAtoms(g, Fragment(frag.atoms[1..], frag.bonds)) <==>
      BridgeEnd(g, Fragment(frag.atoms[1..], frag.bonds), x)
    ensures x in GetBridgeAtoms(g, frag) <==> BridgeEnd(g, frag, x)
  {
    var a := frag.atoms[0];
    var tail := Fragment(frag.atoms[1..], frag.bonds);
    var head := BridgeFrom(g, a, IncidentBonds(g, a), frag.bonds);
    assert GetBridgeAtoms(g, frag) == head + GetBridgeAtoms(g, tail);
    if x in head {
      BridgeHeadEnd(g, frag, x);
    }
    if x in GetBridgeAtoms(g, tail) {
      BridgeTailEnd(g, frag, x);
    }
    if BridgeEnd(g, frag, x) {
      BridgeEndSplit(g, frag, x);
    }
  }

  lemma BridgeHeadEnd(g: Graph, frag: Fragment, x: nat)
    requires frag.atoms != []
    requires x in BridgeFrom(g, frag.atoms[0], IncidentBonds(g, frag.atoms[0]), frag.bonds)
    ensures BridgeEnd(g, frag, x)
  {
    var a := frag.atoms[0];
    var inc := IncidentBonds(g, a);
    BridgeFromMembers(g, a, inc, frag.bonds);
    var k :| 0 <= k < |inc| && inc[k] in frag.bonds && OtherAtom(g.bonds[inc[k]], a) == Some(x);
    assert a in frag.atoms && Touches(g, inc[k], a);
  }

  lemma BridgeTailEnd(g: Graph, frag: Fragment, x: nat)
    requires frag.atoms != []
    requires BridgeEnd(g, Fragment(frag.atoms[1..], frag.bonds), x)
    ensures BridgeEnd(g, frag, x)
  {
    var a', b :| a' in frag.atoms[1..] && b in frag.bonds && b < |g.bonds| && Touches(g, b, a') &&
      OtherAtom(g.bonds[b], a') == Some(x);
    assert a' in frag.atoms;
  }

  lemma BridgeEndSplit(g: Graph, frag: Fragment, x: nat)
    requires frag.atoms != []
    requires BridgeEnd(g, frag, x)
    ensures x in BridgeFrom(g, frag.atoms[0], IncidentBonds(g, frag.atoms[0]), frag.bonds) ||
      BridgeEnd(g, Fragment(frag.atoms[1..], frag.bonds), x)
  {
    var a := frag.atoms[0];
    var inc := IncidentBonds(g, a);
    var a', b :| a' in frag.atoms && b in frag.bonds && b < |g.bonds| && Touches(g, b, a') &&
      OtherAtom(g.bonds[b], a') == Some(x);
    if a' == a {
      BridgeFromMembers(g, a, inc, frag.bonds);
      var k :| 0 <= k < |inc| && inc[k] == b;
      assert x in BridgeFrom(g, a, inc, frag.bonds);
    } else {
      assert a' in frag.atoms[1..];
    }
  }

  /** A shared bond whose two ends are both shared atoms contributes
      both of them: a two-atom fragment joined by its one bond yields
      each atom once, the other end first. */
  lemma BridgeAtomsOfOneBond(g: Graph, u: nat, v: nat, b: nat)
    requires b < |g.bonds| && g.bonds[b] == (u, v) && u != v
    ensures GetBridgeAtoms(g, Fragment([u, v], [b])) == [v, u]
  {
    BridgeFromOwn(g, u, b);
    BridgeFromOwn(g, v, b);
    assert [u, v] == [u] + [v] && [v] == [v] + [];
    assert GetBridgeAtoms(g, Fragment([], [b])) == [];
    BridgeAtomsCons(g, v, [], [b]);
    assert GetBridgeAtoms(g, Fragment([v], [b])) == [u];
    BridgeAtomsCons(g, u, [v], [b]);
  }

  /** Against the one shared bond b, an end of b yields b's other end. */
  lemma BridgeFromOwn(g: Graph, a: nat, b: nat)
    requires b < |g.bonds| && Touches(g, b, a)
    ensures BridgeFrom(g, a, IncidentBonds(g, a), [b]) == [OtherAtom(g.bonds[b], a).value]
  {
    BridgeFromOne(g, a, IncidentBonds(g, a), b);
  }

  /** GetBridgeAtoms unfolded once. */
  lemma BridgeAtomsCons(g: Graph, a: nat, rest: seq<nat>, shared: seq<nat>)
    ensures GetBridgeAtoms(g, Fragment([a] + rest, shared)) ==
      BridgeFrom(g, a, IncidentBonds(g, a), shared) + GetBridgeAtoms(g, Fragment(rest, shared))
  {
    assert ([a] + rest)[0] == a && ([a] + rest)[1..] == rest;
  }

  /** Against the one shared bond b, an atom's bonds yield b's other end
      once if b is among them, and nothing otherwise. */
  lemma BridgeFromOne(g: Graph, a: nat, bonds: seq<nat>, b: nat)
    requires b < |g.bonds|
    requires forall k :: 0 <= k < |bonds| ==> bonds[k] < |g.bonds|
    requires forall i, j :: 0 <= i < j < |bonds| ==> bonds[i] < bonds[j]
    requires Touches(g, b, a)
    ensures BridgeFrom(g, a, bonds, [b]) == if b in bonds then [OtherAtom(g.bonds[b], a).value] else []
  {
    if b in bonds {
      BridgeFromPresent(g, a, bonds, b);
    } else {
      BridgeFromAbsent(g, a, bonds, b);
    }
  }

  lemma {:induction false} BridgeFromAbsent(g: Graph, a: nat, bonds: seq<nat>, b: nat)
    requires forall k :: 0 <= k < |bonds| ==> bonds[k] < |g.bonds|
    requires b !in bonds
    ensures BridgeFrom(g, a, bonds, [b]) == []
  {
    if bonds != [] {
      assert bonds == [bonds[0]] + bonds[1..];
      BridgeFromAbsent(g, a, bonds[1..], b);
    }
  }

  lemma {:induction false} BridgeFromPresent(g: Graph, a: nat, bonds: seq<nat>, b: nat)
    requires b < |g.bonds|
    requires forall k :: 0 <= k < |bonds| ==> bonds[k] < |g.bonds|
    requires forall i, j :: 0 <= i < j < |bonds| ==> bonds[i] < bonds[j]
    requires Touches(g, b, a) && b in bonds
    ensures BridgeFrom(g, a, bonds, [b]) == [OtherAtom(g.bonds[b], a).value]
  {
    var tl := bonds[1..];
    if bonds[0] == b {
      HeadNotInTail(bonds);
      BridgeFromAbsent(g, a, tl, b);
    } else {
      assert bonds == [bonds[0]] + tl;
      assert forall i, j :: 0 <= i < j < |tl| ==> tl[i] < tl[j];
      BridgeFromPresent(g, a, tl, b);
    }
  }

  /** In an increasing list the first value does not come back. */
  lemma HeadNotInTail(bonds: seq<nat>)
    requires bonds != [] && forall i, j :: 0 <= i < j < |bonds| ==> bonds[i] < bonds[j]
    ensures bonds[0] !in bonds[1..]
  {
    forall k | 0 <= k < |bonds| - 1
      ensures bonds[1..][k] != bonds[0]
    {
      assert bonds[0] < bonds[k + 1];
    }
  }

  // ---------------------------------------------------------------- walks

  /** x is the other end, seen from a, of one of the bonds. */
  predicate Step(g: Graph, bonds: seq<nat>, a: nat, x: nat)
    requires forall k :: 0 <= k < |bonds| ==> bonds[k] < |g.bonds|
  {
    exists k :: 0 <= k < |bonds| && OtherAtom(g.bonds[bonds[k]], a) == Some(x)
  }

  /** atoms is a walk from `from` along the bonds: each atom is joined to
      the one before it by one of them. */
  predicate Walk(g: Graph, bonds: seq<nat>, from: nat, atoms: seq<nat>)
    requires forall k :: 0 <= k < |bonds| ==> bonds[k] < |g.bonds|
  {
    forall k {:trigger Prev(from, atoms, k)} :: 0 <= k < |atoms| ==> Step(g, bonds, Prev(from, atoms, k), atoms[k])
  }

  /** The atom before position k of a walk from `from`. */
  function Prev(from: nat, atoms: seq<nat>, k: nat): nat
    requires k <= |atoms|
  {
    if k == 0 then from else atoms[k - 1]
  }

  /** The step from bond f of the list. */
  lemma StepIntro(g: Graph, bonds: seq<nat>, a: nat, f: nat)
    requires forall k :: 0 <= k < |bonds| ==> bonds[k] < |g.bonds|
    requires f < |bonds| && OtherAtom(g.bonds[bonds[f]], a).Some?
    ensures Step(g, bonds, a, OtherAtom(g.bonds[bonds[f]], a).value)
  {
  }

  /** A walk grows by one step at its end. */
  lemma WalkSnoc(g: Graph, bonds: seq<nat>, from: nat, atoms: seq<nat>, x: nat)
    requires forall k :: 0 <= k < |bonds| ==> bonds[k] < |g.bonds|
    requires Walk(g, bonds, from, atoms) && Step(g, bonds, Prev(from, atoms, |atoms|), x)
    ensures Walk(g, bonds, from, atoms + [x])
  {
    var w := atoms + [x];
    forall k | 0 <= k < |w|
      ensures Step(g, bonds, Prev(from, w, k), w[k])
    {
      if k < |atoms| {
        assert Step(g, bonds, Prev(from, atoms, k), atoms[k]);
        assert Prev(from, w, k) == Prev(from, atoms, k) && w[k] == atoms[k];
      } else {
        assert Prev(from, w, k) == Prev(from, atoms, |atoms|);
      }
    }
  }

  /** A walk grows by one step at its start. */
  lemma WalkCons(g: Graph, bonds: seq<nat>, from: nat, x: nat, rest: seq<nat>)
    requires forall k :: 0 <= k < |bonds| ==> bonds[k] < |g.bonds|
    requires Step(g, bonds, from, x) && Walk(g, bonds, x, rest)
    ensures Walk(g, bonds, from, [x] + rest)
  {
    var w := [x] + rest;
    forall k | 0 <= k < |w|
      ensures Step(g, bonds, Prev(from, w, k), w[k])
    {
      if k > 0 {
        assert Step(g, bonds, Prev(x, rest, k - 1), rest[k - 1]);
        assert Prev(from, w, k) == Prev(x, rest, k - 1) && w[k] == rest[k - 1];
      }
    }
  }

  /** A walk along some bonds is a walk along any list holding them. */
  lemma WalkWiden(g: Graph, small: seq<nat>, big: seq<nat>, from: nat, atoms: seq<nat>)
    requires forall k :: 0 <= k < |big| ==> big[k] < |g.bonds|
    requires forall k :: 0 <= k < |small| ==> small[k] in big
    requires forall k :: 0 <= k < |small| ==> small[k] < |g.bonds|
    requires Walk(g, small, from, atoms)
    ensures Walk(g, big, from, atoms)
  {
    forall k | 0 <= k < |atoms|
      ensures Step(g, big, Prev(from, atoms, k), atoms[k])
    {
      var prev := Prev(from, atoms, k);
      assert Step(g, small, prev, atoms[k]);
      var i :| 0 <= i < |small| && OtherAtom(g.bonds[small[i]], prev) == Some(atoms[k]);
      assert small[i] in big;
      var j :| 0 <= j < |big| && big[j] == small[i];
      StepIntro(g, big, prev, j);
    }
  }

  /** x is an atom of the molecule and an end of one of the bonds. */
  predicate OnBonds(g: Graph, bonds: seq<nat>, x: nat)
    requires forall k :: 0 <= k < |bonds| ==> bonds[k] < |g.bonds|
  {
    x < g.atomCount && exists i :: 0 <= i < |bonds| && Touches(g, bonds[i], x)
  }

  /** Every atom of a walk is an end of one of the bonds. */
  lemma WalkTouches(g: Graph, bonds: seq<nat>, from: nat, atoms: seq<nat>)
    requires g.WellFormed() && forall k :: 0 <= k < |bonds| ==> bonds[k] < |g.bonds|
    requires Walk(g, bonds, from, atoms)
    ensures forall k :: 0 <= k < |atoms| ==>
      OnBonds(g, bonds, atoms[k])
  {
    forall k | 0 <= k < |atoms|
      ensures OnBonds(g, bonds, atoms[k])
    {
      StepTouches(g, bonds, Prev(from, atoms, k), atoms[k]);
    }
  }

  /** The far end of a step is an atom of the molecule and an end of one
      of the bonds. */
  lemma StepTouches(g: Graph, bonds: seq<nat>, a: nat, x: nat)
    requires g.WellFormed() && forall k :: 0 <= k < |bonds| ==> bonds[k] < |g.bonds|
    requires Step(g, bonds, a, x)
    ensures OnBonds(g, bonds, x)
  {
    var i :| 0 <= i < |bonds| && OtherAtom(g.bonds[bonds[i]], a) == Some(x);
    var bond := g.bonds[bonds[i]];
    assert x == bond.0 || x == bond.1;
    assert Touches(g, bonds[i], x);
  }

  /** The position of the first bond touching a (`goog.array.find` with
      `b.otherAtom(atom)`, which is an atom, so truthy, exactly when b
      touches atom). */
  function FirstTouching(g: Graph, bonds: seq<nat>, a: nat): (r: Option<nat>)
    requires forall k :: 0 <= k < |bonds| ==> bonds[k] < |g.bonds|
    ensures r.Some? ==> (r.value < |bonds| && Touches(g, bonds[r.value], a) &&
      forall k :: 0 <= k < r.value ==> !Touches(g, bonds[k], a))
    ensures r.None? ==> forall k :: 0 <= k < |bonds| ==> !Touches(g, bonds[k], a)
  {
    if bonds == [] then None
    else if Touches(g, bonds[0], a) then Some(0)
    else
      var rest := FirstTouching(g, bonds[1..], a);
      assert forall k :: 1 <= k < |bonds| ==> bonds[k] == bonds[1..][k - 1];
      if rest.Some? then Some(rest.value + 1) else None
  }

  /** `atomsInPlacementOrder(atom, bond, bonds)` (ring_placer.js:169-184, coordinate_generator.js:457-468):
      take the first bond touching the atom, drop every copy of it, step
      to its other end and recurse while bonds remain.  The `bond`
      argument is never read and is left out.  If no bond touches the
      atom while bonds remain, `next_bond` is null and the call throws.
      Each call consumes a bond, so the walk has fewer atoms than there
      are bonds, and exactly one fewer when the bonds are distinct. */
  function AtomsInPlacementOrder(g: Graph, atom: nat, bonds: seq<nat>): (r: Result<seq<nat>>)
    requires g.WellFormed() && forall k :: 0 <= k < |bonds| ==> bonds[k] < |g.bonds|
    ensures bonds == [] ==> r == Ok([])
    ensures r.Ok? && bonds != [] ==> |r.value| < |bonds|
    ensures r.Ok? && bonds != [] && Distinct(bonds) ==> |r.value| == |bonds| - 1
    ensures r.Ok? ==> Walk(g, bonds, atom, r.value)
    ensures r.Err? ==> r.error == NullOtherAtomError
    decreases |bonds|
  {
    var i := FirstTouching(g, bonds, atom);
    if i.None? then
      // nothing is removed, so bonds remain unless there were none
      if bonds == [] then Ok([]) else Err(NullOtherAtomError)
    else
      var b := bonds[i.value];
      var remaining := Without<nat>(bonds, [b]);
      DropRingBond(g, bonds, b);
      if |remaining| == 0 then Ok([])
      else
        var next := OtherAtom(g.bonds[b], atom).value;
        var rest := AtomsInPlacementOrder(g, next, remaining);
        if rest.Err? then rest
        else
          PlacementCons(g, atom, bonds, remaining, b, rest.value);
          Ok([next] + rest.value)
  }

  /** DropBond on bonds of the molecule: what is left are bonds of the
      molecule too. */
  lemma DropRingBond(g: Graph, bonds: seq<nat>, b: nat)
    requires forall k :: 0 <= k < |bonds| ==> bonds[k] < |g.bonds|
    requires b in bonds
    ensures |Without<nat>(bonds, [b])| < |bonds|
    ensures Distinct(bonds) ==> |Without<nat>(bonds, [b])| == |bonds| - 1 && Distinct(Without<nat>(bonds, [b]))
    ensures forall k :: 0 <= k < |Without<nat>(bonds, [b])| ==> Without<nat>(bonds, [b])[k] < |g.bonds|
  {
    DropBond(bonds, b);
    forall k | 0 <= k < |Without<nat>(bonds, [b])|
      ensures Without<nat>(bonds, [b])[k] < |g.bonds|
    {
      var j :| 0 <= j < |bonds| && bonds[j] == Without<nat>(bonds, [b])[k];
    }
  }

  /** A walk on from the other end of bond b, along the bonds left once
      it is dropped, gives a walk from atom along all of them, one atom
      longer. */
  lemma PlacementCons(g: Graph, atom: nat, bonds: seq<nat>, remaining: seq<nat>, b: nat, rest: seq<nat>)
    requires forall k :: 0 <= k < |bonds| ==> bonds[k] < |g.bonds|
    requires b in bonds && Touches(g, b, atom) && remaining == Without<nat>(bonds, [b])
    requires forall k :: 0 <= k < |remaining| ==> remaining[k] < |g.bonds|
    requires Walk(g, remaining, OtherAtom(g.bonds[b], atom).value, rest)
    ensures Walk(g, bonds, atom, [OtherAtom(g.bonds[b], atom).value] + rest)
  {
    var next := OtherAtom(g.bonds[b], atom).value;
    DropBond(bonds, b);
    WalkWiden(g, remaining, bonds, next, rest);
    var j :| 0 <= j < |bonds| && bonds[j] == b;
    StepIntro(g, bonds, atom, j);
    WalkCons(g, bonds, atom, next, rest);
  }

  /** Dropping every copy of a bond that occurs: fewer bonds, the same
      ones except it, and exactly one fewer when there are no repeats. */
  lemma DropBond(bonds: seq<nat>, b: nat)
    requires b in bonds
    ensures |Without<nat>(bonds, [b])| < |bonds|
    ensures forall x :: x in Without<nat>(bonds, [b]) <==> x in bonds && x != b
    ensures forall k :: 0 <= k < |Without<nat>(bonds, [b])| ==> Without<nat>(bonds, [b])[k] in bonds
    ensures Distinct(bonds) ==> |Without<nat>(bonds, [b])| == |bonds| - 1 && Distinct(Without<nat>(bonds, [b]))
  {
    WithoutDrops(bonds, b);
    forall x
      ensures x in Without<nat>(bonds, [b]) <==> x in bonds && x != b
    {
      WithoutMember(bonds, [b], x);
    }
    if Distinct(bonds) {
      WithoutOne(bonds, b);
      WithoutDistinct(bonds, [b]);
    }
  }

  /** Can ring bond f follow `bond` at `atom` in `getNextBond`? */
  predicate NextBondCandidate(g: Graph, ringBonds: seq<nat>, bond: Option<nat>, atom: nat, f: nat)
    requires f < |ringBonds| && ringBonds[f] < |g.bonds|
  {
    Some(ringBonds[f]) != bond && Touches(g, ringBonds[f], atom)
  }

  /** `getNextBond(ring, bond, atom)` (ring_placer.js:351-358, coordinate_generator.js:630-638): the first
      ring bond other than `bond` that touches `atom`, or null.  An
      absent `bond` (None) differs from every bond. */
  method GetNextBond(g: Graph, ringBonds: seq<nat>, bond: Option<nat>, atom: nat) returns (r: Option<nat>)
    requires forall k :: 0 <= k < |ringBonds| ==> ringBonds[k] < |g.bonds|
    ensures r.None? <==> forall f :: 0 <= f < |ringBonds| ==> !NextBondCandidate(g, ringBonds, bond, atom, f)
    ensures r.Some? ==>
      exists f :: 0 <= f < |ringBonds| && ringBonds[f] == r.value &&
        NextBondCandidate(g, ringBonds, bond, atom, f) &&
        forall e :: 0 <= e < f ==> !NextBondCandidate(g, ringBonds, bond, atom, e)
  {
    for f := 0 to |ringBonds|
      invariant forall e :: 0 <= e < f ==> !NextBondCandidate(g, ringBonds, bond, atom, e)
    {
      if NextBondCandidate(g, ringBonds, bond, atom, f) {
        return Some(ringBonds[f]);
      }
    }
    return None;
  }

  /** The walk of `placeFusedRing` (ring_placer.js:336-345, coordinate_generator.js:617-625): |bonds| - 2
      times, take the next ring bond at the current atom and step to its
      other end.  A null next bond makes the call throw. */
  method WalkFusedRing(g: Graph, ringBonds: seq<nat>, start: nat, bond0: Option<nat>) returns (r: Result<seq<nat>>)
    requires g.WellFormed() && forall k :: 0 <= k < |ringBonds| ==> ringBonds[k] < |g.bonds|
    ensures r.Ok? ==> |r.value| == (if |ringBonds| >= 2 then |ringBonds| - 2 else 0)
    ensures r.Ok? ==> Walk(g, ringBonds, start, r.value)
    ensures r.Err? ==> r.error == NullOtherAtomError
  {
    var currentAtom := start;
    var currentBond := bond0;
    var atomsToDraw: seq<nat> := [];
    var x1 := 0;
    var x2 := |ringBonds| - 2;
    while x1 < x2
      invariant 0 <= x1 && (x2 >= 0 ==> x1 <= x2) && (x2 < 0 ==> x1 == 0) && |atomsToDraw| == x1
      invariant Walk(g, ringBonds, start, atomsToDraw)
      invariant currentAtom == if x1 == 0 then start else atomsToDraw[x1 - 1]
    {
      var next := GetNextBond(g, ringBonds, currentBond, currentAtom);
      if next.None? {
        return Err(NullOtherAtomError);
      }
      var f :| 0 <= f < |ringBonds| && ringBonds[f] == next.value && NextBondCandidate(g, ringBonds, currentBond, currentAtom, f);
      currentBond := next;
      currentAtom := OtherAtom(g.bonds[next.value], currentAtom).value;
      StepIntro(g, ringBonds, Prev(start, atomsToDraw, x1), f);
      WalkSnoc(g, ringBonds, start, atomsToDraw, currentAtom);
      atomsToDraw := atomsToDraw + [currentAtom];
      x1 := x1 + 1;
    }
    return Ok(atomsToDraw);
  }

  // ------------------------------------------------------------- placement

  /** `getAtoms2DCenter(atoms)` (atom_placer.js:273-287): the mean
      position of the listed atoms that are ISPLACED. */
  function PlacedCenter(coords: seq<Vec>, placed: seq<bool>, atoms: seq<nat>): Vec
    requires |coords| == |placed| && forall k :: 0 <= k < |atoms| ==> atoms[k] < |coords|
  {
    var sum := PlacedSum(coords, placed, atoms);
    Vec(Ratio(sum.0.x, sum.1), Ratio(sum.0.y, sum.1))
  }

  function PlacedSum(coords: seq<Vec>, placed: seq<bool>, atoms: seq<nat>): (Vec, nat)
    requires |coords| == |placed| && forall k :: 0 <= k < |atoms| ==> atoms[k] < |coords|
  {
    if atoms == [] then (Zero, 0)
    else
      var rest := PlacedSum(coords, placed, atoms[1..]);
      if placed[atoms[0]] then (Plus(coords[atoms[0]], rest.0), rest.1 + 1) else rest
  }

  /** `placeSpiroRing` (ring_placer.js:376-392, coordinate_generator.js:655-673): the walk starts at the
      one shared atom and every atom it reaches is drawn and flagged
      ISPLACED; on a throw nothing has changed. */
  method PlaceSpiroRing(g: Graph, st: Layout, symbols: seq<string>, ring: RingRecord, frag: Fragment,
                        fragCenter: Vec, ringCenterVector: Vec, bondLength: real, tr: Trig)
    returns (r: Outcome, ghost drawn: seq<nat>)
    requires Fits(g, st, symbols) && RingIn(g, ring) && FragmentIn(g, frag) && |frag.atoms| > 0
    modifies st`coords, st`placed
    ensures |st.coords| == old(|st.coords|)
    ensures r.Pass? ==> st.placed == SetAll(old(st.placed), drawn, true)
    ensures r.Pass? ==> Walk(g, ring.bonds, frag.atoms[0], drawn)
    ensures r.Pass? && ring.bonds != [] && Distinct(ring.bonds) ==> |drawn| == |ring.bonds| - 1
    ensures forall a :: 0 <= a < |st.coords| && a !in drawn ==> st.coords[a] == old(st.coords[a])
    ensures r.Fail? ==> r.error == NullOtherAtomError && st.placed == old(st.placed)
  {
    var radius := tr.nativeRadius(|ring.atoms|, bondLength);
    var rcv := Scaled(tr.normalized(ringCenterVector), radius);
    var center := Plus(fragCenter, rcv);
    var addAngle := Ratio(TwoPi, |ring.atoms|);
    var startAtom := frag.atoms[0];
    var startAngle := tr.getAngle(st.coords[startAtom].x - center.x, st.coords[startAtom].y - center.y);
    var order := AtomsInPlacementOrder(g, startAtom, ring.bonds);
    if order.Err? {
      return Fail(order.error), [];
    }
    var atomsToPlace := order.value;
    drawn := atomsToPlace;
    WalkTouches(g, ring.bonds, startAtom, atomsToPlace);
    PopulatePolygonCorners(st, symbols, atomsToPlace, center, startAngle, addAngle, radius, tr.polar);
    r := Pass;
  }

  /** `placeFusedRing` (ring_placer.js:270-348, coordinate_generator.js:553-628): the walk starts at the
      shared atom FindStartAtom picks, its first step avoids the first
      shared bond, it has |bonds| - 2 atoms, and each is drawn and
      flagged ISPLACED; on a throw nothing has changed. */
  method PlaceFusedRing(g: Graph, st: Layout, symbols: seq<string>, ring: RingRecord, frag: Fragment,
                        fragCenter: Vec, ringCenterVector: Vec, bondLength: real, tr: Trig)
    returns (r: Outcome, ghost drawn: seq<nat>)
    requires Fits(g, st, symbols) && RingIn(g, ring) && FragmentIn(g, frag) && |frag.atoms| >= 2
    modifies st`coords, st`placed
    ensures |st.coords| == old(|st.coords|)
    ensures r.Pass? ==> st.placed == SetAll(old(st.placed), drawn, true)
    ensures r.Pass? ==> Walk(g, ring.bonds, FindStartAtom(frag.atoms[0], frag.atoms[1],
      old(st.coords[frag.atoms[0]]), old(st.coords[frag.atoms[1]])), drawn)
    ensures r.Pass? ==> |drawn| == if |ring.bonds| >= 2 then |ring.bonds| - 2 else 0
    ensures forall a :: 0 <= a < |st.coords| && a !in drawn ==> st.coords[a] == old(st.coords[a])
    ensures r.Fail? ==> r.error == NullOtherAtomError && st.placed == old(st.placed)
  {
    var radius := tr.nativeRadius(|ring.atoms|, bondLength);
    var perpendicular := tr.sqrt(radius * radius - (bondLength / 2.0) * (bondLength / 2.0));
    var rcv := Scaled(tr.normalized(ringCenterVector), perpendicular);
    var center := Plus(fragCenter, rcv);
    var a1, a2 := frag.atoms[0], frag.atoms[1];
    var p1, p2 := st.coords[a1], st.coords[a2];
    var occupiedAngle := tr.between(Minus(p1, center), Minus(p2, center));
    var addAngle := Ratio(TwoPi - occupiedAngle, |ring.atoms| - 1);
    var direction := FusedDirection(center, p1, p2);
    var startAtom := FindStartAtom(a1, a2, p1, p2);
    var startAngle := tr.getAngle(st.coords[startAtom].x - center.x, st.coords[startAtom].y - center.y);
    var walk := WalkFusedRing(g, ring.bonds, startAtom, if |frag.bonds| > 0 then Some(frag.bonds[0]) else None);
    if walk.Err? {
      return Fail(walk.error), [];
    }
    var atomsToDraw := walk.value;
    drawn := atomsToDraw;
    WalkTouches(g, ring.bonds, startAtom, atomsToDraw);
    PopulatePolygonCorners(st, symbols, atomsToDraw, center, startAngle, addAngle * direction as real, radius, tr.polar);
    r := Pass;
  }

  /** `placeBridgedRing` (ring_placer.js:127-167, coordinate_generator.js:420-455): the walk starts at the
      atom FindStartAtom picks from the first two bridge atoms, and every
      atom it reaches is drawn and flagged ISPLACED.  With fewer than two
      bridge atoms the call throws before changing anything. */
  method PlaceBridgedRing(g: Graph, st: Layout, symbols: seq<string>, ring: RingRecord, frag: Fragment,
                          fragCenter: Vec, ringCenterVector: Vec, bondLength: real, tr: Trig)
    returns (r: Outcome, ghost drawn: seq<nat>)
    requires Fits(g, st, symbols) && RingIn(g, ring) && FragmentIn(g, frag)
    modifies st`coords, st`placed
    ensures |st.coords| == old(|st.coords|)
    ensures |GetBridgeAtoms(g, frag)| < 2 ==> r == Fail(UndefinedCoordError)
    ensures r.Pass? ==> st.placed == SetAll(old(st.placed), drawn, true)
    ensures r.Pass? ==> (|GetBridgeAtoms(g, frag)| >= 2 && (
      var b := GetBridgeAtoms(g, frag);
      b[0] < |st.coords| && b[1] < |st.coords| &&
      Walk(g, ring.bonds, FindStartAtom(b[0], b[1], old(st.coords[b[0]]), old(st.coords[b[1]])), drawn)))
    ensures r.Pass? && ring.bonds != [] && Distinct(ring.bonds) ==> |drawn| == |ring.bonds| - 1
    ensures forall a :: 0 <= a < |st.coords| && a !in drawn ==> st.coords[a] == old(st.coords[a])
    ensures r.Fail? ==> st.placed == old(st.placed)
  {
    var radius := tr.nativeRadius(|ring.atoms|, bondLength);
    var rcv := Scaled(tr.normalized(ringCenterVector), radius);
    var center := Plus(fragCenter, rcv);
    var bridgeAtoms := GetBridgeAtoms(g, frag);
    if |bridgeAtoms| < 2 {
      return Fail(UndefinedCoordError), [];
    }
    BridgeAtomsMembers(g, frag);
    assert bridgeAtoms[0] in bridgeAtoms && bridgeAtoms[1] in bridgeAtoms;
    var a1, a2 := bridgeAtoms[0], bridgeAtoms[1];
    var p1, p2 := st.coords[a1], st.coords[a2];
    var occupiedAngle := tr.between(Minus(p1, rcv), Minus(p2, rcv));
    var addAngle := Ratio(TwoPi - occupiedAngle, |ring.atoms| - |frag.atoms| + 1);
    var startAtom := FindStartAtom(a1, a2, p1, p2);
    var startAngle := tr.pointAngle(st.coords[startAtom], rcv);
    var order := AtomsInPlacementOrder(g, startAtom, ring.bonds);
    if order.Err? {
      return Fail(order.error), [];
    }
    var atomsToPlace := order.value;
    drawn := atomsToPlace;
    addAngle := addAngle * FindDirection(rcv, p1, p2) as real;
    WalkTouches(g, ring.bonds, startAtom, atomsToPlace);
    PopulatePolygonCorners(st, symbols, atomsToPlace, center, startAngle, addAngle, radius, tr.polar);
    r := Pass;
  }

  /** `placeRing` (ring_placer.js:63-76, coordinate_generator.js:367-380): more than two shared atoms is
      bridged, two is fused, one is spiro, and none does nothing.  On
      success the drawn atoms, and only they, gain ISPLACED, each is an
      end of a ring bond, and only their coordinates change. */
  method PlaceRing(g: Graph, st: Layout, symbols: seq<string>, ring: RingRecord, frag: Fragment,
                   fragCenter: Vec, ringCenterVector: Vec, bondLength: real, tr: Trig)
    returns (r: Outcome, ghost drawn: seq<nat>)
    requires Fits(g, st, symbols) && RingIn(g, ring) && FragmentIn(g, frag)
    modifies st`coords, st`placed
    ensures |st.coords| == old(|st.coords|)
    ensures |frag.atoms| == 0 ==> r == Pass && drawn == [] && st.placed == old(st.placed)
    ensures r.Pass? ==> st.placed == SetAll(old(st.placed), drawn, true)
    ensures r.Pass? ==> forall k :: 0 <= k < |drawn| ==>
      OnBonds(g, ring.bonds, drawn[k])
    ensures r.Pass? && |frag.atoms| == 2 ==> |drawn| == if |ring.bonds| >= 2 then |ring.bonds| - 2 else 0
    ensures r.Pass? && |frag.atoms| != 2 && ring.bonds != [] && Distinct(ring.bonds) ==> |drawn| <= |ring.bonds| - 1
    ensures forall a :: 0 <= a < |st.coords| && a !in drawn ==> st.coords[a] == old(st.coords[a])
    ensures r.Fail? ==> st.placed == old(st.placed)
  {
    var sharedAtomCount := |frag.atoms|;
    ghost var start: nat;
    if sharedAtomCount > 2 {
      r, drawn := PlaceBridgedRing(g, st, symbols, ring, frag, fragCenter, ringCenterVector, bondLength, tr);
      if r.Pass? {
        start :| Walk(g, ring.bonds, start, drawn);
      }
    } else if sharedAtomCount == 2 {
      r, drawn := PlaceFusedRing(g, st, symbols, ring, frag, fragCenter, ringCenterVector, bondLength, tr);
      if r.Pass? {
        start :| Walk(g, ring.bonds, start, drawn);
      }
    } else if sharedAtomCount == 1 {
      r, drawn := PlaceSpiroRing(g, st, symbols, ring, frag, fragCenter, ringCenterVector, bondLength, tr);
      if r.Pass? {
        start :| Walk(g, ring.bonds, start, drawn);
      }
    } else {
      r, drawn := Pass, [];
      start := 0;
      assert SetAll(st.placed, [], true) == st.placed;
    }
    if r.Pass? {
      WalkTouches(g, ring.bonds, start, drawn);
    }
  }

  // ------------------------------------------------------ connected rings

  /** Does a shared-atom count match the handle type
      (coordinate_generator.js:735-736)? */
  predicate Joins(handle: Handle, sac: nat)
  {
    match handle
    case Fused => sac == 2
    case Spiro => sac == 1
    case Bridged => sac > 2
  }

  /** The shared fragment of a ring and a connected ring
      (coordinate_generator.js:730-733). */
  function SharedFragment(rings: seq<RingRecord>, ring: nat, other: nat): (f: Fragment)
    requires ring < |rings| && other < |rings|
    ensures forall x :: x in f.atoms <==> x in rings[ring].atoms && x in rings[other].atoms
    ensures forall x :: x in f.bonds <==> x in rings[ring].bonds && x in rings[other].bonds
  {
    Fragment(Intersecting(rings[ring].atoms, rings[other].atoms), Intersecting(rings[ring].bonds, rings[other].bonds))
  }

  /** The rings of the set connected to `ring` that `handle` places. */
  predicate Handled(rings: seq<RingRecord>, ringset: seq<nat>, ring: nat, handle: Handle, c: nat)
    requires ring < |rings| && forall k :: 0 <= k < |ringset| ==> ringset[k] < |rings|
  {
    c in DirectConnected(AtomLists(rings), ring, ringset) && c < |rings| &&
    Joins(handle, |SharedFragment(rings, ring, c).atoms|)
  }

  /** Flags only ever set: every flag of `before` is still set in
      `after`. */
  predicate OnlySet(before: seq<bool>, after: seq<bool>)
  {
    |after| == |before| && forall i :: 0 <= i < |before| && before[i] ==> after[i]
  }

  /** The flags newly set are those of rings in the set. */
  predicate NewOnlyIn(before: seq<bool>, after: seq<bool>, ringset: seq<nat>)
    requires |after| == |before|
  {
    forall q :: 0 <= q < |before| && after[q] && !before[q] ==> q in ringset
  }

  /** `placeConnectedRings(ringset, ring, handleType, bondLength)`
      (coordinate_generator.js:725-758, which replaces the definition at
      ring_placer.js:446-474; that one calls the undefined
      `kemia.ring.RingPartitioner` at line 447).
      Each ring of the set that shares an atom with `ring`, is not yet
      ISPLACED and whose shared-atom count matches the handle is placed,
      flagged ISPLACED, and the search continues from it.  Flags are only
      ever set, only rings of the set are flagged, and when no placement
      throws every matching connected ring ends up flagged. */
  method PlaceConnectedRings(g: Graph, st: Layout, symbols: seq<string>, rings: seq<RingRecord>,
                             ringset: seq<nat>, ring: nat, handle: Handle, bondLength: real, tr: Trig)
    returns (r: Outcome)
    requires Fits(g, st, symbols) && |st.ringPlaced| == |rings| && ring < |rings|
    requires forall k :: 0 <= k < |ringset| ==> ringset[k] < |rings|
    requires forall q :: 0 <= q < |rings| ==> RingIn(g, rings[q])
    modifies st`coords, st`placed, st`ringPlaced
    decreases CountFalse(st.ringPlaced), 1
    ensures Fits(g, st, symbols)
    ensures OnlySet(old(st.placed), st.placed) && OnlySet(old(st.ringPlaced), st.ringPlaced)
    ensures NewOnlyIn(old(st.ringPlaced), st.ringPlaced, ringset)
    ensures CountFalse(st.ringPlaced) <= old(CountFalse(st.ringPlaced))
    ensures r.Pass? ==> forall c :: 0 <= c < |rings| && Handled(rings, ringset, ring, handle, c) ==> st.ringPlaced[c]
  {
    var connected := DirectConnected(AtomLists(rings), ring, ringset);
    ConnectedInSet(rings, ringset, ring);
    for i := 0 to |connected|
      invariant Fits(g, st, symbols) && |st.ringPlaced| == |rings|
      invariant OnlySet(old(st.placed), st.placed) && OnlySet(old(st.ringPlaced), st.ringPlaced)
      invariant NewOnlyIn(old(st.ringPlaced), st.ringPlaced, ringset)
      invariant CountFalse(st.ringPlaced) <= old(CountFalse(st.ringPlaced))
      invariant HandledBefore(rings, ring, handle, connected, i, st.ringPlaced)
    {
      ghost var placed0, flags0 := st.placed, st.ringPlaced;
      var step := PlaceConnectedRing(g, st, symbols, rings, ringset, ring, connected[i], handle, bondLength, tr);
      OnlySetTrans(old(st.placed), placed0, st.placed);
      OnlySetTrans(old(st.ringPlaced), flags0, st.ringPlaced);
      NewOnlyInTrans(old(st.ringPlaced), flags0, st.ringPlaced, ringset);
      if step.Fail? {
        return step;
      }
      HandledStep(rings, ring, handle, connected, i, flags0, st.ringPlaced);
    }
    HandledAll(rings, ringset, ring, handle, st.ringPlaced);
    return Pass;
  }

  /** Every connected ring before position i that the handle matches is
      flagged. */
  predicate HandledBefore(rings: seq<RingRecord>, ring: nat, handle: Handle, connected: seq<nat>, i: nat,
                          ringPlaced: seq<bool>)
    requires ring < |rings| && i <= |connected| && |ringPlaced| == |rings|
    requires forall j :: 0 <= j < |connected| ==> connected[j] < |rings|
  {
    forall j :: 0 <= j < i && Joins(handle, |SharedFragment(rings, ring, connected[j]).atoms|) ==>
      ringPlaced[connected[j]]
  }

  /** Flags set in two steps were set in one. */
  lemma OnlySetTrans(a: seq<bool>, b: seq<bool>, c: seq<bool>)
    requires OnlySet(a, b) && OnlySet(b, c)
    ensures OnlySet(a, c)
  {
  }

  lemma NewOnlyInTrans(a: seq<bool>, b: seq<bool>, c: seq<bool>, ringset: seq<nat>)
    requires |a| == |b| == |c| && NewOnlyIn(a, b, ringset) && NewOnlyIn(b, c, ringset)
    ensures NewOnlyIn(a, c, ringset)
  {
  }

  /** Handling connected ring i keeps the earlier ones flagged and flags
      ring i when the handle matches it. */
  lemma HandledStep(rings: seq<RingRecord>, ring: nat, handle: Handle, connected: seq<nat>, i: nat,
                    before: seq<bool>, after: seq<bool>)
    requires ring < |rings| && i < |connected| && |before| == |rings|
    requires forall j :: 0 <= j < |connected| ==> connected[j] < |rings|
    requires HandledBefore(rings, ring, handle, connected, i, before) && OnlySet(before, after)
    requires Joins(handle, |SharedFragment(rings, ring, connected[i]).atoms|) ==> after[connected[i]]
    ensures HandledBefore(rings, ring, handle, connected, i + 1, after)
  {
  }

  /** The connected rings are rings of the set. */
  lemma ConnectedInSet(rings: seq<RingRecord>, ringset: seq<nat>, ring: nat)
    requires ring < |rings| && forall k :: 0 <= k < |ringset| ==> ringset[k] < |rings|
    ensures forall j :: 0 <= j < |DirectConnected(AtomLists(rings), ring, ringset)| ==>
      DirectConnected(AtomLists(rings), ring, ringset)[j] < |rings| &&
      DirectConnected(AtomLists(rings), ring, ringset)[j] in ringset
  {
    var connected := DirectConnected(AtomLists(rings), ring, ringset);
    DirectConnectedMembers(AtomLists(rings), ring, ringset);
    forall j | 0 <= j < |connected|
      ensures connected[j] < |rings| && connected[j] in ringset
    {
      assert connected[j] in connected;
    }
  }

  /** Once the whole list is handled, every handled ring is flagged. */
  lemma HandledAll(rings: seq<RingRecord>, ringset: seq<nat>, ring: nat, handle: Handle, ringPlaced: seq<bool>)
    requires ring < |rings| && forall k :: 0 <= k < |ringset| ==> ringset[k] < |rings|
    requires |ringPlaced| == |rings|
    requires forall j :: 0 <= j < |DirectConnected(AtomLists(rings), ring, ringset)| ==>
      DirectConnected(AtomLists(rings), ring, ringset)[j] < |rings|
    requires HandledBefore(rings, ring, handle, DirectConnected(AtomLists(rings), ring, ringset),
                           |DirectConnected(AtomLists(rings), ring, ringset)|, ringPlaced)
    ensures forall c :: 0 <= c < |rings| && Handled(rings, ringset, ring, handle, c) ==> ringPlaced[c]
  {
    var connected := DirectConnected(AtomLists(rings), ring, ringset);
    forall c | 0 <= c < |rings| && Handled(rings, ringset, ring, handle, c)
      ensures ringPlaced[c]
    {
      var j :| 0 <= j < |connected| && connected[j] == c;
    }
  }

  /** The loop body of `placeConnectedRings` (coordinate_generator.js:727-757) for
      the connected ring c. */
  method PlaceConnectedRing(g: Graph, st: Layout, symbols: seq<string>, rings: seq<RingRecord>,
                            ringset: seq<nat>, ring: nat, c: nat, handle: Handle, bondLength: real, tr: Trig)
    returns (r: Outcome)
    requires Fits(g, st, symbols) && |st.ringPlaced| == |rings| && ring < |rings| && c < |rings| && c in ringset
    requires forall k :: 0 <= k < |ringset| ==> ringset[k] < |rings|
    requires forall q :: 0 <= q < |rings| ==> RingIn(g, rings[q])
    modifies st`coords, st`placed, st`ringPlaced
    decreases CountFalse(st.ringPlaced), 0
    ensures Fits(g, st, symbols)
    ensures OnlySet(old(st.placed), st.placed) && OnlySet(old(st.ringPlaced), st.ringPlaced)
    ensures NewOnlyIn(old(st.ringPlaced), st.ringPlaced, ringset)
    ensures CountFalse(st.ringPlaced) <= old(CountFalse(st.ringPlaced))
    ensures r.Pass? && Joins(handle, |SharedFragment(rings, ring, c).atoms|) ==> st.ringPlaced[c]
  {
    if st.ringPlaced[c] {
      return Pass;
    }
    var frag := SharedFragment(rings, ring, c);
    if !Joins(handle, |frag.atoms|) {
      return Pass;
    }
    SharedFragmentIn(g, rings, ring, c);
    var sharedAtomsCenter := PlacedCenter(st.coords, st.placed, frag.atoms);
    var oldRingCenter := PlacedCenter(st.coords, st.placed, rings[ring].atoms);
    var newRingCenterVector := Minus(sharedAtomsCenter, oldRingCenter);
    var placedRing, _ := PlaceRing(g, st, symbols, rings[c], frag, sharedAtomsCenter, newRingCenterVector,
                                   bondLength, tr);
    if placedRing.Fail? {
      return placedRing;
    }
    CountFalseSet(st.ringPlaced, c);
    st.ringPlaced := st.ringPlaced[c := true];
    r := PlaceConnectedRings(g, st, symbols, rings, ringset, c, handle, bondLength, tr);
  }

  /** The shared fragment of two rings of the graph lies in the graph. */
  lemma SharedFragmentIn(g: Graph, rings: seq<RingRecord>, ring: nat, c: nat)
    requires ring < |rings| && c < |rings| && RingIn(g, rings[c])
    ensures FragmentIn(g, SharedFragment(rings, ring, c))
  {
    var frag := SharedFragment(rings, ring, c);
    forall k | 0 <= k < |frag.atoms|
      ensures frag.atoms[k] < g.atomCount
    {
      assert frag.atoms[k] in frag.atoms;
    }
    forall k | 0 <= k < |frag.bonds|
      ensures frag.bonds[k] < |g.bonds|
    {
      assert frag.bonds[k] in frag.bonds;
    }
  }

  // ---------------------------------------------- reset and the next bond

  /** Is atom a in a ring of the set whose `isPlaced` is unset? */
  predicate InUnplacedRing(rings: seq<RingRecord>, ringset: seq<nat>, isPlaced: seq<bool>, a: nat)
    requires forall k :: 0 <= k < |ringset| ==> ringset[k] < |rings| && ringset[k] < |isPlaced|
  {
    exists k :: 0 <= k < |ringset| && !isPlaced[ringset[k]] && a in rings[ringset[k]].atoms
  }

  /** `resetUnplacedRingAtoms(ringset)` (ring_placer.js:482-490): ISPLACED
      is cleared on exactly the atoms of the rings whose `isPlaced` is
      unset; every other flag stays.  The layout runs the copy at
      coordinate_generator.js:766-772 instead, which throws
      (`CoordinateGenerator.ResetUnplacedRingAtoms`). */
  method ResetUnplacedRingAtoms(st: Layout, rings: seq<RingRecord>, ringset: seq<nat>)
    requires forall k :: 0 <= k < |ringset| ==> ringset[k] < |rings| && ringset[k] < |st.ringIsPlaced|
    requires forall q :: 0 <= q < |rings| ==> forall k :: 0 <= k < |rings[q].atoms| ==> rings[q].atoms[k] < |st.placed|
    modifies st`placed
    ensures |st.placed| == old(|st.placed|)
    ensures forall a :: 0 <= a < |st.placed| ==>
      st.placed[a] == (old(st.placed[a]) && !InUnplacedRing(rings, ringset, st.ringIsPlaced, a))
  {
    for i := 0 to |ringset|
      invariant |st.placed| == old(|st.placed|)
      invariant forall a :: 0 <= a < |st.placed| ==>
        st.placed[a] == (old(st.placed[a]) && !InUnplacedRing(rings, ringset[..i], st.ringIsPlaced, a))
    {
      var ring := ringset[i];
      if !st.ringIsPlaced[ring] {
        MarkAll(st, rings[ring].atoms, false);
      }
      forall a | 0 <= a < |st.placed|
        ensures InUnplacedRing(rings, ringset[..i + 1], st.ringIsPlaced, a) <==>
          InUnplacedRing(rings, ringset[..i], st.ringIsPlaced, a) || (!st.ringIsPlaced[ring] && a in rings[ring].atoms)
      {
        InUnplacedRingSnoc(rings, ringset, st.ringIsPlaced, i, a);
      }
    }
    assert ringset[..|ringset|] == ringset;
  }

  /** One ring more of the set: an atom lies in an unplaced ring of the
      first i + 1 exactly when it lies in one of the first i or in ring i,
      unplaced. */
  lemma InUnplacedRingSnoc(rings: seq<RingRecord>, ringset: seq<nat>, isPlaced: seq<bool>, i: nat, a: nat)
    requires i < |ringset|
    requires forall k :: 0 <= k < |ringset| ==> ringset[k] < |rings| && ringset[k] < |isPlaced|
    ensures InUnplacedRing(rings, ringset[..i + 1], isPlaced, a) <==>
      InUnplacedRing(rings, ringset[..i], isPlaced, a) || (!isPlaced[ringset[i]] && a in rings[ringset[i]].atoms)
  {
    if InUnplacedRing(rings, ringset[..i + 1], isPlaced, a) {
      var k :| 0 <= k < i + 1 && !isPlaced[ringset[..i + 1][k]] && a in rings[ringset[..i + 1][k]].atoms;
      if k < i {
        assert ringset[..i][k] == ringset[..i + 1][k];
      }
    }
    if InUnplacedRing(rings, ringset[..i], isPlaced, a) {
      var k :| 0 <= k < i && !isPlaced[ringset[..i][k]] && a in rings[ringset[..i][k]].atoms;
      assert ringset[..i + 1][k] == ringset[..i][k];
    }
    if !isPlaced[ringset[i]] && a in rings[ringset[i]].atoms {
      assert ringset[..i + 1][i] == ringset[i];
    }
  }

  /** Is bond b's end a ISINRING and unplaced while its other end is
      placed (ring_placer.js:495, coordinate_generator.js:777)? */
  predicate RingEntry(g: Graph, inRing: seq<bool>, placed: seq<bool>, b: nat, a: nat)
    requires g.WellFormed() && b < |g.bonds| && |inRing| == g.atomCount && |placed| == g.atomCount
    requires a == g.bonds[b].0 || a == g.bonds[b].1
  {
    inRing[a] && !placed[a] && placed[OtherAtom(g.bonds[b], a).value]
  }

  /** Either end of bond b qualifies. */
  predicate EntersRing(g: Graph, inRing: seq<bool>, placed: seq<bool>, b: nat)
    requires g.WellFormed() && b < |g.bonds| && |inRing| == g.atomCount && |placed| == g.atomCount
  {
    RingEntry(g, inRing, placed, b, g.bonds[b].0) || RingEntry(g, inRing, placed, b, g.bonds[b].1)
  }

  /** `findNextRingBondWithUnplacedRingAtom(bonds)`
      (ring_placer.js:492-498, coordinate_generator.js:774-781): the first bond, in the given order, with
      an unplaced ring atom at one end and a placed atom at the other. */
  function FindNextRingBondWithUnplacedRingAtom(g: Graph, inRing: seq<bool>, placed: seq<bool>, bonds: seq<nat>)
    : (r: Option<nat>)
    requires g.WellFormed() && |inRing| == g.atomCount && |placed| == g.atomCount
    requires forall k :: 0 <= k < |bonds| ==> bonds[k] < |g.bonds|
    ensures r.None? <==> forall k :: 0 <= k < |bonds| ==> !EntersRing(g, inRing, placed, bonds[k])
    ensures r.Some? ==>
      exists k :: 0 <= k < |bonds| && bonds[k] == r.value &&
        EntersRing(g, inRing, placed, bonds[k]) &&
        forall e :: 0 <= e < k ==> !EntersRing(g, inRing, placed, bonds[e])
  {
    if bonds == [] then None
    else if EntersRing(g, inRing, placed, bonds[0]) then Some(bonds[0])
    else
      assert forall k :: 1 <= k < |bonds| ==> bonds[k] == bonds[1..][k - 1];
      var rest := FindNextRingBondWithUnplacedRingAtom(g, inRing, placed, bonds[1..]);
      if rest.Some? then
        var k :| 0 <= k < |bonds[1..]| && bonds[1..][k] == rest.value &&
          EntersRing(g, inRing, placed, bonds[1..][k]) &&
          forall e :: 0 <= e < k ==> !EntersRing(g, inRing, placed, bonds[1..][e]);
        assert bonds[k + 1] == rest.value;
        rest
      else rest
  }

  // ------------------------------------------------------- ring substituents

  /** The bookkeeping for one ring atom in `placeRingSubstituents`
      (ring_placer.js:83-104, coordinate_generator.js:387-399): its unplaced neighbours are listed, marked
      not placed, added to the treated atoms, and flagged ISPLACED by the
      polygon `distributePartners` draws around the atom. */
  method TreatRingAtom(g: Graph, st: Layout, atom: nat, treated0: seq<nat>) returns (treated: seq<nat>)
    requires g.WellFormed() && |st.placed| == g.atomCount
    modifies st`placed
    ensures |st.placed| == old(|st.placed|)
    ensures forall a :: 0 <= a < |st.placed| ==>
      st.placed[a] == (old(st.placed[a]) || (a in Neighbors(g, atom) && !old(st.placed[a])))
    ensures forall x :: x in treated <==> x in treated0 || (x in Neighbors(g, atom) && !old(st.placed[x]))
    ensures Distinct(treated0) ==> Distinct(treated)
  {
    var unplaced, shared, _ := PartitionPartners(g, st, atom, [], []);
    forall k | 0 <= k < |unplaced|
      ensures unplaced[k] < g.atomCount
    {
      assert unplaced[k] in unplaced;
    }
    MarkNotPlaced(st, unplaced);
    treated := treated0;
    for k := 0 to |unplaced|
      invariant forall x :: x in treated <==> x in treated0 || x in unplaced[..k]
      invariant Distinct(treated0) ==> Distinct(treated)
    {
      assert forall x :: x in unplaced[..k + 1] <==> x in unplaced[..k] || x == unplaced[k];
      treated := AddAtom(treated, unplaced[k]);
    }
    assert unplaced[..|unplaced|] == unplaced;
    if |unplaced| > 0 {
      MarkPlaced(st, unplaced);
    }
  }

  /** `placeRingSubstituents(molecule, ringset, bondLength)`
      (ring_placer.js:78-108, coordinate_generator.js:382-403): the treated atoms it returns are exactly
      the atoms that gain ISPLACED, with no repeats; no flag is cleared.
      The coordinates `distributePartners` writes are not modelled. */
  method PlaceRingSubstituents(g: Graph, st: Layout, rings: seq<RingRecord>, ringset: seq<nat>)
    returns (treated: seq<nat>)
    requires g.WellFormed() && |st.placed| == g.atomCount
    requires forall k :: 0 <= k < |ringset| ==> ringset[k] < |rings|
    modifies st`placed
    ensures |st.placed| == old(|st.placed|)
    ensures forall a :: 0 <= a < |st.placed| && old(st.placed[a]) ==> st.placed[a]
    ensures forall a :: 0 <= a < |st.placed| ==> (a in treated <==> st.placed[a] && !old(st.placed[a]))
    ensures forall x :: x in treated ==> x < |st.placed|
    ensures Distinct(treated)
  {
    treated := [];
    for i := 0 to |ringset|
      invariant |st.placed| == old(|st.placed|)
      invariant forall a :: 0 <= a < |st.placed| && old(st.placed[a]) ==> st.placed[a]
      invariant forall a :: 0 <= a < |st.placed| ==> (a in treated <==> st.placed[a] && !old(st.placed[a]))
      invariant forall x :: x in treated ==> x < |st.placed|
      invariant Distinct(treated)
    {
      var atoms := rings[ringset[i]].atoms;
      for j := 0 to |atoms|
        invariant |st.placed| == old(|st.placed|)
        invariant forall a :: 0 <= a < |st.placed| && old(st.placed[a]) ==> st.placed[a]
        invariant forall a :: 0 <= a < |st.placed| ==> (a in treated <==> st.placed[a] && !old(st.placed[a]))
        invariant forall x :: x in treated ==> x < |st.placed|
        invariant Distinct(treated)
      {
        treated := TreatRingAtom(g, st, atoms[j], treated);
      }
    }
  }
}
