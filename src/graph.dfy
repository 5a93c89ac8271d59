// An index snapshot of a molecule, the form in which the ring finders and
// the layout code read it: atom k is `molecule.atoms[k]` and bond b is
// `molecule.bonds[b]`, joining the atoms at indices `bonds[b].0` (source)
// and `bonds[b].1` (target).  An atom's bond set lists its bonds in the
// order they were added, which is their order in `molecule.bonds`.

module MolGraph {
  import opened Wrappers

  datatype Graph = Graph(atomCount: nat, bonds: seq<(nat, nat)>)
  {
    predicate WellFormed()
    {
      forall b :: 0 <= b < |bonds| ==> bonds[b].0 < atomCount && bonds[b].1 < atomCount
    }

    function BondCount(): nat { |bonds| }
  }

  /** The number of rings in a smallest set of smallest rings of a
      connected graph: bonds less atoms plus one (`nsssr`). */
  function CyclomaticNumber(g: Graph): int
  {
    |g.bonds| - g.atomCount + 1
  }

  /** `bond.otherAtom(a)` (src/model/bond.js:76-84) on an index pair. */
  function OtherAtom(bond: (nat, nat), a: nat): (r: Option<nat>)
    ensures r.Some? <==> a == bond.0 || a == bond.1
    ensures a == bond.0 ==> r == Some(bond.1)
    ensures a != bond.0 && a == bond.1 ==> r == Some(bond.0)
  {
    if a == bond.0 then Some(bond.1)
    else if a == bond.1 then Some(bond.0)
    else None
  }

  /** Does bond b join a1 to a2 in the sense of `findBond(a1, a2)`? */
  predicate Links(g: Graph, b: nat, a1: nat, a2: nat)
    requires b < |g.bonds|
  {
    OtherAtom(g.bonds[b], a1) == Some(a2)
  }

  /** `molecule.findBond(a1, a2)`: the first bond of a1 whose other atom
      is a2, or None. */
  function FindBond(g: Graph, a1: nat, a2: nat): (r: Option<nat>)
    ensures r.Some? ==> r.value < |g.bonds| && Links(g, r.value, a1, a2)
    ensures r.Some? ==> forall b :: 0 <= b < r.value ==> !Links(g, b, a1, a2)
    ensures r.None? <==> forall b :: 0 <= b < |g.bonds| ==> !Links(g, b, a1, a2)
  {
    FindBondFrom(g, a1, a2, 0)
  }

  function FindBondFrom(g: Graph, a1: nat, a2: nat, start: nat): (r: Option<nat>)
    ensures r.Some? ==> start <= r.value < |g.bonds| && Links(g, r.value, a1, a2)
    ensures r.Some? ==> forall b :: start <= b < r.value ==> !Links(g, b, a1, a2)
    ensures r.None? <==> forall b :: start <= b < |g.bonds| ==> !Links(g, b, a1, a2)
    decreases |g.bonds| - start
  {
    if start >= |g.bonds| then None
    else if Links(g, start, a1, a2) then Some(start)
    else FindBondFrom(g, a1, a2, start + 1)
  }

  lemma FindBondSymmetric(g: Graph, a1: nat, a2: nat)
    ensures FindBond(g, a1, a2).Some? <==> FindBond(g, a2, a1).Some?
  {
    if FindBond(g, a1, a2).Some? {
      var b := FindBond(g, a1, a2).value;
      assert Links(g, b, a2, a1);
    }
    if FindBond(g, a2, a1).Some? {
      var b := FindBond(g, a2, a1).value;
      assert Links(g, b, a1, a2);
    }
  }

  /** Is atom a an endpoint of bond b? */
  predicate Touches(g: Graph, b: nat, a: nat)
    requires b < |g.bonds|
  {
    g.bonds[b].0 == a || g.bonds[b].1 == a
  }

  /** The bonds of atom a (its bond set), in molecule bond order. */
  function IncidentBonds(g: Graph, a: nat): (r: seq<nat>)
    ensures forall k :: 0 <= k < |r| ==> r[k] < |g.bonds| && Touches(g, r[k], a)
    ensures forall b :: 0 <= b < |g.bonds| && Touches(g, b, a) ==> b in r
    ensures forall i, j :: 0 <= i < j < |r| ==> r[i] < r[j]
  {
    IncidentBefore(g, a, |g.bonds|)
  }

  function IncidentBefore(g: Graph, a: nat, n: nat): (r: seq<nat>)
    requires n <= |g.bonds|
    ensures forall k :: 0 <= k < |r| ==> r[k] < n && Touches(g, r[k], a)
    ensures forall b :: 0 <= b < n && Touches(g, b, a) ==> b in r
    ensures forall i, j :: 0 <= i < j < |r| ==> r[i] < r[j]
  {
    if n == 0 then []
    else IncidentBefore(g, a, n - 1) + (if Touches(g, n - 1, a) then [n - 1] else [])
  }

  /** `atom.countBonds()`: the number of bonds in the atom's set. */
  function Degree(g: Graph, a: nat): nat
  {
    |IncidentBonds(g, a)|
  }

  /** `atom.getNeighbors()`: one atom per bond, the bond's other atom,
      in bond-set order. */
  function Neighbors(g: Graph, a: nat): (r: seq<nat>)
    requires g.WellFormed()
    ensures forall k :: 0 <= k < |r| ==> r[k] < g.atomCount
  {
    NeighborsBefore(g, a, |g.bonds|)
  }

  /** The neighbours through the first n bonds. */
  function NeighborsBefore(g: Graph, a: nat, n: nat): (r: seq<nat>)
    requires g.WellFormed() && n <= |g.bonds|
    ensures forall k :: 0 <= k < |r| ==> r[k] < g.atomCount
  {
    if n == 0 then []
    else
      var rest := NeighborsBefore(g, a, n - 1);
      var b := g.bonds[n - 1];
      if b.0 == a then rest + [b.1] else if b.1 == a then rest + [b.0] else rest
  }

  /** Neighbour k of an atom is the other atom of its bond k. */
  lemma {:induction false} NeighborsFollowBonds(g: Graph, a: nat, n: nat)
    requires g.WellFormed() && n <= |g.bonds|
    ensures |NeighborsBefore(g, a, n)| == |IncidentBefore(g, a, n)|
    ensures forall k :: 0 <= k < |NeighborsBefore(g, a, n)| ==>
      OtherAtom(g.bonds[IncidentBefore(g, a, n)[k]], a) == Some(NeighborsBefore(g, a, n)[k])
  {
    if n > 0 {
      NeighborsFollowBonds(g, a, n - 1);
    }
  }

  /** The neighbour at position i is the other end of the bond at position i. */
  lemma NeighborAt(g: Graph, a: nat, i: nat)
    requires g.WellFormed()
    ensures |Neighbors(g, a)| == |IncidentBonds(g, a)|
    ensures i < |IncidentBonds(g, a)| ==>
      OtherAtom(g.bonds[IncidentBonds(g, a)[i]], a) == Some(Neighbors(g, a)[i])
  {
    NeighborsFollowBonds(g, a, |g.bonds|);
  }

  /** The two atoms of a bond are each other's neighbours. */
  lemma {:induction false} BondedNeighbors(g: Graph, b: nat, x: nat, y: nat, n: nat)
    requires g.WellFormed() && b < n <= |g.bonds|
    requires g.bonds[b] == (x, y) || g.bonds[b] == (y, x)
    ensures y in NeighborsBefore(g, x, n)
  {
    if b < n - 1 {
      BondedNeighbors(g, b, x, y, n - 1);
    }
  }
}
