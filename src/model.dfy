// The object model of src/model/atom.js, src/model/bond.js,
// src/model/molecule.js and src/ring/ring.js.  Atoms, bonds, molecules and
// rings are objects whose fields the source updates in place, so each is a
// class here; `===` between them is reference equality.  An atom's bond set
// (a `goog.structs.Set`, which lists its values in insertion order and
// never twice) is a sequence without repetitions.  Flag arrays are maps
// from flag index to value: an index that was never set reads as
// undefined, which is falsy.  The flag indices themselves
// (src/model/flags.js) and the covalence table
// (src/resource/covalence.js) are not part of this model; the covalence
// table is a parameter.

module ChemModel {
  import opened Wrappers
  import opened Vec2
  import Seqs

  // Bond order and stereo codes (src/model/bond.js:112-129).
  const SINGLE := 1
  const DOUBLE := 2
  const TRIPLE := 3
  const QUADRUPLE := 4
  const NOT_STEREO := 10
  const UP := 11
  const UP_OR_DOWN := 12
  const DOWN := 13

  /** A flag that was never set is undefined, which reads as false. */
  function FlagOf(flags: map<int, bool>, k: int): bool
  {
    k in flags && flags[k]
  }

  /** `goog.structs.Set.add`: a value already present is not added again. */
  function SetAdd(s: seq<Bond>, b: Bond): (r: seq<Bond>)
    ensures Seqs.Distinct(s) ==> Seqs.Distinct(r)
    ensures b in r && (forall i :: 0 <= i < |s| ==> s[i] in r)
    ensures forall i :: 0 <= i < |r| ==> r[i] in s || r[i] == b
  {
    if b in s then s else s + [b]
  }

  /** `goog.structs.Set.remove`. */
  function SetRemove(s: seq<Bond>, b: Bond): (r: seq<Bond>)
    ensures b !in r && (forall i :: 0 <= i < |r| ==> r[i] in s)
    ensures forall i :: 0 <= i < |s| && s[i] != b ==> s[i] in r
  {
    var r := Seqs.Without(s, [b]);
    Seqs.WithoutMember(s, [b], b);
    forall i | 0 <= i < |r| ensures r[i] in s {
      Seqs.WithoutMember(s, [b], r[i]);
    }
    forall i | 0 <= i < |s| && s[i] != b ensures s[i] in r {
      Seqs.WithoutMember(s, [b], s[i]);
    }
    r
  }

  /** `hydrogenCount` on the values it reads: the covalence entry (0 when
      there is none), the bond orders and the charge. */
  function HydrogenCountOf(cov: int, orders: seq<int>, charge: int): int
  {
    if cov != 0 then cov - Sum(orders) + charge else 0
  }

  function Sum(s: seq<int>): int
  {
    if s == [] then 0 else Sum(s[..|s| - 1]) + s[|s| - 1]
  }

  /** There is no clamp at zero: a tetravalent atom carrying bond orders 2,
      2 and 1 reports -1 hydrogens. */
  lemma HydrogenCountUnclamped()
    ensures HydrogenCountOf(4, [2, 2, 1], 0) == -1
  {
    assert [2, 2, 1][..2] == [2, 2];
    assert [2, 2][..1] == [2];
    assert [2][..0] == [];
  }

  /** The branches of `nextBondAngle` (src/model/atom.js:139-207); the
      angles computed in the middle three are not modelled. */
  datatype AngleCase = NoBonds | AwayFromOne | BisectTwo | BetweenLeastBonded | NoAngle

  function NextBondAngleCase(bondCount: nat): (r: AngleCase)
    ensures r == NoBonds <==> bondCount == 0
    ensures r == NoAngle <==> bondCount >= 4
  {
    if bondCount == 0 then NoBonds
    else if bondCount == 1 then AwayFromOne
    else if bondCount == 2 then BisectTwo
    else if bondCount == 3 then BetweenLeastBonded
    else NoAngle
  }

  /** The angle `nextBondAngle` returns: 0 with no bonds, undefined with
      four or more, and otherwise the angle its case computes, which is
      given here. */
  function NextBondAngle(bondCount: nat, computed: real): (r: Option<real>)
    ensures bondCount == 0 ==> r == Some(0.0)
    ensures r.None? <==> bondCount >= 4
  {
    match NextBondAngleCase(bondCount)
    case NoBonds => Some(0.0)
    case NoAngle => None
    case _ => Some(computed)
  }

  class Atom {
    var symbol: string
    var x: real
    var y: real
    var bonds: seq<Bond>
    var charge: int
    var isotope: int
    var aromatic: bool
    var flags: map<int, bool>
    var molecule: Molecule?

    /** The constructor's defaults: symbol 'C' when none is given; x, y,
        charge and isotope 0 when they are missing or 0; aromatic false
        when missing; no bonds and no flags set. */
    constructor (optSymbol: Option<string>, optX: Option<real>, optY: Option<real>,
                 optCharge: Option<int>, optAromatic: Option<bool>, optIsotope: Option<int>)
      ensures symbol == (if optSymbol.Some? then optSymbol.value else "C")
      ensures x == (if optX.Some? then optX.value else 0.0)
      ensures y == (if optY.Some? then optY.value else 0.0)
      ensures charge == (if optCharge.Some? then optCharge.value else 0)
      ensures isotope == (if optIsotope.Some? then optIsotope.value else 0)
      ensures aromatic == (optAromatic == Some(true))
      ensures bonds == [] && flags == map[] && molecule == null
    {
      symbol := if optSymbol.Some? then optSymbol.value else "C";
      x := if optX.Some? then optX.value else 0.0;
      y := if optY.Some? then optY.value else 0.0;
      charge := if optCharge.Some? then optCharge.value else 0;
      isotope := if optIsotope.Some? then optIsotope.value else 0;
      aromatic := if optAromatic.Some? then optAromatic.value else false;
      bonds := [];
      flags := map[];
      molecule := null;
    }

    function Coord(): Vec
      reads this
    {
      Vec(x, y)
    }

    function CountBonds(): nat
      reads this
    {
      |bonds|
    }

    function Orders(bs: seq<Bond>): (r: seq<int>)
      reads bs
      ensures |r| == |bs|
      ensures forall i :: 0 <= i < |bs| ==> r[i] == bs[i].order
    {
      if bs == [] then [] else Orders(bs[..|bs| - 1]) + [bs[|bs| - 1].order]
    }

    /** `hydrogenCount`: covalence minus the bond orders plus the charge
        when the table has a non-zero entry for the symbol, else 0. */
    function HydrogenCount(covalence: map<string, int>): (r: int)
      reads this, bonds
      ensures symbol !in covalence || covalence[symbol] == 0 ==> r == 0
      ensures symbol in covalence && covalence[symbol] != 0 ==>
                r + Sum(Orders(bonds)) == covalence[symbol] + charge
    {
      var cov := if symbol in covalence then covalence[symbol] else 0;
      HydrogenCountOf(cov, Orders(bonds), charge)
    }

    /** `getNeighbors`: one entry per bond, that bond's other atom, in
        bond-set order. */
    method GetNeighbors() returns (nbrs: seq<Atom?>)
      ensures |nbrs| == |bonds|
      ensures forall i :: 0 <= i < |bonds| ==> nbrs[i] == bonds[i].OtherAtom(this)
      ensures forall i :: 0 <= i < |bonds| && bonds[i].Touches(this) ==>
                bonds[i].OtherAtom(nbrs[i]) == this
    {
      nbrs := [];
      var i := 0;
      while i < |bonds|
        invariant 0 <= i <= |bonds|
        invariant |nbrs| == i
        invariant forall j :: 0 <= j < i ==> nbrs[j] == bonds[j].OtherAtom(this)
      {
        nbrs := nbrs + [bonds[i].OtherAtom(this)];
        i := i + 1;
      }
      forall j | 0 <= j < |bonds| && bonds[j].Touches(this)
        ensures bonds[j].OtherAtom(nbrs[j]) == this
      {
        bonds[j].OtherAtomTwice(this);
      }
    }

    /** `setFlag` changes only the named flag. */
    method SetFlag(k: int, v: bool)
      modifies this
      ensures flags == old(flags)[k := v]
      ensures symbol == old(symbol) && x == old(x) && y == old(y) && bonds == old(bonds)
      ensures charge == old(charge) && isotope == old(isotope) && aromatic == old(aromatic)
      ensures molecule == old(molecule)
    {
      flags := flags[k := v];
    }

    /** `clone` copies symbol, coordinates, charge, aromatic and isotope,
        and nothing else. */
    method Clone() returns (a: Atom)
      ensures fresh(a)
      ensures a.symbol == symbol && a.Coord() == Coord() && a.charge == charge
      ensures a.aromatic == aromatic && a.isotope == isotope
      ensures a.bonds == [] && a.flags == map[] && a.molecule == null
    {
      a := new Atom(Some(symbol), Some(x), Some(y), Some(charge), Some(aromatic), Some(isotope));
    }
  }

  class Bond {
    var source: Atom?
    var target: Atom?
    var order: int
    var stereo: int
    var aromatic: bool
    var molecule: Molecule?

    /** The constructor's defaults: order SINGLE, stereo NOT_STEREO,
        aromatic false, no molecule. */
    constructor (source: Atom?, target: Atom?, optOrder: Option<int>, optStereo: Option<int>,
                 optAromatic: Option<bool>, optMolecule: Molecule?)
      ensures this.source == source && this.target == target
      ensures order == (if optOrder.Some? then optOrder.value else SINGLE)
      ensures stereo == (if optStereo.Some? then optStereo.value else NOT_STEREO)
      ensures aromatic == (optAromatic == Some(true))
      ensures molecule == optMolecule
    {
      this.source := source;
      this.target := target;
      order := if optOrder.Some? then optOrder.value else SINGLE;
      stereo := if optStereo.Some? then optStereo.value else NOT_STEREO;
      aromatic := if optAromatic.Some? then optAromatic.value else false;
      molecule := optMolecule;
    }

    predicate Touches(a: Atom?)
      reads this
    {
      a == source || a == target
    }

    /** `otherAtom`: the target for the source, the source for the target,
        and null for any other atom. */
    function OtherAtom(a: Atom?): (r: Atom?)
      reads this
      ensures !Touches(a) ==> r == null
      ensures Touches(a) ==> Touches(r)
      ensures a == source && a != null ==> r == target
      ensures a == target && a != source && a != null ==> r == source
    {
      if a == source then target
      else if a == target then source
      else null
    }

    /** Going to the other end and back returns to the start. */
    lemma OtherAtomTwice(a: Atom?)
      requires Touches(a)
      ensures OtherAtom(OtherAtom(a)) == a
    {
    }

    /** `clone` shares both endpoints and copies every other field. */
    method Clone() returns (b: Bond)
      ensures fresh(b)
      ensures b.source == source && b.target == target
      ensures b.order == order && b.stereo == stereo && b.aromatic == aromatic
      ensures b.molecule == molecule
    {
      b := new Bond(source, target, Some(order), Some(stereo), Some(aromatic), molecule);
    }

    /** `deepClone` gives both endpoints fresh copies (`Atom.clone`) and
        copies every other field.  A missing endpoint makes the source
        throw, so both must be present. */
    method DeepClone() returns (b: Bond)
      requires source != null && target != null
      ensures fresh(b) && fresh(b.source) && fresh(b.target)
      ensures b.source.symbol == source.symbol && b.source.Coord() == source.Coord()
      ensures b.target.symbol == target.symbol && b.target.Coord() == target.Coord()
      ensures b.order == order && b.stereo == stereo && b.aromatic == aromatic
      ensures b.molecule == molecule
    {
      var s := source.Clone();
      var t := target.Clone();
      b := new Bond(s, t, Some(order), Some(stereo), Some(aromatic), molecule);
    }
  }

  /** A fragment id read through `fragments[i]`: undefined past the end and
      for i = -1. */
  function Frag(f: seq<Option<int>>, i: int): Option<int>
  {
    if 0 <= i < |f| then f[i] else None
  }

  /** JavaScript's `<` on two possibly undefined numbers. */
  predicate Below(a: Option<int>, b: Option<int>)
  {
    a.Some? && b.Some? && a.value < b.value
  }

  /** `fragments[i] = v` for i at most the length. */
  function Store(f: seq<Option<int>>, i: nat, v: Option<int>): (r: seq<Option<int>>)
    requires i <= |f|
    ensures |r| == if i < |f| then |f| else |f| + 1
    ensures Frag(r, i) == v && forall j :: j != i ==> Frag(r, j) == Frag(f, j)
  {
    if i < |f| then f[i := v] else f + [v]
  }

  /** The relabelling loop of `addBond`: every entry below n holding
      `before` is set to `after`. */
  function Relabel(f: seq<Option<int>>, n: nat, before: Option<int>, after: Option<int>): (r: seq<Option<int>>)
    ensures |r| == |f|
  {
    seq(|f|, i requires 0 <= i < |f| => if i < n && f[i] == before then after else f[i])
  }

  /** The fragment bookkeeping of a molecule: its atoms, the fragment id
      of each (which may run past the atoms after a removal), and the
      fragment count. */
  datatype FragmentBook = FragmentBook(atoms: seq<Atom>, fragments: seq<Option<int>>, count: int)
  {
    predicate Valid()
    {
      |atoms| <= |fragments|
    }
  }

  /** The bookkeeping `addAtom` leaves. */
  function WithAtom(k: FragmentBook, a: Atom): (r: FragmentBook)
    requires k.Valid()
    ensures r.Valid()
  {
    if a in k.atoms then k
    else FragmentBook(k.atoms + [a], Store(k.fragments, |k.atoms|, Some(k.count + 1)), k.count + 1)
  }

  /** The bookkeeping of `addBond` before it adds the endpoints: the
      endpoints' ids are read with `indexOfAtom`, so an endpoint not yet in
      the molecule reads `fragments[-1]`, which is undefined. */
  function Joined(k: FragmentBook, s: Atom, t: Atom): (r: FragmentBook)
    requires k.Valid()
    ensures r.Valid() && r.atoms == k.atoms
  {
    var fs := Frag(k.fragments, Seqs.IndexOf(k.atoms, s));
    var ft := Frag(k.fragments, Seqs.IndexOf(k.atoms, t));
    if fs == ft then k
    else
      var before := if Below(fs, ft) then fs else ft;
      var after := if Below(fs, ft) then ft else fs;
      FragmentBook(k.atoms, Relabel(k.fragments, |k.atoms|, before, after), k.count - 1)
  }

  /** `addAtom` on an atom already present changes nothing; otherwise the
      atom is appended, the count goes up by one, and the new atom's id is
      the new count while every other atom keeps its id. */
  lemma AddAtomFacts(k: FragmentBook, a: Atom)
    requires k.Valid()
    ensures a in k.atoms ==> WithAtom(k, a) == k
    ensures a !in k.atoms ==>
      var r := WithAtom(k, a);
      r.atoms == k.atoms + [a] && r.count == k.count + 1 &&
      Frag(r.fragments, |k.atoms|) == Some(r.count) &&
      forall i :: 0 <= i < |k.atoms| ==> Frag(r.fragments, i) == Frag(k.fragments, i)
  {
  }

  /** When the endpoints' ids differ, `addBond` lowers the count by exactly
      one and relabels the smaller id to the larger one (undefined counts as
      neither smaller nor larger); every other atom keeps its id.  When they
      agree nothing changes. */
  lemma JoinedRelabels(k: FragmentBook, s: Atom, t: Atom)
    requires k.Valid()
    ensures
      var fs := Frag(k.fragments, Seqs.IndexOf(k.atoms, s));
      var ft := Frag(k.fragments, Seqs.IndexOf(k.atoms, t));
      var r := Joined(k, s, t);
      (fs == ft ==> r == k) &&
      (fs != ft ==> r.count == k.count - 1) &&
      (fs.Some? && ft.Some? && fs != ft ==>
         var lo := if fs.value < ft.value then fs else ft;
         var hi := if fs.value < ft.value then ft else fs;
         forall i :: 0 <= i < |k.atoms| ==>
           Frag(r.fragments, i) == (if Frag(k.fragments, i) == lo then hi else Frag(k.fragments, i)))
  {
  }

  /** Bonding two atoms already in the molecule leaves them with the same
      fragment id. */
  lemma AddBondJoinsFragments(k: FragmentBook, s: Atom, t: Atom)
    requires k.Valid() && s in k.atoms && t in k.atoms
    ensures
      var r := WithAtom(WithAtom(Joined(k, s, t), s), t);
      r.atoms == k.atoms &&
      Frag(r.fragments, Seqs.IndexOf(k.atoms, s)) == Frag(r.fragments, Seqs.IndexOf(k.atoms, t))
  {
  }

  /** Because the ids are read before the endpoints are added, a bond from
      a new atom to an atom with id v sets every atom holding v to
      undefined. */
  lemma AbsentSourceClearsFragment(k: FragmentBook, s: Atom, t: Atom, v: int)
    requires k.Valid() && s !in k.atoms && t in k.atoms
    requires Frag(k.fragments, Seqs.IndexOf(k.atoms, t)) == Some(v)
    ensures
      var r := Joined(k, s, t);
      r.count == k.count - 1 &&
      forall i :: 0 <= i < |k.atoms| && Frag(k.fragments, i) == Some(v) ==> Frag(r.fragments, i) == None
  {
  }

  /** After two atoms are merged, the next new atom gets an id that is
      already in use: ids 1 and 2 merge into 2, the count drops to 1, and
      the third atom gets id 2 as well. */
  lemma FragmentIdReused(a1: Atom, a2: Atom, a3: Atom)
    requires a1 != a2 && a3 != a1 && a3 != a2
    ensures
      var k0 := WithAtom(WithAtom(FragmentBook([], [], 0), a1), a2);
      var k1 := WithAtom(WithAtom(Joined(k0, a1, a2), a1), a2);
      var k2 := WithAtom(k1, a3);
      k2.count == 2 && Frag(k2.fragments, 1) == Some(2) && Frag(k2.fragments, 2) == Some(2)
  {
    var k0 := WithAtom(WithAtom(FragmentBook([], [], 0), a1), a2);
    assert k0.atoms == [a1, a2] && k0.fragments == [Some(1), Some(2)];
    assert Seqs.IndexOf(k0.atoms, a1) == 0 && Seqs.IndexOf(k0.atoms, a2) == 1;
  }

  /** The molecule's bonds in order, filtered to those with `a` as source
      or target. */
  function Incident(bs: seq<Bond>, a: Atom?): (r: seq<Bond>)
    reads bs
  {
    if bs == [] then []
    else Incident(bs[..|bs| - 1], a) + (if bs[|bs| - 1].Touches(a) then [bs[|bs| - 1]] else [])
  }

  /** Incident keeps exactly the bonds touching the atom, in order. */
  lemma {:induction false} IncidentMembers(bs: seq<Bond>, a: Atom?)
    ensures forall b :: b in Incident(bs, a) <==> b in bs && b.Touches(a)
    ensures |Incident(bs, a)| <= |bs|
  {
    if bs != [] {
      IncidentMembers(bs[..|bs| - 1], a);
      assert bs == bs[..|bs| - 1] + [bs[|bs| - 1]];
    }
  }

  /** The sum of the atoms' x (or y) coordinates. */
  function SumX(atoms: seq<Atom>): real
    reads set a | a in atoms
  {
    if atoms == [] then 0.0 else SumX(atoms[..|atoms| - 1]) + atoms[|atoms| - 1].x
  }

  function SumY(atoms: seq<Atom>): real
    reads set a | a in atoms
  {
    if atoms == [] then 0.0 else SumY(atoms[..|atoms| - 1]) + atoms[|atoms| - 1].y
  }

  /** The centroid of a non-empty list of atoms. */
  function Mean(atoms: seq<Atom>): Vec
    requires |atoms| > 0
    reads set a | a in atoms
  {
    Vec(SumX(atoms) / |atoms| as real, SumY(atoms) / |atoms| as real)
  }

  /** When every atom sits at p, the centroid is p. */
  lemma {:induction false} MeanOfCoincident(atoms: seq<Atom>, p: Vec)
    requires |atoms| > 0
    requires forall a :: a in atoms ==> a.Coord() == p
    ensures Mean(atoms) == p
  {
    SumsOfCoincident(atoms, p);
  }

  lemma {:induction false} SumsOfCoincident(atoms: seq<Atom>, p: Vec)
    requires forall a :: a in atoms ==> a.Coord() == p
    ensures SumX(atoms) == |atoms| as real * p.x && SumY(atoms) == |atoms| as real * p.y
  {
    if atoms != [] {
      var front := atoms[..|atoms| - 1];
      assert forall a :: a in front ==> a in atoms;
      SumsOfCoincident(front, p);
      assert atoms[|atoms| - 1] in atoms;
    }
  }

  class Ring {
    var atoms: seq<Atom>
    var bonds: seq<Bond>
    var flags: map<int, bool>
    var center: Option<Vec>

    /** A new ring holds the given lists and has no cached centre. */
    constructor (atoms: seq<Atom>, bonds: seq<Bond>)
      ensures this.atoms == atoms && this.bonds == bonds
      ensures flags == map[] && center == None
    {
      this.atoms := atoms;
      this.bonds := bonds;
      flags := map[];
      center := None;
    }

    /** `setFlag` changes only the named flag. */
    method SetFlag(k: int, v: bool)
      modifies this
      ensures flags == old(flags)[k := v]
      ensures atoms == old(atoms) && bonds == old(bonds) && center == old(center)
    {
      flags := flags[k := v];
    }

    /** `getCenter`: the centroid of the atoms, computed on the first call
        and cached; while the cache is set, later calls return it even if
        the atoms have moved.  The source divides by the atom count, so
        the ring must have atoms. */
    method GetCenter() returns (c: Vec)
      requires |atoms| > 0
      modifies this
      ensures atoms == old(atoms) && bonds == old(bonds) && flags == old(flags)
      ensures old(center).Some? ==> c == old(center).value && center == old(center)
      ensures old(center).None? ==> c == Mean(atoms) && center == Some(c)
    {
      if center.None? {
        var sumX, sumY := 0.0, 0.0;
        var j := 0;
        while j < |atoms|
          invariant 0 <= j <= |atoms|
          invariant sumX == SumX(atoms[..j]) && sumY == SumY(atoms[..j])
        {
          assert atoms[..j + 1][..j] == atoms[..j];
          sumX := sumX + atoms[j].x;
          sumY := sumY + atoms[j].y;
          j := j + 1;
        }
        assert atoms[..j] == atoms;
        center := Some(Vec(sumX / |atoms| as real, sumY / |atoms| as real));
      }
      c := center.value;
    }

    /** `resetRingCenter` drops the cache, so the next `getCenter`
        recomputes. */
    method ResetRingCenter()
      modifies this
      ensures center == None
      ensures atoms == old(atoms) && bonds == old(bonds) && flags == old(flags)
    {
      center := None;
    }
  }

  class Molecule {
    var bonds: seq<Bond>
    var atoms: seq<Atom>
    var name: string
    var sssr: seq<Ring>
    var mustRecalcSSSR: bool
    var fragments: seq<Option<int>>
    var fragmentCount: int

    /** Every atom has an entry in `fragments`; the source only ever writes
        the entry at `atoms.length` before pushing, and never shortens the
        list. */
    predicate Valid()
      reads this
    {
      |atoms| <= |fragments|
    }

    function Book(): (k: FragmentBook)
      reads this
      ensures k.Valid() <==> Valid()
    {
      FragmentBook(atoms, fragments, fragmentCount)
    }

    /** An empty molecule whose ring cache must be computed. */
    constructor (optName: Option<string>)
      ensures Valid()
      ensures name == (if optName.Some? then optName.value else "")
      ensures atoms == [] && bonds == [] && sssr == [] && mustRecalcSSSR
      ensures fragments == [] && fragmentCount == 0
    {
      bonds := [];
      atoms := [];
      name := if optName.Some? then optName.value else "";
      sssr := [];
      mustRecalcSSSR := true;
      fragments := [];
      fragmentCount := 0;
    }

    function CountAtoms(): nat
      reads this
    {
      |atoms|
    }

    function CountBonds(): nat
      reads this
    {
      |bonds|
    }

    /** `getAtom(id)`: the atom at that position, undefined past the end. */
    function GetAtom(id: int): (r: Option<Atom>)
      reads this
      ensures r.Some? <==> 0 <= id < |atoms|
      ensures r.Some? ==> r.value == atoms[id]
    {
      if 0 <= id < |atoms| then Some(atoms[id]) else None
    }

    /** `getBond(id)`: the bond at that position, undefined past the end. */
    function GetBond(id: int): (r: Option<Bond>)
      reads this
      ensures r.Some? <==> 0 <= id < |bonds|
      ensures r.Some? ==> r.value == bonds[id]
    {
      if 0 <= id < |bonds| then Some(bonds[id]) else None
    }

    /** `indexOfAtom`: the atom's position, or -1 when it is absent. */
    function IndexOfAtom(a: Atom?): (r: int)
      reads this
      ensures r == -1 <==> a !in atoms
      ensures r != -1 ==> 0 <= r < |atoms| && atoms[r] == a && a !in atoms[..r]
    {
      if a == null then -1 else Seqs.IndexOf(atoms, a)
    }

    /** `indexOfBond`: the bond's position, or -1 when it is absent. */
    function IndexOfBond(b: Bond?): (r: int)
      reads this
      ensures r == -1 <==> b !in bonds
      ensures r != -1 ==> 0 <= r < |bonds| && bonds[r] == b && b !in bonds[..r]
    {
      if b == null then -1 else Seqs.IndexOf(bonds, b)
    }

    /** `addAtom`: nothing happens when the atom is already present;
        otherwise it is appended as a fragment of its own. */
    method AddAtom(a: Atom)
      requires Valid()
      modifies this`atoms, this`fragments, this`fragmentCount, a`molecule
      ensures Valid()
      ensures Book() == WithAtom(old(Book()), a)
      ensures bonds == old(bonds) && sssr == old(sssr) && mustRecalcSSSR == old(mustRecalcSSSR)
      ensures name == old(name)
      ensures a.molecule == if old(a in atoms) then old(a.molecule) else this
      ensures a.bonds == old(a.bonds) && a.flags == old(a.flags) && a.Coord() == old(a.Coord())
      ensures a.symbol == old(a.symbol) && a.charge == old(a.charge)
    {
      if a !in atoms {
        var index := |atoms|;
        fragmentCount := fragmentCount + 1;
        fragments := Store(fragments, index, Some(fragmentCount));
        atoms := atoms + [a];
        a.molecule := this;
      }
    }

    /** `addBond`: merges the endpoints' fragments (ids read before the
        endpoints are added), appends the bond, adds it to both endpoints'
        bond sets and then adds both endpoints.  The ring cache flag is left
        alone.  A bond without both endpoints makes the source throw. */
    method AddBond(bond: Bond)
      requires Valid() && bond.source != null && bond.target != null
      modifies this`bonds, this`atoms, this`fragments, this`fragmentCount, bond`molecule
      modifies bond.source`bonds, bond.source`molecule, bond.target`bonds, bond.target`molecule
      ensures Valid()
      ensures Book() == WithAtom(WithAtom(Joined(old(Book()), old(bond.source), old(bond.target)),
                                          old(bond.source)), old(bond.target))
      ensures bonds == old(bonds) + [bond]
      ensures bond.source == old(bond.source) && bond.target == old(bond.target)
      ensures bond.order == old(bond.order) && bond.stereo == old(bond.stereo)
      ensures bond.source.bonds == SetAdd(old(bond.source.bonds), bond)
      ensures bond.target.bonds == SetAdd(old(bond.target.bonds), bond)
      ensures bond.molecule == this
      ensures bond.source.molecule == if old(bond.source in atoms) then old(bond.source.molecule) else this
      ensures bond.target.molecule == if old(bond.target in atoms) then old(bond.target.molecule) else this
      ensures sssr == old(sssr) && mustRecalcSSSR == old(mustRecalcSSSR) && name == old(name)
      ensures bond.source.symbol == old(bond.source.symbol) && bond.source.charge == old(bond.source.charge)
      ensures bond.target.symbol == old(bond.target.symbol) && bond.target.charge == old(bond.target.charge)
      ensures bond.source.Coord() == old(bond.source.Coord()) && bond.target.Coord() == old(bond.target.Coord())
    {
      var s, t := bond.source, bond.target;
      JoinFragments(s, t);
      bonds := bonds + [bond];
      s.bonds := SetAdd(s.bonds, bond);
      t.bonds := SetAdd(t.bonds, bond);
      AddAtom(s);
      AddAtom(t);
      bond.molecule := this;
    }

    /** The first part of `addBond` (molecule.js:90-110): read the
        endpoints' fragment ids and, when they differ, merge them. */
    method JoinFragments(s: Atom, t: Atom)
      requires Valid()
      modifies this`fragments, this`fragmentCount
      ensures Valid()
      ensures Book() == Joined(old(Book()), s, t)
      ensures bonds == old(bonds) && sssr == old(sssr) && mustRecalcSSSR == old(mustRecalcSSSR)
      ensures name == old(name)
    {
      ghost var k0 := Book();
      var sourceIndex := IndexOfAtom(s);
      var targetIndex := IndexOfAtom(t);
      var fs, ft := Frag(fragments, sourceIndex), Frag(fragments, targetIndex);
      assert fs == Frag(k0.fragments, Seqs.IndexOf(k0.atoms, s));
      assert ft == Frag(k0.fragments, Seqs.IndexOf(k0.atoms, t));
      if fs != ft {
        var before, after;
        if Below(fs, ft) {
          before, after := fs, ft;
        } else {
          after, before := fs, ft;
        }
        fragmentCount := fragmentCount - 1;
        RelabelFragments(before, after);
        assert Book() == FragmentBook(k0.atoms, Relabel(k0.fragments, |k0.atoms|, before, after), k0.count - 1);
      }
    }

    /** The loop of `addBond` (molecule.js:105-109) over the atoms'
        fragment ids. */
    method RelabelFragments(before: Option<int>, after: Option<int>)
      requires Valid()
      modifies this`fragments
      ensures Valid()
      ensures fragments == Relabel(old(fragments), |atoms|, before, after)
      ensures atoms == old(atoms) && bonds == old(bonds) && fragmentCount == old(fragmentCount)
      ensures sssr == old(sssr) && mustRecalcSSSR == old(mustRecalcSSSR) && name == old(name)
    {
      ghost var f0 := fragments;
      var i, li := 0, |atoms|;
      while i < li
        invariant 0 <= i <= li && |fragments| == |f0|
        invariant forall j :: 0 <= j < |f0| ==>
                    fragments[j] == if j < i && f0[j] == before then after else f0[j]
        invariant atoms == old(atoms) && bonds == old(bonds) && fragmentCount == old(fragmentCount)
        invariant sssr == old(sssr) && mustRecalcSSSR == old(mustRecalcSSSR) && name == old(name)
      {
        if fragments[i] == before {
          fragments := fragments[i := after];
        }
        i := i + 1;
      }
    }

    /** `findBond(a1, a2)`: the first bond in a1's set whose other atom is
        a2, or null when there is none. */
    method FindBond(a1: Atom, a2: Atom?) returns (r: Bond?)
      ensures r != null ==> r in a1.bonds && r.OtherAtom(a1) == a2
      ensures r != null ==> exists i :: (0 <= i < |a1.bonds| && a1.bonds[i] == r &&
                forall j :: 0 <= j < i ==> a1.bonds[j].OtherAtom(a1) != a2)
      ensures r == null <==> forall b :: b in a1.bonds ==> b.OtherAtom(a1) != a2
    {
      var bs := a1.bonds;
      var i := 0;
      while i < |bs|
        invariant 0 <= i <= |bs|
        invariant forall j :: 0 <= j < i ==> bs[j].OtherAtom(a1) != a2
      {
        if bs[i].OtherAtom(a1) == a2 {
          return bs[i];
        }
        i := i + 1;
      }
      r := null;
    }

    /** `getConnectedBondsList(atom)`: the bonds with the atom as source or
        target, in the molecule's bond order. */
    method GetConnectedBondsList(a: Atom?) returns (r: seq<Bond>)
      ensures r == Incident(bonds, a)
      ensures forall b :: b in r <==> b in bonds && b.Touches(a)
    {
      r := [];
      var i := 0;
      while i < |bonds|
        invariant 0 <= i <= |bonds|
        invariant r == Incident(bonds[..i], a)
      {
        assert bonds[..i + 1][..i] == bonds[..i];
        if bonds[i].source == a || bonds[i].target == a {
          r := r + [bonds[i]];
        }
        i := i + 1;
      }
      assert bonds[..i] == bonds;
      IncidentMembers(bonds, a);
    }

    /** `getRings`: the ring finder runs only while `mustRecalcSSSR` is
        set, after which the cached list is returned.  `found` stands for
        what `ringFinder.findRings(this)` returns when it is called. */
    method GetRings(found: seq<Ring>) returns (r: seq<Ring>)
      modifies this
      ensures !mustRecalcSSSR && r == sssr
      ensures sssr == if old(mustRecalcSSSR) then found else old(sssr)
      ensures atoms == old(atoms) && bonds == old(bonds) && Book() == old(Book())
      ensures name == old(name)
    {
      if mustRecalcSSSR {
        sssr := found;
        mustRecalcSSSR := false;
      }
      r := sssr;
    }

    /** `resetRingCenters`: every ring `getRings` returns loses its cached
        centre. */
    method ResetRingCenters(found: seq<Ring>) returns (rings: seq<Ring>)
      modifies this, set r | r in found, set r | r in sssr
      ensures rings == sssr && !mustRecalcSSSR
      ensures sssr == if old(mustRecalcSSSR) then found else old(sssr)
      ensures forall r :: r in rings ==> r.center == None
      ensures atoms == old(atoms) && bonds == old(bonds) && Book() == old(Book())
    {
      rings := GetRings(found);
      var i := 0;
      while i < |rings|
        invariant 0 <= i <= |rings|
        invariant rings == sssr && !mustRecalcSSSR
        invariant sssr == if old(mustRecalcSSSR) then found else old(sssr)
        invariant atoms == old(atoms) && bonds == old(bonds) && Book() == old(Book())
        invariant forall j :: 0 <= j < i ==> rings[j].center == None
      {
        rings[i].ResetRingCenter();
        i := i + 1;
      }
    }

    /** `removeAtom(atom)`: the atom's bonds are removed from `bonds` one
        by one (first occurrence each), its bond set is cleared, it is
        removed from `atoms` and detached.  The other endpoints' bond sets,
        `fragments` and `fragmentCount` are not touched. */
    method RemoveAtom(a: Atom)
      requires Valid()
      modifies this`bonds, this`atoms, a`bonds, a`molecule
      ensures Valid()
      ensures bonds == Seqs.RemoveEach(old(bonds), old(a.bonds))
      ensures atoms == Seqs.RemoveFirst(old(atoms), a)
      ensures a.bonds == [] && a.molecule == null
      ensures fragments == old(fragments) && fragmentCount == old(fragmentCount)
      ensures sssr == old(sssr) && mustRecalcSSSR == old(mustRecalcSSSR)
    {
      var neighborBonds := a.bonds;
      var k := 0;
      while k < |neighborBonds|
        invariant 0 <= k <= |neighborBonds|
        invariant bonds == Seqs.RemoveEach(old(bonds), neighborBonds[..k])
        invariant atoms == old(atoms) && fragments == old(fragments)
        invariant fragmentCount == old(fragmentCount)
        invariant sssr == old(sssr) && mustRecalcSSSR == old(mustRecalcSSSR)
      {
        assert neighborBonds[..k + 1][..k] == neighborBonds[..k];
        bonds := Seqs.RemoveFirst(bonds, neighborBonds[k]);
        k := k + 1;
      }
      assert neighborBonds[..k] == neighborBonds;
      a.bonds := [];
      atoms := Seqs.RemoveFirst(atoms, a);
      a.molecule := null;
    }

    /** `removeAtom(id)`: the atom at that position; an id past the end
        leaves `atom` undefined and the source throws, changing nothing. */
    method RemoveAtomAt(id: int) returns (ok: bool)
      requires Valid()
      modifies this`bonds, this`atoms
      modifies (if 0 <= id < |atoms| then {atoms[id]} else {})`bonds
      modifies (if 0 <= id < |atoms| then {atoms[id]} else {})`molecule
      ensures Valid()
      ensures ok <==> 0 <= id < old(|atoms|)
      ensures ok ==> old(atoms[id]).bonds == [] && old(atoms[id]).molecule == null
      ensures !ok ==> atoms == old(atoms) && bonds == old(bonds)
      ensures ok ==> atoms == Seqs.RemoveFirst(old(atoms), old(atoms[id]))
      ensures ok ==> bonds == Seqs.RemoveEach(old(bonds), old(atoms[id].bonds))
      ensures fragments == old(fragments) && fragmentCount == old(fragmentCount)
    {
      if 0 <= id < |atoms| {
        RemoveAtom(atoms[id]);
        ok := true;
      } else {
        ok := false;
      }
    }

    /** An endpoint left without bonds leaves the atoms and its molecule. */
    method DropIfBareEnd(a: Atom)
      requires Valid()
      modifies this`atoms, a`molecule
      ensures Valid()
      ensures atoms == DropIfBare(old(atoms), a, a.bonds)
      ensures a.bonds == old(a.bonds) && (|a.bonds| != 0 ==> a.molecule == old(a.molecule))
      ensures |a.bonds| == 0 ==> a.molecule == null
      ensures bonds == old(bonds) && fragments == old(fragments) && fragmentCount == old(fragmentCount)
      ensures sssr == old(sssr) && mustRecalcSSSR == old(mustRecalcSSSR)
    {
      if |a.bonds| == 0 {
        atoms := Seqs.RemoveFirst<Atom>(atoms, a);
        a.molecule := null;
      }
    }

    /** `removeBond(bond)`: the bond leaves both endpoints' sets; an
        endpoint left with no bonds is removed from `atoms` and detached;
        the bond is removed from `bonds` and detached from its molecule and
        both endpoints.  `fragments` and `fragmentCount` are not touched.
        A bond with a cleared endpoint makes the source throw (`ok` false):
        with no source, before anything changes; with a source but no
        target, after the bond has already left the source's set. */
    method RemoveBond(bond: Bond) returns (ok: bool)
      requires Valid()
      modifies this`bonds, this`atoms, bond`source, bond`target, bond`molecule
      modifies {bond.source, bond.target}`bonds, {bond.source, bond.target}`molecule
      ensures Valid()
      ensures ok <==> old(bond.source) != null && old(bond.target) != null
      ensures !ok ==> atoms == old(atoms) && bonds == old(bonds)
      ensures !ok ==> bond.source == old(bond.source) && bond.target == old(bond.target) && bond.molecule == old(bond.molecule)
      ensures old(bond.source) == null && old(bond.target) != null ==> old(bond.target).bonds == old(bond.target.bonds)
      ensures old(bond.source) != null && old(bond.target) == null ==>
                old(bond.source).bonds == SetRemove(old(bond.source.bonds), bond)
      ensures ok ==> bonds == Seqs.RemoveFirst(old(bonds), bond)
      ensures ok ==> bond.source == null && bond.target == null && bond.molecule == null
      ensures ok ==> bond !in old(bond.source).bonds && bond !in old(bond.target).bonds
      ensures ok ==> old(bond.source).bonds == SetRemove(old(bond.source.bonds), bond)
      ensures ok ==> old(bond.target).bonds == SetRemove(old(bond.target.bonds), bond)
      ensures ok ==> atoms == DropIfBare(DropIfBare(old(atoms), old(bond.source), old(bond.source).bonds),
                                       old(bond.target), old(bond.target).bonds)
      ensures ok && |old(bond.source).bonds| == 0 ==> old(bond.source).molecule == null
      ensures ok && |old(bond.target).bonds| == 0 ==> old(bond.target).molecule == null
      ensures fragments == old(fragments) && fragmentCount == old(fragmentCount)
      ensures sssr == old(sssr) && mustRecalcSSSR == old(mustRecalcSSSR)
    {
      var s, t := bond.source, bond.target;
      if s == null {
        return false;
      }
      if t == null {
        s.bonds := SetRemove(s.bonds, bond);
        return false;
      }
      DetachBond(bond, s, t);
      DropIfBareEnd(s);
      DropIfBareEnd(t);
      bonds := Seqs.RemoveFirst(bonds, bond);
      bond.molecule := null;
      bond.source := null;
      bond.target := null;
      ok := true;
    }

    /** `removeBond(id)`: the bond at that position; an id past the end
        makes the source throw, changing nothing, and a bond there with a
        cleared endpoint throws as `removeBond(bond)` does. */
    method RemoveBondAt(id: int) returns (ok: bool)
      requires Valid()
      modifies this`bonds, this`atoms
      modifies (if 0 <= id < |bonds| then {bonds[id]} else {})`source
      modifies (if 0 <= id < |bonds| then {bonds[id]} else {})`target
      modifies (if 0 <= id < |bonds| then {bonds[id]} else {})`molecule
      modifies (if 0 <= id < |bonds| then {bonds[id].source, bonds[id].target} else {})`bonds
      modifies (if 0 <= id < |bonds| then {bonds[id].source, bonds[id].target} else {})`molecule
      ensures Valid()
      ensures ok <==> 0 <= id < old(|bonds|) && old(bonds[id].source) != null && old(bonds[id].target) != null
      ensures ok ==> bonds == Seqs.RemoveFirst(old(bonds), old(bonds[id]))
      ensures ok ==> old(bonds[id]).source == null && old(bonds[id]).target == null && old(bonds[id]).molecule == null
      ensures ok ==> atoms == DropIfBare(DropIfBare(old(atoms), old(bonds[id].source), old(bonds[id].source).bonds),
                                       old(bonds[id].target), old(bonds[id].target).bonds)
      ensures ok ==> old(bonds[id].source).bonds == SetRemove(old(bonds[id].source.bonds), old(bonds[id]))
      ensures ok ==> old(bonds[id].target).bonds == SetRemove(old(bonds[id].target.bonds), old(bonds[id]))
      ensures !ok ==> atoms == old(atoms) && bonds == old(bonds)
      ensures !ok && 0 <= id < old(|bonds|) && old(bonds[id].source) != null ==>
                old(bonds[id].source).bonds == SetRemove(old(bonds[id].source.bonds), old(bonds[id]))
      ensures fragments == old(fragments) && fragmentCount == old(fragmentCount)
    {
      if 0 <= id < |bonds| {
        ok := RemoveBond(bonds[id]);
      } else {
        ok := false;
      }
    }
  }

  /** The first two steps of `removeBond`: the bond leaves the source's
      bond set, then the target's; with both ends the same atom, the
      second removal finds nothing left to remove. */
  method DetachBond(bond: Bond, s: Atom, t: Atom)
    modifies s`bonds, t`bonds
    ensures s.bonds == SetRemove(old(s.bonds), bond)
    ensures t.bonds == SetRemove(old(t.bonds), bond)
  {
    s.bonds := SetRemove(s.bonds, bond);
    if s == t {
      Seqs.WithoutNone(s.bonds, [bond]);
    }
    t.bonds := SetRemove(t.bonds, bond);
  }

  /** `removeBond`'s treatment of an endpoint: removed from the atoms when
      its bond set is now empty. */
  function DropIfBare(atoms: seq<Atom>, a: Atom, bondsLeft: seq<Bond>): seq<Atom>
  {
    if |bondsLeft| == 0 then Seqs.RemoveFirst(atoms, a) else atoms
  }

  /** On a bond list without repetitions, `removeAtom` leaves none of the
      atom's bonds and every other bond. */
  lemma RemoveAtomDropsIncident(bonds: seq<Bond>, atomBonds: seq<Bond>)
    requires Seqs.Distinct(bonds)
    ensures forall b :: b in Seqs.RemoveEach(bonds, atomBonds) <==> b in bonds && b !in atomBonds
  {
    Seqs.RemoveEachWithout(bonds, atomBonds);
    forall b ensures b in Seqs.Without(bonds, atomBonds) <==> b in bonds && b !in atomBonds {
      Seqs.WithoutMember(bonds, atomBonds, b);
    }
  }
}
