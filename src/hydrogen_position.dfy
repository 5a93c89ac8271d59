// The hydrogen-label placement rule of src/renderer/hydrogen_position.js:
// which side of an atom's symbol its implicit hydrogens are written on.
// Only 'Right' and 'Left' are ever chosen; the angular-extent and
// cardinal-direction rules the comments describe are not implemented by
// the source, so an atom with two or more neighbours always gets 'Right'.

module HydrogenPlacement {
  import opened Wrappers
  import opened Vec2
  import opened ChemModel

  datatype Position = Right | Left | Above | Below

  /** The elements whose lone atom is written hydrogens first (H2O, not
      OH2), line 67. */
  const PREFIXED_H: seq<string> := ["O", "S", "Se", "Te", "F", "Cl", "Br", "I"]

  /** The single-bond threshold of line 49. */
  const VERTICAL_THRESHOLD: real := 0.1

  const GetBondsError := "TypeError: atom.getBonds is not a function"
  const CoordError := "TypeError: Cannot read properties of null (reading 'coord')"
  const VectorError := "TypeError: Cannot read properties of undefined (reading 'x')"

  /** The state the constructor leaves: the atom and one vector per bond. */
  datatype HydrogenPosition = HydrogenPosition(atom: Atom, vectorBonds: seq<Vec>)

  /** The constructor as written (lines 22-35): a ModelAtom has no
      `getBonds` method, so the call at line 24 throws for every atom. */
  function NewAsWritten(atom: Atom): (r: Result<HydrogenPosition>)
  {
    Err(GetBondsError)
  }

  /** No hydrogen position can be constructed as written. */
  lemma ConstructorAlwaysThrows(atom: Atom)
    ensures NewAsWritten(atom).Err?
  {
  }

  /** The atoms at the ends of some bonds. */
  function Ends(bonds: seq<Bond>): set<Atom?>
    reads bonds
  {
    (set b | b in bonds :: b.source) + (set b | b in bonds :: b.target)
  }

  /** The vectors of lines 24-28 over the given bonds, each from the atom to
      the bond's other end; a bond that does not touch the atom has a null
      other end, whose `coord` cannot be read. */
  function BondVectors(atom: Atom, bonds: seq<Bond>): (r: Result<seq<Vec>>)
    reads atom, bonds, Ends(bonds)
    ensures r.Err? <==> exists k :: 0 <= k < |bonds| && bonds[k].OtherAtom(atom) == null
    ensures r.Err? ==> r.error == CoordError
    ensures r.Ok? ==> |r.value| == |bonds|
    ensures r.Ok? ==> forall k :: 0 <= k < |bonds| ==>
                        var other := bonds[k].OtherAtom(atom);
                        other != null && Plus(atom.Coord(), r.value[k]) == other.Coord()
  {
    if bonds == [] then Ok([])
    else
      var last := bonds[|bonds| - 1];
      var other := last.OtherAtom(atom);
      var init := BondVectors(atom, bonds[..|bonds| - 1]);
      if init.Err? then init
      else if other == null then Err(CoordError)
      else Ok(init.value + [FromPoints(atom.Coord(), other.Coord())])
  }

  /** The constructor as evidently intended: the vectors over the atom's
      own bond set. */
  function NewHydrogenPosition(atom: Atom): (r: Result<HydrogenPosition>)
    reads atom, atom.bonds, Ends(atom.bonds)
    ensures r.Ok? ==> r.value.atom == atom && |r.value.vectorBonds| == |atom.bonds|
    ensures r.Err? <==> exists k :: 0 <= k < |atom.bonds| && atom.bonds[k].OtherAtom(atom) == null
  {
    var vs := BondVectors(atom, atom.bonds);
    if vs.Err? then Err(vs.error) else Ok(HydrogenPosition(atom, vs.value))
  }

  /** `usingDefaultPlacement` (lines 61-70): hydrogens go left of the
      elements of PREFIXED_H only. */
  function UsingDefaultPlacement(symbol: string): (p: Position)
    ensures p == Left <==> symbol in PREFIXED_H
    ensures p == Left || p == Right
  {
    if symbol in PREFIXED_H then Left else Right
  }

  /** `getHydrogenPosition` (lines 42-52).  The neighbour count is read
      from the atom when it is called, the bond vector from the
      constructor's snapshot; an atom that gained its only bond after
      construction has no vector to read. */
  function GetHydrogenPosition(h: HydrogenPosition): (r: Result<Position>)
    reads h.atom
    ensures r.Ok? ==> r.value == Left || r.value == Right
    ensures r.Err? <==> |h.atom.bonds| == 1 && h.vectorBonds == []
    ensures |h.atom.bonds| >= 2 ==> r == Ok(Right)
    ensures |h.atom.bonds| == 0 ==> (r == Ok(Left) <==> h.atom.symbol in PREFIXED_H)
    ensures |h.atom.bonds| == 1 && h.vectorBonds != [] ==>
              (r == Ok(Left) <==> h.vectorBonds[0].x > VERTICAL_THRESHOLD)
  {
    var n := |h.atom.bonds|;
    if n > 2 then Ok(Right)
    else if n > 1 then Ok(Right)
    else if n == 1 then
      if h.vectorBonds == [] then Err(VectorError)
      else if h.vectorBonds[0].x > VERTICAL_THRESHOLD then Ok(Left) else Ok(Right)
    else Ok(UsingDefaultPlacement(h.atom.symbol))
  }

  /** For an atom with exactly one bond, placed by a freshly constructed
      position: hydrogens go left iff the neighbour lies more than 0.1 to
      the right of the atom. */
  lemma OneNeighbourSide(atom: Atom)
    requires |atom.bonds| == 1 && atom.bonds[0].OtherAtom(atom) != null
    ensures NewHydrogenPosition(atom).Ok?
    ensures var other := atom.bonds[0].OtherAtom(atom);
            (GetHydrogenPosition(NewHydrogenPosition(atom).value) == Ok(Left) <==>
             other.x - atom.x > VERTICAL_THRESHOLD)
  {
    var other := atom.bonds[0].OtherAtom(atom);
    var h := NewHydrogenPosition(atom).value;
    assert Plus(atom.Coord(), h.vectorBonds[0]) == other.Coord();
  }
}
