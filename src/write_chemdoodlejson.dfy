// The ChemDoodle JSON writer of src/io/write_chemdoodlejson.js: a molecule
// becomes a document holding one molecule entry and no shapes.  The final
// `JSON.stringify` (line 78) is not part of this model; the document value
// is the result.

module ChemJsonWriter {
  import opened Wrappers
  import opened ChemDoodleJson
  import opened ChemModel
  import JsonParser

  /** The stereo name `processBond` writes (lines 36-51); codes outside
      10-13 are written as 'none' too.  'protuding' keeps the source's
      spelling. */
  function StereoName(code: int): (s: string)
    ensures s == "none" || s == "protuding" || s == "ambiguous" || s == "recessed"
    ensures s != "none" <==> UP <= code <= DOWN
  {
    match code
    case 10 => "none"
    case 11 => "protuding"
    case 12 => "ambiguous"
    case 13 => "recessed"
    case _ => "none"
  }

  /** Apart from 'none', which also stands for every unknown code, each
      stereo code gets a name of its own. */
  lemma StereoNamesDistinct(c1: int, c2: int)
    requires StereoName(c1) == StereoName(c2) && StereoName(c1) != "none"
    ensures c1 == c2
  {
  }

  /** `processAtom` (lines 16-24): label, coordinates and charge. */
  function ProcessAtom(atom: Atom): (j: JAtom)
    reads atom
    ensures j.l.Some? && j.x.Some? && j.y.Some? && j.c.Some?
  {
    JAtom(Some(atom.symbol), Some(atom.x), Some(atom.y), Some(atom.charge))
  }

  /** `atoms.map(processAtom)` (line 64). */
  function ProcessAtoms(atoms: seq<Atom>): (js: seq<JAtom>)
    reads atoms
    ensures |js| == |atoms|
    ensures forall k :: 0 <= k < |atoms| ==> js[k] == ProcessAtom(atoms[k])
  {
    if atoms == [] then [] else ProcessAtoms(atoms[..|atoms| - 1]) + [ProcessAtom(atoms[|atoms| - 1])]
  }

  /** `processBond` (lines 29-53): the endpoints by position in the
      molecule (-1 for an atom it does not hold), the order and the stereo
      name. */
  function ProcessBond(bond: Bond, mol: Molecule): (j: JBond)
    reads bond, mol
    ensures j.b == -1 <==> bond.source !in mol.atoms
    ensures j.e == -1 <==> bond.target !in mol.atoms
    ensures j.b != -1 ==> 0 <= j.b < |mol.atoms| && mol.atoms[j.b] == bond.source
    ensures j.e != -1 ==> 0 <= j.e < |mol.atoms| && mol.atoms[j.e] == bond.target
    ensures j.o == Some(bond.order) && j.s.Some?
  {
    JBond(mol.IndexOfAtom(bond.source), mol.IndexOfAtom(bond.target), Some(bond.order),
          Some(StereoName(bond.stereo)))
  }

  /** `processMolecule` (lines 58-74): one molecule entry with an atom entry
      per atom and, from the push loop, a bond entry per bond, both in model
      order; no shapes. */
  method ProcessMolecule(mol: Molecule) returns (doc: JDocument)
    ensures |doc.m| == 1 && doc.s == []
    ensures |doc.m[0].a| == |mol.atoms|
    ensures forall k :: 0 <= k < |mol.atoms| ==> doc.m[0].a[k] == ProcessAtom(mol.atoms[k])
    ensures |doc.m[0].b| == |mol.bonds|
    ensures forall k :: 0 <= k < |mol.bonds| ==> doc.m[0].b[k] == ProcessBond(mol.bonds[k], mol)
  {
    var a := ProcessAtoms(mol.atoms);
    var b: seq<JBond> := [];
    var i := 0;
    while i < |mol.bonds|
      invariant 0 <= i <= |mol.bonds|
      invariant |b| == i
      invariant forall k :: 0 <= k < i ==> b[k] == ProcessBond(mol.bonds[k], mol)
    {
      b := b + [ProcessBond(mol.bonds[i], mol)];
      i := i + 1;
    }
    doc := JDocument([JMolecule(a, b)], []);
  }

  /** The symbol the reader takes from a written atom: the atom's own,
      except that an empty symbol, being falsy, comes back as 'C'. */
  function SymbolBack(symbol: string): string
  {
    if symbol == "" then "C" else symbol
  }

  /** Writing an atom and reading the entry back keeps its symbol (an empty
      one becomes 'C') and its coordinates; the charge is written but not
      read, so it comes back as 0. */
  lemma AtomRoundTrip(atom: Atom)
    ensures JsonParser.SymbolOf(ProcessAtom(atom)) == SymbolBack(atom.symbol)
    ensures JsonParser.CoordOf(ProcessAtom(atom).x) == atom.x
    ensures JsonParser.CoordOf(ProcessAtom(atom).y) == atom.y
  {
  }

  /** Writing a molecule and reading its entry back.  The reader fails
      exactly when some bond has an endpoint outside the molecule (written
      as -1).  Otherwise it gives the same number of atoms with the same
      symbols and coordinates but charge 0, and one bond per bond joining
      the atoms at the same positions, every one of them single, whatever
      order and stereo were written. */
  method WriteThenRead(mol: Molecule) returns (r: Result<Molecule>)
    ensures r.Err? <==> exists k :: 0 <= k < |mol.bonds| &&
                          (mol.bonds[k].source !in mol.atoms || mol.bonds[k].target !in mol.atoms)
    ensures r.Ok? ==> |r.value.atoms| == |mol.atoms| && |r.value.bonds| == |mol.bonds|
    ensures r.Ok? ==> forall k :: 0 <= k < |mol.atoms| ==>
                        && r.value.atoms[k].symbol == SymbolBack(mol.atoms[k].symbol)
                        && r.value.atoms[k].Coord() == mol.atoms[k].Coord()
                        && r.value.atoms[k].charge == 0
    ensures r.Ok? ==> forall k :: 0 <= k < |mol.bonds| ==>
                        && r.value.bonds[k].source == r.value.atoms[mol.IndexOfAtom(mol.bonds[k].source)]
                        && r.value.bonds[k].target == r.value.atoms[mol.IndexOfAtom(mol.bonds[k].target)]
                        && r.value.bonds[k].order == SINGLE
  {
    var doc := ProcessMolecule(mol);
    var entry := doc.m[0];
    forall k | 0 <= k < |mol.atoms|
      ensures JsonParser.SymbolOf(entry.a[k]) == SymbolBack(mol.atoms[k].symbol)
      ensures JsonParser.CoordOf(entry.a[k].x) == mol.atoms[k].x
      ensures JsonParser.CoordOf(entry.a[k].y) == mol.atoms[k].y
    {
      AtomRoundTrip(mol.atoms[k]);
    }
    forall k | 0 <= k < |mol.bonds|
      ensures JsonParser.Connects(entry.b[k], |entry.a|) <==>
              mol.bonds[k].source in mol.atoms && mol.bonds[k].target in mol.atoms
    {
      assert entry.b[k] == ProcessBond(mol.bonds[k], mol);
    }
    r := JsonParser.ParseMolecule(entry);
    if r.Ok? {
      forall k | 0 <= k < |mol.bonds|
        ensures r.value.bonds[k].source == r.value.atoms[mol.IndexOfAtom(mol.bonds[k].source)]
        ensures r.value.bonds[k].target == r.value.atoms[mol.IndexOfAtom(mol.bonds[k].target)]
      {
        assert entry.b[k] == ProcessBond(mol.bonds[k], mol);
      }
    }
  }
}
