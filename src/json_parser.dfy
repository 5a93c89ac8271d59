// The ChemDoodle JSON reader of src/io/json_parser.js: the text handed to
// `JSON.parse`, `parseAtom` and `parseMolecule`.

module JsonParser {
  import opened Wrappers
  import opened ChemDoodleJson
  import opened ChemModel
  import opened Vec2

  /** The text the constructor parses (line 8): the given text, or '{}'
      when it is missing or empty. */
  function SourceText(json: Option<string>): (t: string)
    ensures t == "{}" <==> json.None? || json.value == "" || json.value == "{}"
    ensures json.Some? && json.value != "" ==> t == json.value
  {
    if json.Some? && json.value != "" then json.value else "{}"
  }

  /** The symbol `parseAtom` uses: the label when it is a non-empty string,
      otherwise 'C'. */
  function SymbolOf(obj: JAtom): (s: string)
    ensures s != ""
    ensures s == "C" <==> obj.l.None? || obj.l.value == "" || obj.l.value == "C"
  {
    if obj.l.Some? && obj.l.value != "" then obj.l.value else "C"
  }

  /** A coordinate `parseAtom` uses: the given number, 0 when missing
      (a given 0 is replaced by 0). */
  function CoordOf(v: Option<real>): (r: real)
    ensures v.Some? ==> r == v.value
    ensures v.None? ==> r == 0.0
  {
    if v.Some? then v.value else 0.0
  }

  /** `parseAtom(obj)`: `new ModelAtom(symbol, x, y)` with the defaults of
      lines 17-19; the charge `c` is not read. */
  method ParseAtom(obj: JAtom) returns (a: Atom)
    ensures fresh(a)
    ensures a.symbol == SymbolOf(obj) && a.Coord() == Vec(CoordOf(obj.x), CoordOf(obj.y))
    ensures a.charge == 0 && !a.aromatic && a.isotope == 0 && a.bonds == []
  {
    a := new Atom(Some(SymbolOf(obj)), Some(CoordOf(obj.x)), Some(CoordOf(obj.y)), None, None, None);
  }

  /** A bond entry whose positions both name an atom. */
  predicate Connects(jb: JBond, n: nat)
  {
    0 <= jb.b < n && 0 <= jb.e < n
  }

  /** The atom the molecule's k-th atom was read from. */
  predicate ReadAtom(a: Atom, obj: JAtom)
    reads a
  {
    a.symbol == SymbolOf(obj) && a.Coord() == Vec(CoordOf(obj.x), CoordOf(obj.y)) && a.charge == 0
  }

  /** `parseMolecule(obj)`: the atoms in the listed order, then for each
      bond entry a single bond from `atoms[b]` to `atoms[e]`.  An entry
      naming no atom gives an undefined endpoint, on which `addBond` fails;
      the order `o` and stereo `s` are not read. */
  method ParseMolecule(obj: JMolecule) returns (r: Result<Molecule>)
    ensures r.Err? <==> exists k :: 0 <= k < |obj.b| && !Connects(obj.b[k], |obj.a|)
    ensures r.Err? ==> r.error == "TypeError: Cannot read properties of undefined (reading 'bonds')"
    ensures r.Ok? ==> fresh(r.value) && r.value.Valid()
    ensures r.Ok? ==> |r.value.atoms| == |obj.a|
                      && forall k :: 0 <= k < |obj.a| ==> ReadAtom(r.value.atoms[k], obj.a[k])
    ensures r.Ok? ==> |r.value.bonds| == |obj.b|
                      && forall k :: 0 <= k < |obj.b| ==>
                           && r.value.bonds[k].source == r.value.atoms[obj.b[k].b]
                           && r.value.bonds[k].target == r.value.atoms[obj.b[k].e]
                           && r.value.bonds[k].order == SINGLE
  {
    var mol := ReadAtoms(obj.a);
    var ok := ReadBonds(mol, obj);
    if !ok {
      return Err("TypeError: Cannot read properties of undefined (reading 'bonds')");
    }
    r := Ok(mol);
  }

  /** The first loop of `parseMolecule` (line 31). */
  method ReadAtoms(objs: seq<JAtom>) returns (mol: Molecule)
    ensures fresh(mol) && mol.Valid() && mol.bonds == []
    ensures |mol.atoms| == |objs|
    ensures forall k :: 0 <= k < |objs| ==> fresh(mol.atoms[k]) && ReadAtom(mol.atoms[k], objs[k])
  {
    mol := new Molecule(None);
    var i := 0;
    while i < |objs|
      invariant 0 <= i <= |objs|
      invariant fresh(mol) && mol.Valid() && mol.bonds == []
      invariant |mol.atoms| == i
      invariant forall k :: 0 <= k < i ==> fresh(mol.atoms[k]) && ReadAtom(mol.atoms[k], objs[k])
    {
      var a := ParseAtom(objs[i]);
      mol.AddAtom(a);
      i := i + 1;
    }
  }

  /** The second loop of `parseMolecule` (line 32), on the molecule the
      first one built.  It stops at the first entry naming no atom. */
  method ReadBonds(mol: Molecule, obj: JMolecule) returns (ok: bool)
    requires mol.Valid() && mol.bonds == [] && |mol.atoms| == |obj.a|
    requires forall k :: 0 <= k < |obj.a| ==> ReadAtom(mol.atoms[k], obj.a[k])
    modifies mol, set a | a in mol.atoms
    ensures ok <==> forall k :: 0 <= k < |obj.b| ==> Connects(obj.b[k], |obj.a|)
    ensures ok ==> mol.Valid() && mol.atoms == old(mol.atoms)
    ensures ok ==> forall k :: 0 <= k < |obj.a| ==> ReadAtom(mol.atoms[k], obj.a[k])
    ensures ok ==> |mol.bonds| == |obj.b|
                   && forall k :: 0 <= k < |obj.b| ==>
                        && mol.bonds[k].source == mol.atoms[obj.b[k].b]
                        && mol.bonds[k].target == mol.atoms[obj.b[k].e]
                        && mol.bonds[k].order == SINGLE
  {
    ghost var atoms := mol.atoms;
    var j := 0;
    while j < |obj.b|
      invariant 0 <= j <= |obj.b|
      invariant mol.Valid() && mol.atoms == atoms
      invariant forall k :: 0 <= k < |atoms| ==> ReadAtom(atoms[k], obj.a[k])
      invariant forall k :: 0 <= k < j ==> Connects(obj.b[k], |obj.a|)
      invariant |mol.bonds| == j
      invariant forall k :: 0 <= k < j ==>
                  && fresh(mol.bonds[k])
                  && mol.bonds[k].source == atoms[obj.b[k].b]
                  && mol.bonds[k].target == atoms[obj.b[k].e]
                  && mol.bonds[k].order == SINGLE
    {
      var jb := obj.b[j];
      if !Connects(jb, |mol.atoms|) {
        return false;
      }
      ConnectEntry(mol, mol.atoms[jb.b], mol.atoms[jb.e]);
      j := j + 1;
    }
    ok := true;
  }

  /** One pass of the second loop: `addBond(new ModelBond(s, t))` between
      two atoms already in the molecule. */
  method ConnectEntry(mol: Molecule, s: Atom, t: Atom)
    requires mol.Valid() && s in mol.atoms && t in mol.atoms
    modifies mol, s, t
    ensures mol.Valid() && mol.atoms == old(mol.atoms)
    ensures |mol.bonds| == |old(mol.bonds)| + 1 && mol.bonds[..|old(mol.bonds)|] == old(mol.bonds)
    ensures var b := mol.bonds[|old(mol.bonds)|];
            fresh(b) && b.source == s && b.target == t && b.order == SINGLE
    ensures s.symbol == old(s.symbol) && s.charge == old(s.charge) && s.Coord() == old(s.Coord())
    ensures t.symbol == old(t.symbol) && t.charge == old(t.charge) && t.Coord() == old(t.Coord())
  {
    var bond := new Bond(s, t, None, None, None, null);
    ghost var k := mol.Book();
    AddBondJoinsFragments(k, s, t);
    mol.AddBond(bond);
    assert mol.Book() == WithAtom(WithAtom(Joined(k, s, t), s), t);
  }
}
