// The ChemDoodle JSON objects that src/io/json_parser.js reads and
// src/io/write_chemdoodlejson.js writes, as the plain values `JSON.parse`
// gives and `JSON.stringify` takes.  A field that may be missing is an
// Option.

module ChemDoodleJson {
  import opened Wrappers

  /** An atom entry: label `l`, coordinates `x`, `y` and charge `c`. */
  datatype JAtom = JAtom(l: Option<string>, x: Option<real>, y: Option<real>, c: Option<int>)

  /** A bond entry: the positions `b` and `e` of its atoms in the `a` list,
      its order `o` and its stereo name `s`. */
  datatype JBond = JBond(b: int, e: int, o: Option<int>, s: Option<string>)

  /** A molecule entry: its atoms and bonds. */
  datatype JMolecule = JMolecule(a: seq<JAtom>, b: seq<JBond>)

  /** A shape entry; the writer emits none. */
  datatype JShape = JShape(t: string)

  /** A document: the molecules `m` and the shapes `s`. */
  datatype JDocument = JDocument(m: seq<JMolecule>, s: seq<JShape>)
}
