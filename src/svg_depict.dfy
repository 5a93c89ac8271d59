// The older SVG writer of src/depict/svg_depict.js: a module of free
// functions appending to its own module-level `sb`, never reset.  Every
// atom, carbons included, is written at its position as a percentage of
// the bounding box; bonds are not drawn.  The bounding box is a parameter
// and the `console.log` of line 28 is not part of this model.

module SvgPlainDepiction {
  import opened JsNumber
  import opened ChemModel
  import opened SvgText
  import opened SvgDepiction
  import Seqs

  /** What `svgtxt` reads from an atom: its symbol and coordinates. */
  datatype Spot = Spot(symbol: string, x: real, y: real)

  function SpotOf(a: Atom): Spot
    reads a
  {
    Spot(a.symbol, a.x, a.y)
  }

  function SpotsOf(atoms: seq<Atom>): (ss: seq<Spot>)
    reads set a | a in atoms
    ensures |ss| == |atoms|
    ensures forall k :: 0 <= k < |atoms| ==> ss[k] == SpotOf(atoms[k])
  {
    if atoms == [] then [] else SpotsOf(atoms[..|atoms| - 1]) + [SpotOf(atoms[|atoms| - 1])]
  }

  /** `(c - d) * 100 / size`, evaluated left to right (lines 32-33). */
  function Percent(c: real, d: real, size: real): Num
  {
    Div(Mul(Sub(Fin(c), Fin(d)), Fin(100.0)), Fin(size))
  }

  /** The element `svgtxt` appends (lines 29-36): the symbol at the atom's
      position relative to the box's top-left corner, as a percentage of
      the box's width and height. */
  function SpotElement(s: Spot, box: Box, fontSize: Num): Element
  {
    PlainText(Percent(s.x, box.left, box.right - box.left),
              Percent(s.y, box.top, box.bottom - box.top), fontSize, s.symbol)
  }

  /** With finite operands and a non-zero size, the position is the exact
      proportion of the size. */
  lemma PercentExact(c: real, d: real, size: real)
    requires size != 0.0
    ensures Percent(c, d, size) == Fin((c - d) * 100.0 / size)
  {
    var off := c - d;
    FiniteArithmetic(c, d);
    assert Sub(Fin(c), Fin(d)) == Fin(off);
    FiniteArithmetic(off, 100.0);
    assert Mul(Fin(off), Fin(100.0)) == Fin(off * 100.0);
    FiniteArithmetic(off * 100.0, size);
  }

  /** In a box of non-zero width, the left edge is at 0% and the right edge
      at 100%. */
  lemma PercentOfWidthEdges(box: Box)
    requires box.right != box.left
    ensures Percent(box.left, box.left, box.right - box.left) == Fin(0.0)
    ensures Percent(box.right, box.left, box.right - box.left) == Fin(100.0)
  {
    var size := box.right - box.left;
    PercentExact(box.left, box.left, size);
    PercentExact(box.right, box.left, size);
    assert size * 100.0 / size == 100.0;
  }

  /** A molecule whose atoms all share one x coordinate has a box of width
      zero, and every atom's x comes out as NaN (0 * 100 / 0). */
  lemma FlatBoxIsNaN(c: real, box: Box)
    requires box.left == box.right == c
    ensures Percent(c, box.left, box.right - box.left) == NaN
  {
    FiniteArithmetic(c, box.left);
    assert Sub(Fin(c), Fin(box.left)) == Fin(0.0);
    FiniteArithmetic(0.0, 100.0);
  }

  function SpotsText(ss: seq<Spot>, box: Box, fontSize: Num): (es: seq<Element>)
    ensures |es| == |ss|
    ensures forall k :: 0 <= k < |ss| ==> es[k] == SpotElement(ss[k], box, fontSize)
  {
    if ss == [] then [] else SpotsText(ss[..|ss| - 1], box, fontSize) + [SpotElement(ss[|ss| - 1], box, fontSize)]
  }

  lemma SpotsTextSnoc(ss: seq<Spot>, i: nat, box: Box, fontSize: Num)
    requires i < |ss|
    ensures SpotsText(ss[..i + 1], box, fontSize) == SpotsText(ss[..i], box, fontSize) + [SpotElement(ss[i], box, fontSize)]
  {
    assert ss[..i + 1][..i] == ss[..i];
  }

  /** Every atom is written, carbons included, with its own symbol and in
      molecule order. */
  lemma EveryAtomWritten(atoms: seq<Atom>, box: Box, fontSize: Num)
    ensures var es := SpotsText(SpotsOf(atoms), box, fontSize);
            |es| == |atoms| &&
            forall k :: 0 <= k < |atoms| ==> es[k].PlainText? && es[k].symbol == atoms[k].symbol
  {
    var ss := SpotsOf(atoms);
    var es := SpotsText(ss, box, fontSize);
    forall k | 0 <= k < |atoms|
      ensures es[k].PlainText? && es[k].symbol == atoms[k].symbol
    {
      assert es[k] == SpotElement(ss[k], box, fontSize);
    }
  }

  /** `writeHeader` (lines 11-18). */
  method WriteHeader(buf: Buffer, w: Num, h: Num)
    modifies buf
    ensures buf.sb == old(buf.sb) + [PlainHeader(w, h)]
  {
    buf.sb := buf.sb + [PlainHeader(w, h)];
  }

  /** `svgtxt` (lines 29-36): one atom's text. */
  method SvgTxt(buf: Buffer, spot: Spot, box: Box, fontSize: Num)
    modifies buf
    ensures buf.sb == old(buf.sb) + [SpotElement(spot, box, fontSize)]
  {
    buf.sb := buf.sb + [SpotElement(spot, box, fontSize)];
  }

  /** The `forEach` of line 37 over atoms already read. */
  method WriteSpots(buf: Buffer, spots: seq<Spot>, box: Box, fontSize: Num)
    modifies buf
    ensures buf.sb == old(buf.sb) + SpotsText(spots, box, fontSize)
  {
    var i := 0;
    while i < |spots|
      invariant 0 <= i <= |spots|
      invariant buf.sb == old(buf.sb) + SpotsText(spots[..i], box, fontSize)
    {
      SpotsTextSnoc(spots, i, box, fontSize);
      SvgTxt(buf, spots[i], box, fontSize);
      Seqs.AppendAssoc(old(buf.sb), SpotsText(spots[..i], box, fontSize), [SpotElement(spots[i], box, fontSize)]);
      i := i + 1;
    }
    assert spots[..i] == spots;
  }

  /** `drawAtoms` (lines 20-38).  Writing changes only `sb`, so the atoms
      are read before the first one is written. */
  method DrawAtoms(buf: Buffer, mol: Molecule, fontSize: Num, box: Box)
    modifies buf
    ensures buf.sb == old(buf.sb) + SpotsText(old(SpotsOf(mol.atoms)), box, fontSize)
  {
    WriteSpots(buf, SpotsOf(mol.atoms), box, fontSize);
  }

  /** `drawBonds` (line 40) writes nothing. */
  method DrawBonds(buf: Buffer, mol: Molecule)
    modifies buf
    ensures buf.sb == old(buf.sb)
  {
  }

  /** `toSvg` (lines 42-48): header, background and every atom at font
      size 1, then the closing tag, which is not kept in `sb`. */
  method ToSvg(buf: Buffer, w: Num, h: Num, mol: Molecule, box: Box) returns (r: seq<Element>)
    modifies buf
    ensures buf.sb == old(buf.sb) + [PlainHeader(w, h), Background]
                      + SpotsText(old(SpotsOf(mol.atoms)), box, Fin(1.0))
    ensures r == buf.sb + [Close]
  {
    var spots := SpotsOf(mol.atoms);
    ghost var start := buf.sb;
    WriteHeader(buf, w, h);
    buf.sb := buf.sb + [Background];
    assert buf.sb == start + [PlainHeader(w, h), Background];
    WriteSpots(buf, spots, box, Fin(1.0));
    r := buf.sb + [Close];
  }

  /** `sb` is never reset: the second output begins with the first one,
      closing tag removed, both as elements and as text. */
  method ToSvgTwice(buf: Buffer, w: Num, h: Num, mol: Molecule, box: Box, numText: Num -> string)
    returns (r1: seq<Element>, r2: seq<Element>)
    modifies buf
    ensures |r1| >= 1 && r1[|r1| - 1] == Close
    ensures r1[..|r1| - 1] <= r2
    ensures Render(r1[..|r1| - 1], numText) <= Render(r2, numText)
  {
    r1 := ToSvg(buf, w, h, mol, box);
    r2 := ToSvg(buf, w, h, mol, box);
    assert r1[..|r1| - 1] <= r2;
    RenderPrefix(r1[..|r1| - 1], r2, numText);
  }
}
