// The SVG writer of src/depict/svg.js.  Every depiction appends to one
// module-level string `sb` that is never reset; here that string is the
// field of a `Buffer` object that all depictions share, held as the
// elements of SvgText.  The bounding box and the bond lengths (which need a
// square root) are parameters, and so are the configuration values of
// src/depict/config.js.

module SvgDepiction {
  import opened Wrappers
  import opened JsNumber
  import opened ChemModel
  import opened SvgText

  /** The values read from src/depict/config.js. */
  datatype Config = Config(fontSize: real, bondLength: real, bondSpacing: real,
                           lineWidth: real, marginWidth: real)

  /** `getBoundingBox()` of the molecule's atoms. */
  datatype Box = Box(top: real, bottom: real, left: real, right: real)

  /** One `<line>` element's end points. */
  datatype Line = Line(x1: Num, y1: Num, x2: Num, y2: Num)

  /** A module-level `sb` string: svg.js line 6, and its own in
      src/depict/svg_depict.js line 9. */
  class Buffer {
    var sb: seq<Element>

    constructor ()
      ensures sb == []
    {
      sb := [];
    }
  }

  function RealSum(s: seq<real>): real
  {
    if s == [] then 0.0 else RealSum(s[..|s| - 1]) + s[|s| - 1]
  }

  /** `getAverageBondLength` (molecule.js:143-152) over the bonds'
      lengths: 1.25 for a molecule without bonds, else the mean. */
  function AverageBondLength(lengths: seq<real>): (r: Num)
    ensures r.Fin?
    ensures lengths == [] ==> r.v == 1.25
    ensures lengths != [] ==> r.v * (|lengths| as real) == RealSum(lengths)
  {
    if lengths == [] then Fin(1.25) else Fin(RealSum(lengths) / (|lengths| as real))
  }

  lemma {:induction false} RealSumBetween(s: seq<real>, lo: real, hi: real)
    requires forall k :: 0 <= k < |s| ==> lo <= s[k] <= hi
    ensures lo * (|s| as real) <= RealSum(s) <= hi * (|s| as real)
  {
    if s != [] {
      RealSumBetween(s[..|s| - 1], lo, hi);
    }
  }

  /** The mean lies between the shortest and the longest bond. */
  lemma AverageBetween(lengths: seq<real>, lo: real, hi: real)
    requires lengths != [] && forall k :: 0 <= k < |lengths| ==> lo <= lengths[k] <= hi
    ensures lo <= AverageBondLength(lengths).v <= hi
  {
    RealSumBetween(lengths, lo, hi);
  }

  /** The scale, translation and size `sizeCalculator` computes. */
  datatype Placing = Placing(scale: Num, dx: Num, dy: Num, w: Num, h: Num)

  /** `sizeCalculator` (lines 16-26) on its inputs. */
  function Size(config: Config, box: Box, lengths: seq<real>): (p: Placing)
  {
    var margin := Fin(config.marginWidth);
    var scale := Div(Fin(config.bondLength), AverageBondLength(lengths));
    Placing(scale,
            Add(margin, Mul(scale, Fin(box.left))),
            Add(margin, Mul(scale, Fin(box.top))),
            Add(Mul(Fin(2.0), margin), Mul(scale, Fin(box.right - box.left))),
            Add(Mul(Fin(2.0), margin), Mul(scale, Fin(box.bottom - box.top))))
  }

  /** With bonds of positive length the drawing's size is finite:
      scale = bondLength / mean, w = 2 margin + scale (right - left) and
      h = 2 margin + scale (bottom - top). */
  lemma SizeOfBondedMolecule(config: Config, box: Box, lengths: seq<real>, lo: real)
    requires lengths != [] && lo > 0.0 && forall k :: 0 <= k < |lengths| ==> lo <= lengths[k]
    ensures AverageBondLength(lengths).v >= lo
    ensures var p := Size(config, box, lengths);
            var s := config.bondLength / AverageBondLength(lengths).v;
            && p.scale == Fin(s)
            && p.w == Fin(2.0 * config.marginWidth + s * (box.right - box.left))
            && p.h == Fin(2.0 * config.marginWidth + s * (box.bottom - box.top))
  {
    var hi := lengths[0];
    var k := 1;
    while k < |lengths|
      invariant 1 <= k <= |lengths|
      invariant forall j :: 0 <= j < k ==> lengths[j] <= hi
    {
      if lengths[k] > hi { hi := lengths[k]; }
      k := k + 1;
    }
    AverageBetween(lengths, lo, hi);
  }

  /** When every bond has length 0 the scale is infinite and the width is
      not a finite number. */
  lemma SizeOfCollapsedMolecule(config: Config, box: Box, lengths: seq<real>)
    requires lengths != [] && config.bondLength > 0.0
    requires forall k :: 0 <= k < |lengths| ==> lengths[k] == 0.0
    ensures Size(config, box, lengths).scale == PosInf
    ensures !Size(config, box, lengths).w.Fin?
  {
    AverageBetween(lengths, 0.0, 0.0);
  }

  /** What follows the symbol (lines 44-49): 'H' with the count as a
      subscript for two or more hydrogens, a bare 'H' for one, nothing
      otherwise. */
  function HydrogenLabelOf(hydrogen: int, dy: Num): (l: HydrogenLabel)
    ensures l == NoHydrogen <==> hydrogen <= 0
    ensures l == OneHydrogen <==> hydrogen == 1
    ensures l.Hydrogens? <==> hydrogen > 1
    ensures l.Hydrogens? ==> l.dy == dy && l.count == Fin(hydrogen as real)
  {
    if hydrogen > 1 then Hydrogens(dy, Fin(hydrogen as real))
    else if hydrogen == 1 then OneHydrogen
    else NoHydrogen
  }

  /** What `_drawAtom` reads from an atom: its symbol, coordinates and
      hydrogen count. */
  datatype AtomView = AtomView(symbol: string, x: real, y: real, hydrogen: int)

  function ViewOf(a: Atom, covalence: map<string, int>): AtomView
    reads a, a.bonds
  {
    AtomView(a.symbol, a.x, a.y, a.HydrogenCount(covalence))
  }

  function BondSet(atoms: seq<Atom>): set<Bond>
    reads atoms
  {
    set a, b | a in atoms && b in a.bonds :: b
  }

  function ViewsOf(atoms: seq<Atom>, covalence: map<string, int>): (vs: seq<AtomView>)
    reads atoms, BondSet(atoms)
    ensures |vs| == |atoms|
    ensures forall k :: 0 <= k < |atoms| ==> vs[k] == ViewOf(atoms[k], covalence)
  {
    if atoms == [] then []
    else
      var a := atoms[|atoms| - 1];
      assert forall b :: b in a.bonds ==> b in BondSet(atoms);
      ViewsOf(atoms[..|atoms| - 1], covalence) + [ViewOf(a, covalence)]
  }

  /** Where a coordinate lands on the drawing: `c * scale - d`. */
  function Place(c: real, scale: Num, d: Num): Num
  {
    Sub(Mul(Fin(c), scale), d)
  }

  /** The element `_drawAtom` appends (lines 50-58): the symbol and its
      hydrogens, at the placed coordinates moved half the font size to the
      left and 3/8 of it down. */
  function AtomElement(v: AtomView, p: Placing, config: Config): (e: Element)
    ensures e.Text? && e.symbol == v.symbol && e.fontSize == Fin(config.fontSize)
    ensures e.hydrogens == HydrogenLabelOf(v.hydrogen, Fin(config.fontSize / 2.0))
  {
    var fontSize := config.fontSize;
    var x := Sub(Place(v.x, p.scale, p.dx), Fin(fontSize / 2.0));
    var y := Add(Place(v.y, p.scale, p.dy), Fin(3.0 * fontSize / 8.0));
    Text(x, y, Fin(fontSize), v.symbol, HydrogenLabelOf(v.hydrogen, Fin(fontSize / 2.0)))
  }

  /** With a finite placing, the label's anchor is the atom's placed
      position, half the font size to the left and 3/8 of it down. */
  lemma AtomElementPosition(v: AtomView, scale: real, dx: real, dy: real, p: Placing, config: Config)
    requires p.scale == Fin(scale) && p.dx == Fin(dx) && p.dy == Fin(dy)
    ensures AtomElement(v, p, config).x == Fin(v.x * scale - dx - config.fontSize / 2.0)
    ensures AtomElement(v, p, config).y == Fin(v.y * scale - dy + 3.0 * config.fontSize / 8.0)
  {
    PlaceFinite(v.x, scale, dx);
    PlaceFinite(v.y, scale, dy);
  }

  /** A finite coordinate, scale and offset place at `c * scale - d`. */
  lemma PlaceFinite(c: real, scale: real, d: real)
    ensures Place(c, Fin(scale), Fin(d)) == Fin(c * scale - d)
  {
    assert Mul(Fin(c), Fin(scale)) == Fin(c * scale);
  }

  /** One element per view, in order. */
  function AtomsText(vs: seq<AtomView>, p: Placing, config: Config): (es: seq<Element>)
    ensures |es| == |vs|
    ensures forall k :: 0 <= k < |vs| ==> es[k] == AtomElement(vs[k], p, config)
  {
    if vs == [] then [] else AtomsText(vs[..|vs| - 1], p, config) + [AtomElement(vs[|vs| - 1], p, config)]
  }

  /** The heteroatoms `drawAtoms` keeps (line 63): the atoms whose symbol
      is not 'C', in molecule order. */
  function Drawn(atoms: seq<Atom>): (r: seq<Atom>)
    reads atoms
    ensures |r| <= |atoms|
    ensures forall k :: 0 <= k < |r| ==> r[k] in atoms && r[k].symbol != "C"
    ensures forall k :: 0 <= k < |atoms| && atoms[k].symbol != "C" ==> atoms[k] in r
  {
    if atoms == [] then []
    else
      var init := Drawn(atoms[..|atoms| - 1]);
      var a := atoms[|atoms| - 1];
      if a.symbol == "C" then init else init + [a]
  }

  /** Every label `drawAtoms` appends carries the symbol of an atom that is
      not a carbon, and every such atom of the molecule gets a label. */
  lemma DrawnLabels(atoms: seq<Atom>, covalence: map<string, int>, p: Placing, config: Config)
    ensures var es := AtomsText(ViewsOf(Drawn(atoms), covalence), p, config);
            && (forall k :: 0 <= k < |es| ==> es[k].Text? && es[k].symbol != "C")
            && (forall a :: a in atoms && a.symbol != "C" ==>
                  exists j :: 0 <= j < |es| && es[j].symbol == a.symbol)
  {
    var drawn := Drawn(atoms);
    var vs := ViewsOf(drawn, covalence);
    var es := AtomsText(vs, p, config);
    forall k | 0 <= k < |es|
      ensures es[k].Text? && es[k].symbol != "C"
    {
      assert es[k] == AtomElement(vs[k], p, config);
      assert vs[k] == ViewOf(drawn[k], covalence);
    }
    forall a | a in atoms && a.symbol != "C"
      ensures exists j :: 0 <= j < |es| && es[j].symbol == a.symbol
    {
      var j :| 0 <= j < |drawn| && drawn[j] == a;
      assert es[j] == AtomElement(vs[j], p, config);
      assert vs[j] == ViewOf(drawn[j], covalence);
    }
  }

  /** The `<line>` element of lines 77-78, 82-83 and 86-87. */
  function LineElement(l: Line, lineWidth: real): Element
  {
    LineTo(l.x1, l.y1, l.x2, l.y2, Fin(lineWidth))
  }

  /** The lines `_drawBond` draws between two placed ends (lines 76-88):
      one for a single bond, two for a double bond, shifted down by half
      the spacing and then up by the whole spacing, none otherwise. */
  function BondLines(order: int, l: Line, spacing: real): (ls: seq<Line>)
    ensures |ls| == (if order == 1 then 1 else if order == 2 then 2 else 0)
    ensures order == 1 ==> ls[0] == l
    ensures order == 2 ==> ls[0].x1 == ls[1].x1 == l.x1 && ls[0].x2 == ls[1].x2 == l.x2
  {
    if order == 1 then [l]
    else if order == 2 then
      var y1 := Add(l.y1, Fin(spacing / 2.0));
      var y2 := Add(l.y2, Fin(spacing / 2.0));
      [Line(l.x1, y1, l.x2, y2), Line(l.x1, Sub(y1, Fin(spacing)), l.x2, Sub(y2, Fin(spacing)))]
    else []
  }

  /** For finite ends, the two lines of a double bond lie half the spacing
      below and half the spacing above the bond. */
  lemma DoubleBondOffsets(x1: real, y1: real, x2: real, y2: real, spacing: real)
    ensures var ls := BondLines(2, Line(Fin(x1), Fin(y1), Fin(x2), Fin(y2)), spacing);
            ls[0] == Line(Fin(x1), Fin(y1 + spacing / 2.0), Fin(x2), Fin(y2 + spacing / 2.0)) &&
            ls[1] == Line(Fin(x1), Fin(y1 - spacing / 2.0), Fin(x2), Fin(y2 - spacing / 2.0))
  {
    FiniteArithmetic(y1, spacing / 2.0);
    FiniteArithmetic(y1 + spacing / 2.0, spacing);
    FiniteArithmetic(y2, spacing / 2.0);
    FiniteArithmetic(y2 + spacing / 2.0, spacing);
  }

  function LinesText(ls: seq<Line>, lineWidth: real): (es: seq<Element>)
    ensures |es| == |ls|
    ensures forall k :: 0 <= k < |ls| ==> es[k] == LineElement(ls[k], lineWidth)
  {
    if ls == [] then [] else LinesText(ls[..|ls| - 1], lineWidth) + [LineElement(ls[|ls| - 1], lineWidth)]
  }

  /** A bond whose both ends can be read. */
  predicate Drawable(b: Bond)
    reads b
  {
    b.source != null && b.target != null
  }

  /** What `_drawBond` reads from a bond: its order and, when both ends
      can be read, their coordinates. */
  datatype BondView = BondView(order: int, ends: Option<(real, real, real, real)>)

  function BondViewOf(b: Bond): (v: BondView)
    reads b, b.source, b.target
    ensures v.ends.Some? <==> Drawable(b)
  {
    if b.source == null || b.target == null then BondView(b.order, None)
    else BondView(b.order, Some((b.source.x, b.source.y, b.target.x, b.target.y)))
  }

  function Ends(bonds: seq<Bond>): set<Atom?>
    reads bonds
  {
    (set b | b in bonds :: b.source) + (set b | b in bonds :: b.target)
  }

  function BondViewsOf(bonds: seq<Bond>): (vs: seq<BondView>)
    reads bonds, Ends(bonds)
    ensures |vs| == |bonds|
    ensures forall k :: 0 <= k < |bonds| ==> vs[k] == BondViewOf(bonds[k])
  {
    if bonds == [] then []
    else BondViewsOf(bonds[..|bonds| - 1]) + [BondViewOf(bonds[|bonds| - 1])]
  }

  /** What `_drawBond` appends: the bond's lines between its placed ends,
      or nothing when an end cannot be read (it throws). */
  function BondText(v: BondView, p: Placing, config: Config): (es: seq<Element>)
    ensures |es| == if v.ends.None? then 0 else if v.order == 1 then 1 else if v.order == 2 then 2 else 0
    ensures forall e :: e in es ==> e.LineTo? && e.width == Fin(config.lineWidth)
  {
    match v.ends
    case None => []
    case Some((x1, y1, x2, y2)) =>
      var l := Line(Place(x1, p.scale, p.dx), Place(y1, p.scale, p.dy),
                    Place(x2, p.scale, p.dx), Place(y2, p.scale, p.dy));
      LinesText(BondLines(v.order, l, config.bondSpacing), config.lineWidth)
  }

  /** What `drawBonds` appends before it finishes or meets a bond whose
      end cannot be read. */
  function BondsText(vs: seq<BondView>, p: Placing, config: Config): seq<Element>
  {
    if vs == [] then []
    else
      var init := BondsText(vs[..|vs| - 1], p, config);
      if forall k :: 0 <= k < |vs| ==> vs[k].ends.Some?
      then init + BondText(vs[|vs| - 1], p, config) else init
  }

  /** While every bond so far can be drawn, one more bond adds its own
      text. */
  lemma BondsTextSnoc(vs: seq<BondView>, i: nat, p: Placing, config: Config)
    requires i < |vs| && forall k :: 0 <= k <= i ==> vs[k].ends.Some?
    ensures BondsText(vs[..i + 1], p, config) == BondsText(vs[..i], p, config) + BondText(vs[i], p, config)
  {
    assert vs[..i + 1][..i] == vs[..i];
  }

  /** Past a bond that cannot be drawn nothing more is appended. */
  lemma {:induction false} BondsTextStops(vs: seq<BondView>, i: nat, p: Placing, config: Config)
    requires i < |vs| && vs[i].ends.None?
    ensures BondsText(vs, p, config) == BondsText(vs[..i], p, config)
  {
    if |vs| - 1 > i {
      var init := vs[..|vs| - 1];
      assert init[..i] == vs[..i];
      assert init[i] == vs[i];
      BondsTextStops(init, i, p, config);
    } else {
      assert vs[..|vs| - 1] == vs[..i];
    }
  }

  /** Only single and double bonds are drawn: bonds of any other order
      add nothing. */
  lemma {:induction false} OnlySingleAndDoubleDrawn(vs: seq<BondView>, p: Placing, config: Config)
    requires forall k :: 0 <= k < |vs| ==> vs[k].order != 1 && vs[k].order != 2
    ensures BondsText(vs, p, config) == []
  {
    if vs != [] {
      OnlySingleAndDoubleDrawn(vs[..|vs| - 1], p, config);
    }
  }

  /** What `_drawBond` throws for a bond with an end that is not set
      (`removeBond` leaves both ends undefined). */
  const NullEndError := "TypeError: Cannot read properties of undefined (reading 'coord')"

  class SvgDepict {
    const config: Config
    const mol: Molecule
    const buf: Buffer
    const covalence: map<string, int>
    var scale: Num
    var dx: Num
    var dy: Num
    var w: Num
    var h: Num

    /** The translation and size `sizeCalculator` left. */
    function Placement(): Placing
      reads this
    {
      Placing(scale, dx, dy, w, h)
    }

    /** The constructor (lines 9-14), with the molecule's bounding box and
        bond lengths given. */
    constructor (mol: Molecule, buf: Buffer, config: Config, box: Box, lengths: seq<real>,
                 covalence: map<string, int>)
      ensures this.mol == mol && this.buf == buf && this.config == config
      ensures this.covalence == covalence
      ensures Placement() == Size(config, box, lengths)
    {
      this.mol := mol;
      this.buf := buf;
      this.config := config;
      this.covalence := covalence;
      scale := Fin(0.0);
      dx, dy, w, h := Fin(0.0), Fin(0.0), Fin(0.0), Fin(0.0);
      new;
      SizeCalculator(box, lengths);
    }

    /** `sizeCalculator` (lines 16-26). */
    method SizeCalculator(box: Box, lengths: seq<real>)
      modifies this
      ensures Placement() == Size(config, box, lengths)
    {
      var margin := Fin(config.marginWidth);
      scale := Div(Fin(config.bondLength), AverageBondLength(lengths));
      dx := Add(margin, Mul(scale, Fin(box.left)));
      dy := Add(margin, Mul(scale, Fin(box.top)));
      w := Add(Mul(Fin(2.0), margin), Mul(scale, Fin(box.right - box.left)));
      h := Add(Mul(Fin(2.0), margin), Mul(scale, Fin(box.bottom - box.top)));
    }

    /** `writeHeader` (lines 28-35). */
    method WriteHeader()
      modifies buf
      ensures buf.sb == old(buf.sb) + [Header(w, h)]
    {
      buf.sb := buf.sb + [Header(w, h)];
    }

    /** `_drawAtom` (lines 37-59) once the atom's symbol, coordinates and
        hydrogen count have been read. */
    method DrawAtomView(v: AtomView)
      modifies buf
      ensures buf.sb == old(buf.sb) + [AtomElement(v, Placement(), config)]
    {
      var fontSize := config.fontSize;
      var dy' := Fin(fontSize / 2.0);
      var txt := NoHydrogen;
      if v.hydrogen > 1 {
        txt := Hydrogens(dy', Fin(v.hydrogen as real));
      } else if v.hydrogen == 1 {
        txt := OneHydrogen;
      }
      var x := Place(v.x, scale, dx);
      var y := Place(v.y, scale, dy);
      x := Sub(x, Fin(fontSize / 2.0));
      y := Add(y, Fin(3.0 * fontSize / 8.0));
      buf.sb := buf.sb + [Text(x, y, Fin(fontSize), v.symbol, txt)];
    }

    /** `_drawAtom` (lines 37-59). */
    method DrawAtom(a: Atom)
      modifies buf
      ensures buf.sb == old(buf.sb) + [AtomElement(old(ViewOf(a, covalence)), Placement(), config)]
    {
      DrawAtomView(ViewOf(a, covalence));
    }

    /** The `forEach` of line 64 over atoms already read. */
    method DrawAtomViews(views: seq<AtomView>)
      modifies buf
      ensures buf.sb == old(buf.sb) + AtomsText(views, Placement(), config)
    {
      var i := 0;
      while i < |views|
        invariant 0 <= i <= |views|
        invariant buf.sb == old(buf.sb) + AtomsText(views[..i], Placement(), config)
      {
        assert views[..i + 1][..i] == views[..i];
        DrawAtomView(views[i]);
        i := i + 1;
      }
      assert views[..i] == views;
    }

    /** `drawAtoms` (lines 61-65): one element per heteroatom, in molecule
        order; carbons are not drawn.  Drawing changes only `sb`, so the
        atoms are read before the first one is drawn. */
    method DrawAtoms()
      modifies buf
      ensures buf.sb == old(buf.sb) + AtomsText(old(ViewsOf(Drawn(mol.atoms), covalence)), Placement(), config)
    {
      var atoms := Drawn(mol.atoms);
      DrawAtomViews(ViewsOf(atoms, covalence));
    }

    /** `_drawBond` (lines 67-89) once the bond's order and ends have been
        read; `ok` is false when an end cannot be read, where the source
        throws. */
    method DrawBondView(v: BondView) returns (ok: bool)
      modifies buf
      ensures ok <==> v.ends.Some?
      ensures buf.sb == old(buf.sb) + BondText(v, Placement(), config)
    {
      if v.ends.None? {
        return false;
      }
      var (sx, sy, tx, ty) := v.ends.value;
      var x1 := Place(sx, scale, dx);
      var y1 := Place(sy, scale, dy);
      var x2 := Place(tx, scale, dx);
      var y2 := Place(ty, scale, dy);
      var spacing := config.bondSpacing;
      if v.order == 1 {
        buf.sb := buf.sb + [LineElement(Line(x1, y1, x2, y2), config.lineWidth)];
      } else if v.order == 2 {
        y1 := Add(y1, Fin(spacing / 2.0));
        y2 := Add(y2, Fin(spacing / 2.0));
        buf.sb := buf.sb + [LineElement(Line(x1, y1, x2, y2), config.lineWidth)];
        y1 := Sub(y1, Fin(spacing));
        y2 := Sub(y2, Fin(spacing));
        buf.sb := buf.sb + [LineElement(Line(x1, y1, x2, y2), config.lineWidth)];
      }
      ok := true;
    }

    /** `_drawBond` (lines 67-89). */
    method DrawBond(b: Bond) returns (ok: bool)
      modifies buf
      ensures ok <==> old(Drawable(b))
      ensures buf.sb == old(buf.sb) + BondText(old(BondViewOf(b)), Placement(), config)
    {
      ok := DrawBondView(BondViewOf(b));
    }

    /** The `forEach` of line 91 over bonds already read, stopping at the
        first one whose end cannot be read. */
    method DrawBondViews(views: seq<BondView>) returns (ok: bool)
      modifies buf
      ensures ok <==> forall k :: 0 <= k < |views| ==> views[k].ends.Some?
      ensures buf.sb == old(buf.sb) + BondsText(views, Placement(), config)
    {
      var i := 0;
      while i < |views|
        invariant 0 <= i <= |views|
        invariant forall k :: 0 <= k < i ==> views[k].ends.Some?
        invariant buf.sb == old(buf.sb) + BondsText(views[..i], Placement(), config)
      {
        ok := DrawBondView(views[i]);
        if !ok {
          BondsTextStops(views, i, Placement(), config);
          return;
        }
        BondsTextSnoc(views, i, Placement(), config);
        i := i + 1;
      }
      assert views[..i] == views;
      ok := true;
    }

    /** `drawBonds` (line 91): every bond in molecule order.  Drawing
        changes only `sb`, so the bonds are read before the first one is
        drawn. */
    method DrawBonds() returns (ok: bool)
      modifies buf
      ensures ok <==> forall k :: 0 <= k < |mol.bonds| ==> Drawable(mol.bonds[k])
      ensures buf.sb == old(buf.sb) + BondsText(old(BondViewsOf(mol.bonds)), Placement(), config)
    {
      ok := DrawBondViews(BondViewsOf(mol.bonds));
    }

    /** `toSvg` (lines 93-99): header, background, heteroatoms, bonds, and
        the closing tag, which is not kept in `sb`.  A bond whose end
        cannot be read makes it throw after the text before that bond has
        been appended. */
    method ToSvg() returns (r: Result<seq<Element>>)
      modifies buf
      ensures buf.sb == old(buf.sb) + [Header(w, h), Background]
                        + AtomsText(old(ViewsOf(Drawn(mol.atoms), covalence)), Placement(), config)
                        + BondsText(old(BondViewsOf(mol.bonds)), Placement(), config)
      ensures r.Ok? <==> forall k :: 0 <= k < |mol.bonds| ==> Drawable(mol.bonds[k])
      ensures r.Ok? ==> r.value == buf.sb + [Close]
    {
      var atoms := ViewsOf(Drawn(mol.atoms), covalence);
      var bonds := BondViewsOf(mol.bonds);
      ghost var start := buf.sb;
      WriteHeader();
      buf.sb := buf.sb + [Background];
      assert buf.sb == start + [Header(w, h), Background];
      DrawAtomViews(atoms);
      var ok := DrawBondViews(bonds);
      if !ok {
        return Err(NullEndError);
      }
      r := Ok(buf.sb + [Close]);
    }
  }

  /** `sb` is never reset: a second `toSvg` returns everything the first
      one returned except its closing tag, followed by a whole new
      drawing. */
  method ToSvgTwice(d: SvgDepict, numText: Num -> string) returns (r1: Result<seq<Element>>, r2: Result<seq<Element>>)
    modifies d.buf
    ensures r1.Ok? ==> |r1.value| >= 1 && r1.value[|r1.value| - 1] == Close
    ensures r1.Ok? && r2.Ok? ==> r1.value[..|r1.value| - 1] <= r2.value
    ensures r1.Ok? && r2.Ok? ==> Render(r1.value[..|r1.value| - 1], numText) <= Render(r2.value, numText)
  {
    r1 := d.ToSvg();
    r2 := d.ToSvg();
    if r1.Ok? && r2.Ok? {
      assert r1.value[..|r1.value| - 1] <= r2.value;
      RenderPrefix(r1.value[..|r1.value| - 1], r2.value, numText);
    }
  }
}
