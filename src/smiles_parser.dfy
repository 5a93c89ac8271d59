// The SMILES reader of src/io/smiles_parser.js: the token loop of `parse`
// (lines 76-188) with its branch stack, ring-closure tables and pending
// bond type, `sanityCheck` (190-203), `createBond` (272-296) and
// `setChiralCenters` (306-354).  The tokens are the list that
// `smi.match(smiPattern)` returns; the molecule under construction is kept
// as the list of its atoms and the list of its bonds, an atom being named
// by its position, which is the order in which `parse` creates it.

module SmilesParser {
  import opened Wrappers
  import JsString
  import SmilesAtom
  import ChemModel

  // ---------------------------------------------------------------------
  // Values the parser handles.

  /** A bond-type value.  The pending `bondType` is 'NONE' or one of the
      bond characters; a `ringClosureOrder` entry can also be undefined
      (never written) or null (cleared after use). */
  datatype BondCode = NoneCode | Sym(c: char) | Undefined | Null

  /** The value as the string concatenation in an error message shows it. */
  function CodeText(t: BondCode): string
  {
    match t
    case NoneCode => "NONE"
    case Sym(c) => [c]
    case Undefined => "undefined"
    case Null => "null"
  }

  /** A key of the `ring` and `ringClosureOrder` arrays: the number a
      ring-closure token parses to, or NaN. */
  datatype RingId = Index(n: int) | NotANumber

  function RingKey(v: Option<int>): RingId
  {
    if v.Some? then Index(v.value) else NotANumber
  }

  /** An atom as `new ModelAtom(symbol, 0, 0, charge, aromatic, isotope)`
      builds it at line 158.  `isotope` None is the number 0 the
      constructor substitutes for a missing or empty group; otherwise it is
      the digit string of the bracket atom. */
  datatype SmiAtom = SmiAtom(symbol: string, charge: int, aromatic: bool, isotope: Option<string>)

  /** A bond between two atom positions. */
  datatype SmiBond = SmiBond(source: nat, target: nat, order: nat, stereo: nat, aromatic: bool)

  /** The entry `parse` pushes for a chiral atom (lines 165-169). */
  datatype ChiralMark = ChiralMark(atom: nat, stereo: SmilesAtom.Stereo, hydrogen: bool)

  /** The parser's variables: `previousAtom` (None while undefined),
      `bondType`, `branch`, `ring` (a key is absent while its entry is
      undefined or null), `ringClosureOrder` (a key is absent while its
      entry is undefined), the molecule's atoms and bonds, and
      `chiralCenters`. */
  datatype State = State(prev: Option<nat>, bondType: BondCode, branch: seq<Option<nat>>,
                         ring: map<RingId, nat>, closureOrder: map<RingId, BondCode>,
                         atoms: seq<SmiAtom>, bonds: seq<SmiBond>, centers: seq<ChiralMark>)

  const Start := State(None, NoneCode, [], map[], map[], [], [], [])

  /** The result of `parse`: the molecule named after the SMILES text. */
  datatype SmiMolecule = SmiMolecule(name: string, atoms: seq<SmiAtom>, bonds: seq<SmiBond>)

  const AromaticError := "TypeError: Cannot read properties of undefined (reading 'aromatic')"
  const BondsError := "TypeError: Cannot read properties of undefined (reading 'bonds')"
  const LengthError := "TypeError: Cannot read properties of null (reading 'length')"

  /** Array indices run below 2^32 - 1; `ring.length` counts only those. */
  const MaxArrayIndex := 0xFFFF_FFFF

  predicate IsPendingType(t: BondCode)
  {
    t == NoneCode || (t.Sym? && (t.c == '-' || t.c == '=' || t.c == '#' || t.c == '$' || t.c == ':'))
  }

  predicate BondIn(b: SmiBond, n: nat)
  {
    b.source < n && b.target < n
  }

  /** Every position the state holds names an atom of the molecule. */
  predicate Valid(st: State)
  {
    && (st.prev.Some? ==> st.prev.value < |st.atoms|)
    && (forall k :: 0 <= k < |st.branch| && st.branch[k].Some? ==> st.branch[k].value < |st.atoms|)
    && (forall id :: id in st.ring ==> st.ring[id] < |st.atoms|)
    && (forall k :: 0 <= k < |st.bonds| ==> BondIn(st.bonds[k], |st.atoms|))
    && (forall k :: 0 <= k < |st.centers| ==> st.centers[k].atom < |st.atoms|)
    && IsPendingType(st.bondType)
  }

  // ---------------------------------------------------------------------
  // createBond (lines 272-296).

  /** The order and aromatic flag of the bond `createBond(type, source,
      target)` builds.  `bothAromatic` is `source.aromatic &&
      target.aromatic`, None when the source is undefined, which makes
      reading it fail. */
  function CreateBond(t: BondCode, bothAromatic: Option<bool>): (r: Result<(nat, bool)>)
    ensures t == NoneCode && bothAromatic.Some? ==> r == Ok((ChemModel.SINGLE, bothAromatic.value))
    ensures t == NoneCode && bothAromatic.None? ==> r == Err(AromaticError)
    ensures t == Sym('-') ==> r == Ok((ChemModel.SINGLE, false))
    ensures t == Sym('=') ==> r == Ok((ChemModel.DOUBLE, false))
    ensures t == Sym('#') ==> r == Ok((ChemModel.TRIPLE, false))
    ensures t == Sym(':') ==> r == Ok((ChemModel.SINGLE, true))
    ensures !(t == NoneCode || t == Sym('-') || t == Sym('=') || t == Sym('#') || t == Sym(':')) ==>
              r == Err(InvalidType(t))
  {
    if t == NoneCode && bothAromatic.None? then Err(AromaticError)
    else
      var atype := if t == NoneCode then (if bothAromatic.value then Sym(':') else Sym('-')) else t;
      if atype == Sym('-') then Ok((ChemModel.SINGLE, false))
      else if atype == Sym('=') then Ok((ChemModel.DOUBLE, false))
      else if atype == Sym('#') then Ok((ChemModel.TRIPLE, false))
      else if atype == Sym(':') then Ok((ChemModel.SINGLE, true))
      else Err(InvalidType(t))
  }

  /** The message of line 294. */
  function InvalidType(t: BondCode): string
  {
    "invalid bond type [" + CodeText(t) + "]"
  }

  /** `mol.addBond(createBond(t, previousAtom, target))` followed by
      `bondType = NONE`: a bond from the previous atom to `target`.  With no
      previous atom, `createBond` fails on an implicit type and `addBond`
      on `bond.source.bonds` otherwise. */
  function Connect(st: State, t: BondCode, target: nat): (r: Result<State>)
    requires Valid(st) && target < |st.atoms|
    ensures r.Ok? ==> st.prev.Some? && CreateBond(t, Some(st.atoms[st.prev.value].aromatic && st.atoms[target].aromatic)).Ok?
    ensures r.Ok? ==> var k := CreateBond(t, Some(st.atoms[st.prev.value].aromatic && st.atoms[target].aromatic)).value;
      r.value == st.(bonds := st.bonds + [SmiBond(st.prev.value, target, k.0, ChemModel.NOT_STEREO, k.1)],
                     bondType := NoneCode)
    ensures st.prev.None? ==> r.Err?
  {
    var both := if st.prev.Some? then Some(st.atoms[st.prev.value].aromatic && st.atoms[target].aromatic) else None;
    var k := CreateBond(t, both);
    if k.Err? then Err(k.error)
    else if st.prev.None? then Err(BondsError)
    else Ok(st.(bonds := st.bonds + [SmiBond(st.prev.value, target, k.value.0, ChemModel.NOT_STEREO, k.value.1)],
                bondType := NoneCode))
  }

  // ---------------------------------------------------------------------
  // The token loop of `parse` (lines 88-179).

  predicate IsBondToken(item: string)
  {
    item == "-" || item == "=" || item == "#" || item == "$" || item == ":"
  }

  /** The key of a '%' token: `parseInt(item[1] + item[2], 10)`, where a
      missing character reads as undefined (and undefined + undefined is
      NaN). */
  function PercentId(item: string): RingId
    requires |item| > 0
  {
    if |item| == 1 then RingKey(JsString.ParseInt("NaN"))
    else RingKey(JsString.ParseInt([item[1]] + (if |item| >= 3 then [item[2]] else "undefined")))
  }

  /** A ring-closure number without its own bond symbol (lines 110-119 and
      122-130): the first occurrence records the previous atom, the second
      bonds the previous atom to the recorded one with the pending type and
      clears the entry. */
  function BareClosure(st: State, id: RingId): (r: Result<State>)
    requires Valid(st)
    ensures r.Ok? ==> Valid(r.value)
  {
    if id in st.ring then
      var c := Connect(st, st.bondType, st.ring[id]);
      if c.Err? then c else Ok(c.value.(ring := c.value.ring - {id}))
    else if st.prev.Some? then Ok(st.(ring := st.ring[id := st.prev.value]))
    else Ok(st.(ring := st.ring - {id}))
  }

  /** A ring-closure number written with '=', '#' or '$' in front (lines
      136-150): the first occurrence also records the symbol; the second
      bonds with the recorded symbol, whatever is pending, and clears both
      entries. */
  function OrderedClosure(st: State, id: RingId, c: char): (r: Result<State>)
    requires Valid(st)
    ensures r.Ok? ==> Valid(r.value)
  {
    if id !in st.ring then
      Ok(st.(ring := if st.prev.Some? then st.ring[id := st.prev.value] else st.ring - {id},
             closureOrder := st.closureOrder[id := Sym(c)]))
    else
      var code := if id in st.closureOrder then st.closureOrder[id] else Undefined;
      var b := Connect(st, code, st.ring[id]);
      if b.Err? then b
      else Ok(b.value.(ring := b.value.ring - {id}, closureOrder := b.value.closureOrder[id := Null]))
  }

  /** What `parse` takes from `parseAtom(item)`: the atom, its stereo mark
      and whether it carries the hydrogen of a chiral centre; None when the
      token has no symbol. */
  function TokenAtom(item: string): Option<(SmiAtom, SmilesAtom.Stereo, bool)>
  {
    var a := SmilesAtom.ParseAtom(item);
    if a.symbol.None? then None
    else
      Some((SmiAtom(a.symbol.value, if a.charge.Some? then a.charge.value else 0, a.aromatic,
                    if a.isotope.Some? && a.isotope.value != "" then a.isotope else None),
            a.stereo, a.chiralHydrogenNeighbour))
  }

  /** Any other token (lines 151-173): an atom, bonded to the previous atom
      when there is one, becomes the previous atom; a token with no symbol
      is an error. */
  function AtomToken(st: State, item: string, smi: string): (r: Result<State>)
    requires Valid(st)
    ensures r.Ok? ==> Valid(r.value)
  {
    var t := TokenAtom(item);
    if t.None? then Err(smi + " unknown atom " + item)
    else AddAtom(st, t.value.0, t.value.1, t.value.2)
  }

  function AddAtom(st: State, atom: SmiAtom, stereo: SmilesAtom.Stereo, hydrogen: bool): (r: Result<State>)
    requires Valid(st)
    ensures r.Ok? ==> Valid(r.value)
  {
    var n := |st.atoms|;
    var st1 := st.(atoms := st.atoms + [atom]);
    var st2 := if st.prev.Some? then Connect(st1, st.bondType, n) else Ok(st1);
    if st2.Err? then st2
    else
      var st3 := st2.value;
      Ok(st3.(prev := Some(n),
              centers := if stereo != SmilesAtom.NoStereo then st3.centers + [ChiralMark(n, stereo, hydrogen)]
                         else st3.centers))
  }

  /** One pass of the loop body, in the order of its branches. */
  function Step(st: State, item: string, smi: string): (r: Result<State>)
    requires Valid(st)
    ensures r.Ok? ==> Valid(r.value)
  {
    if item == "." then Ok(st)
    else if item == "(" then Ok(st.(branch := st.branch + [st.prev]))
    else if item == ")" then
      if |st.branch| > 0 then Ok(st.(prev := st.branch[|st.branch| - 1], branch := st.branch[..|st.branch| - 1]))
      else Err(smi + " Unbalanced parents")
    else if IsBondToken(item) then Ok(st.(bondType := Sym(item[0])))
    else if |item| > 0 && item[0] == '%' then BareClosure(st, PercentId(item))
    else if item == "/" || item == "\\" then Ok(st)
    else if JsString.ParseInt(item).Some? then BareClosure(st, Index(JsString.ParseInt(item).value))
    else if |item| > 1 && (item[0] == '=' || item[0] == '#' || item[0] == '$')
            && JsString.ParseInt(item[1..]).Some? then
      OrderedClosure(st, Index(JsString.ParseInt(item[1..]).value), item[0])
    else AtomToken(st, item, smi)
  }

  /** The state after the given tokens, or the first error. */
  function Run(smi: string, items: seq<string>): (r: Result<State>)
    ensures r.Ok? ==> Valid(r.value)
  {
    if items == [] then Ok(Start)
    else
      var r0 := Run(smi, items[..|items| - 1]);
      if r0.Err? then r0 else Step(r0.value, items[|items| - 1], smi)
  }

  // ---------------------------------------------------------------------
  // sanityCheck (lines 190-203).

  predicate OpenRing(st: State)
  {
    exists id :: id in st.ring && id.Index? && 0 <= id.n < MaxArrayIndex
  }

  /** An open branch, an entry left in the array part of `ring`, or a
      pending bond type is an error, checked in that order. */
  function SanityCheck(st: State): (r: Outcome)
    ensures r == Pass <==> st.branch == [] && !OpenRing(st) && st.bondType == NoneCode
    ensures |st.branch| > 0 ==> r == Fail("unbalanced parens")
  {
    if |st.branch| > 0 then Fail("unbalanced parens")
    else if OpenRing(st) then Fail("unclosed rings")
    else if st.bondType != NoneCode then Fail("unpaired bond " + CodeText(st.bondType))
    else Pass
  }

  // ---------------------------------------------------------------------
  // setChiralCenters (lines 306-354).

  /** `bond.otherAtom(a)`: the other end, or null when `a` is on neither. */
  function OtherAtom(b: SmiBond, a: nat): (r: Option<nat>)
    ensures r.Some? <==> b.source == a || b.target == a
  {
    if b.source == a then Some(b.target) else if b.target == a then Some(b.source) else None
  }

  /** `molecule.findBond(atom1, atom2)` from position j on: the first bond of
      atom1 whose other end is atom2.  An atom's bond set lists its bonds in
      the order `addBond` added them, which is their order in the
      molecule. */
  function FindBondFrom(bonds: seq<SmiBond>, c: nat, a: nat, j: nat): (r: Option<nat>)
    requires j <= |bonds|
    ensures r.Some? ==> j <= r.value < |bonds| && OtherAtom(bonds[r.value], c) == Some(a)
    ensures r.Some? ==> forall k :: j <= k < r.value ==> OtherAtom(bonds[k], c) != Some(a)
    ensures r.None? ==> forall k :: j <= k < |bonds| ==> OtherAtom(bonds[k], c) != Some(a)
    decreases |bonds| - j
  {
    if j == |bonds| then None
    else if OtherAtom(bonds[j], c) == Some(a) then Some(j)
    else FindBondFrom(bonds, c, a, j + 1)
  }

  function FindBond(bonds: seq<SmiBond>, c: nat, a: nat): Option<nat>
  {
    FindBondFrom(bonds, c, a, 0)
  }

  /** What the walk over the atoms gathers about one chiral atom: the bonds
      (turned to start at the chiral atom), the number of neighbours
      `cntNeighb` and the bonds outside rings, `availableBonds`. */
  datatype Survey = Survey(bonds: seq<SmiBond>, count: nat, available: seq<nat>)

  /** A bond with the same ends, order and aromatic flag as another, in
      either direction. */
  predicate SameBond(b: SmiBond, b0: SmiBond)
  {
    && b.order == b0.order && b.aromatic == b0.aromatic
    && ((b.source == b0.source && b.target == b0.target) || (b.source == b0.target && b.target == b0.source))
  }

  predicate SurveyFits(sv: Survey, bonds0: seq<SmiBond>)
  {
    && |sv.bonds| == |bonds0|
    && (forall j :: 0 <= j < |sv.bonds| ==> SameBond(sv.bonds[j], bonds0[j]))
    && (forall k :: 0 <= k < |sv.available| ==> sv.available[k] < |sv.bonds|)
    && |sv.available| <= sv.count
  }

  lemma SameBondTrans(b: SmiBond, b1: SmiBond, b0: SmiBond)
    requires SameBond(b, b1) && SameBond(b1, b0)
    ensures SameBond(b, b0)
  {
  }

  /** The visit of atom `a` (lines 318-326). */
  function SurveyStep(sv: Survey, c: nat, a: nat, inRing: Result<set<nat>>): (r: Result<Survey>)
    ensures r.Ok? ==> |r.value.bonds| == |sv.bonds|
    ensures r.Err? ==> inRing.Err? && r.error == inRing.error
  {
    var f := FindBond(sv.bonds, c, a);
    if f.None? then Ok(sv)
    else if inRing.Err? then Err(inRing.error)
    else
      var j := f.value;
      var b := sv.bonds[j];
      var bonds := if b.source != c then sv.bonds[j := b.(source := c, target := a)] else sv.bonds;
      Ok(Survey(bonds, sv.count + 1, if j in inRing.value then sv.available else sv.available + [j]))
  }

  /** The walk over atoms 0 .. k - 1. */
  function SurveyUpTo(bonds0: seq<SmiBond>, c: nat, k: nat, inRing: Result<set<nat>>): (r: Result<Survey>)
    ensures r.Ok? ==> SurveyFits(r.value, bonds0) && r.value.count <= k
    ensures r.Err? ==> inRing.Err? && r.error == inRing.error
  {
    if k == 0 then Ok(Survey(bonds0, 0, []))
    else
      var r0 := SurveyUpTo(bonds0, c, k - 1, inRing);
      if r0.Err? then r0
      else
        var r1 := SurveyStep(r0.value, c, k - 1, inRing);
        if r1.Err? then r1
        else
          SurveyStepFits(r0.value, bonds0, c, k - 1, inRing);
          r1
  }

  lemma SurveyStepFits(sv: Survey, bonds0: seq<SmiBond>, c: nat, a: nat, inRing: Result<set<nat>>)
    requires SurveyFits(sv, bonds0) && SurveyStep(sv, c, a, inRing).Ok?
    ensures SurveyFits(SurveyStep(sv, c, a, inRing).value, bonds0)
    ensures SurveyStep(sv, c, a, inRing).value.count <= sv.count + 1
  {
    var f := FindBond(sv.bonds, c, a);
    if f.Some? {
      var j := f.value;
      var b := sv.bonds[j];
      assert OtherAtom(b, c) == Some(a);
      if b.source != c {
        var nb := b.(source := c, target := a);
        assert SameBond(nb, b);
        SameBondTrans(nb, b, bonds0[j]);
      }
    }
  }

  /** A stereo assignment: `availableBonds[slot].stereo` becomes UP or
      DOWN. */
  datatype Write = Write(slot: nat, up: bool)

  /** The two rules of lines 329-351 for `cntNeighb` neighbours of which
      `nav` have bonds outside rings.  '@' (clockwise) gives UP under the
      first rule and DOWN under the second. */
  function StereoWrites(count: nat, nav: nat, clockwise: bool): (w: seq<Write>)
    // `availableBonds[bondidx]` always exists, and the slot the dead
    // `bondidx = 2` branch would set is never written.
    ensures forall k :: 0 <= k < |w| ==> w[k].slot < nav && w[k].slot != 2
    // Only atoms with three or four neighbours and a bond outside rings
    // get a wedge.
    ensures w != [] <==> (count == 3 || count == 4) && nav > 0
  {
    var first := if (count == 3 || count == 4) && nav > 0
                 then [Write(if (count == 3 && nav > 1) || (count == 4 && nav > 2) then 1 else 0, clockwise)]
                 else [];
    var second := if count == 4 && nav > 1 then [Write(if nav == 4 then 3 else 1, !clockwise)] else [];
    first + second
  }

  function StereoCode(up: bool): nat
  {
    if up then ChemModel.UP else ChemModel.DOWN
  }

  /** The assignments made in order; a later one to the same bond wins. */
  function ApplyWrites(bonds: seq<SmiBond>, avail: seq<nat>, w: seq<Write>): (r: seq<SmiBond>)
    requires forall k :: 0 <= k < |w| ==> w[k].slot < |avail|
    requires forall k :: 0 <= k < |avail| ==> avail[k] < |bonds|
    ensures |r| == |bonds|
    ensures forall j :: 0 <= j < |bonds| ==> r[j] == bonds[j].(stereo := r[j].stereo)
    ensures forall j :: 0 <= j < |bonds| && (forall k :: 0 <= k < |w| ==> avail[w[k].slot] != j) ==> r[j] == bonds[j]
    decreases |w|
  {
    if w == [] then bonds
    else
      var b := avail[w[0].slot];
      ApplyWrites(bonds[b := bonds[b].(stereo := StereoCode(w[0].up))], avail, w[1..])
  }

  /** One chiral atom: the walk over all `n` atoms, then the two rules.  An
      index with no atom is skipped; a failing ring search fails. */
  function Center(n: nat, bonds: seq<SmiBond>, m: ChiralMark, inRing: Result<set<nat>>): (r: Result<seq<SmiBond>>)
    ensures r.Ok? ==> |r.value| == |bonds| && forall j :: 0 <= j < |bonds| ==> SameBond(r.value[j], bonds[j])
    ensures r.Err? ==> inRing.Err? && r.error == inRing.error
  {
    if m.atom >= n then Ok(bonds)
    else
      var sv := SurveyUpTo(bonds, m.atom, n, inRing);
      if sv.Err? then Err(sv.error)
      else
        var s := sv.value;
        Ok(ApplyWrites(s.bonds, s.available, StereoWrites(s.count, |s.available|, m.stereo == SmilesAtom.Clockwise)))
  }

  /** All chiral atoms in the order `parse` met them. */
  function Chirality(n: nat, bonds: seq<SmiBond>, centers: seq<ChiralMark>, inRing: Result<set<nat>>): (r: Result<seq<SmiBond>>)
    // Only the direction and the stereo code of a bond change.
    ensures r.Ok? ==> |r.value| == |bonds| && forall j :: 0 <= j < |bonds| ==> SameBond(r.value[j], bonds[j])
    ensures r.Err? ==> inRing.Err? && r.error == inRing.error
  {
    if centers == [] then Ok(bonds)
    else
      var r0 := Chirality(n, bonds, centers[..|centers| - 1], inRing);
      if r0.Err? then r0
      else
        var r1 := Center(n, r0.value, centers[|centers| - 1], inRing);
        if r1.Err? then r1
        else
          assert forall j :: 0 <= j < |bonds| ==> SameBond(r1.value[j], r0.value[j]) && SameBond(r0.value[j], bonds[j]);
          r1
  }

  /** A failure stays a failure when more chiral atoms follow. */
  lemma {:induction false} ChiralityErrSticks(n: nat, bonds: seq<SmiBond>, centers: seq<ChiralMark>, i: nat, inRing: Result<set<nat>>)
    requires i <= |centers| && Chirality(n, bonds, centers[..i], inRing).Err?
    ensures Chirality(n, bonds, centers, inRing) == Chirality(n, bonds, centers[..i], inRing)
    decreases |centers| - i
  {
    if i < |centers| {
      assert centers[..i + 1][..i] == centers[..i];
      ChiralityErrSticks(n, bonds, centers, i + 1, inRing);
    } else {
      assert centers[..i] == centers;
    }
  }

  /** A failure of the walk stays a failure over more atoms. */
  lemma {:induction false} SurveyErrSticks(bonds0: seq<SmiBond>, c: nat, a: nat, n: nat, inRing: Result<set<nat>>)
    requires a <= n && SurveyUpTo(bonds0, c, a, inRing).Err?
    ensures SurveyUpTo(bonds0, c, n, inRing) == SurveyUpTo(bonds0, c, a, inRing)
    decreases n - a
  {
    if a < n {
      SurveyErrSticks(bonds0, c, a, n - 1, inRing);
    }
  }

  /** The walk over the molecule's atoms for chiral atom c (lines
      317-327). */
  method SurveyAtoms(bonds0: seq<SmiBond>, c: nat, n: nat, inRing: Result<set<nat>>) returns (r: Result<Survey>)
    ensures r == SurveyUpTo(bonds0, c, n, inRing)
  {
    var sv := Survey(bonds0, 0, []);
    var a := 0;
    while a < n
      invariant 0 <= a <= n
      invariant SurveyUpTo(bonds0, c, a, inRing) == Ok(sv)
    {
      assert SurveyUpTo(bonds0, c, a + 1, inRing) == SurveyStep(sv, c, a, inRing);
      var f := FindBond(sv.bonds, c, a);
      if f.Some? {
        if inRing.Err? {
          SurveyErrSticks(bonds0, c, a + 1, n, inRing);
          return Err(inRing.error);
        }
        var j := f.value;
        var found := sv.bonds;
        if found[j].source != c {
          found := found[j := found[j].(source := c, target := a)];
        }
        var avail := sv.available;
        if j !in inRing.value {
          avail := avail + [j];
        }
        sv := Survey(found, sv.count + 1, avail);
      }
      a := a + 1;
    }
    r := Ok(sv);
  }

  /** The two rules of lines 329-351, which mark one or two of the bonds
      outside rings. */
  method MarkBonds(sv: Survey, clockwise: bool) returns (out: seq<SmiBond>)
    requires forall k :: 0 <= k < |sv.available| ==> sv.available[k] < |sv.bonds|
    ensures out == ApplyWrites(sv.bonds, sv.available, StereoWrites(sv.count, |sv.available|, clockwise))
  {
    var nav := |sv.available|;
    out := sv.bonds;
    if (sv.count == 3 || sv.count == 4) && nav > 0 {
      var idx := if (sv.count == 3 && nav > 1) || (sv.count == 4 && nav > 2) then 1 else 0;
      var b := sv.available[idx];
      out := out[b := out[b].(stereo := if clockwise then ChemModel.UP else ChemModel.DOWN)];
    }
    if sv.count == 4 && nav > 1 {
      var idx := if nav == 4 then 3 else 1;
      var b := sv.available[idx];
      out := out[b := out[b].(stereo := if clockwise then ChemModel.DOWN else ChemModel.UP)];
    }
    WritesAsRules(sv, clockwise);
  }

  /** `setChiralCenters(molecule, chiralCenters)`: for each chiral atom,
      walk the molecule's atoms, turn each bond found to start at the chiral
      atom and collect those outside rings, then mark one or two of them.
      `inRing` is the set of bonds `getRings` puts in rings, or its
      failure. */
  method SetChiralCenters(n: nat, bonds0: seq<SmiBond>, centers: seq<ChiralMark>, inRing: Result<set<nat>>)
    returns (r: Result<seq<SmiBond>>)
    ensures r == Chirality(n, bonds0, centers, inRing)
  {
    var bonds := bonds0;
    var i := 0;
    while i < |centers|
      invariant 0 <= i <= |centers|
      invariant Chirality(n, bonds0, centers[..i], inRing) == Ok(bonds)
    {
      assert centers[..i + 1][..i] == centers[..i];
      var m := centers[i];
      if m.atom < n {
        var sv := SurveyAtoms(bonds, m.atom, n, inRing);
        if sv.Err? {
          ChiralityErrSticks(n, bonds0, centers, i + 1, inRing);
          return Err(sv.error);
        }
        bonds := MarkBonds(sv.value, m.stereo == SmilesAtom.Clockwise);
      }
      i := i + 1;
    }
    assert centers[..i] == centers;
    r := Ok(bonds);
  }

  /** The rules as the source writes them agree with the table. */
  lemma WritesAsRules(sv: Survey, clockwise: bool)
    requires forall k :: 0 <= k < |sv.available| ==> sv.available[k] < |sv.bonds|
    ensures var nav := |sv.available|;
      var out1 := if (sv.count == 3 || sv.count == 4) && nav > 0 then
                    (var b := sv.available[if (sv.count == 3 && nav > 1) || (sv.count == 4 && nav > 2) then 1 else 0];
                     sv.bonds[b := sv.bonds[b].(stereo := if clockwise then ChemModel.UP else ChemModel.DOWN)])
                  else sv.bonds;
      var out2 := if sv.count == 4 && nav > 1 then
                    (var b := sv.available[if nav == 4 then 3 else 1];
                     out1[b := out1[b].(stereo := if clockwise then ChemModel.DOWN else ChemModel.UP)])
                  else out1;
      out2 == ApplyWrites(sv.bonds, sv.available, StereoWrites(sv.count, nav, clockwise))
  {
  }

  // ---------------------------------------------------------------------
  // parse (lines 76-188).

  /** `parse(smi)` with `items` the tokens `smi.match(smiPattern)` returns
      (None for null) and `inRing` the ring bonds of the parsed molecule. */
  function ParseSpec(smi: string, items: Option<seq<string>>, inRing: Result<set<nat>>): (r: Result<SmiMolecule>)
  {
    if items.None? then Err(LengthError)
    else
      var run := Run(smi, items.value);
      if run.Err? then Err(run.error)
      else
        var st := run.value;
        var chiral := Chirality(|st.atoms|, st.bonds, st.centers, inRing);
        if chiral.Err? then Err(chiral.error)
        else
          var sane := SanityCheck(st);
          if sane.Fail? then Err(sane.error)
          else Ok(SmiMolecule(smi, st.atoms, chiral.value))
  }

  /** A failure stops the token loop. */
  lemma {:induction false} RunErrSticks(smi: string, items: seq<string>, i: nat)
    requires i <= |items| && Run(smi, items[..i]).Err?
    ensures Run(smi, items) == Run(smi, items[..i])
    decreases |items| - i
  {
    if i < |items| {
      assert items[..i + 1][..i] == items[..i];
      RunErrSticks(smi, items, i + 1);
    } else {
      assert items[..i] == items;
    }
  }

  /** The token loop of lines 88-179. */
  method RunTokens(smi: string, tokens: seq<string>) returns (r: Result<State>)
    ensures r == Run(smi, tokens)
  {
    var st := Start;
    var i := 0;
    while i < |tokens|
      invariant 0 <= i <= |tokens|
      invariant Run(smi, tokens[..i]) == Ok(st)
    {
      assert tokens[..i + 1][..i] == tokens[..i];
      var next := Step(st, tokens[i], smi);
      if next.Err? {
        RunErrSticks(smi, tokens, i + 1);
        return next;
      }
      st := next.value;
      i := i + 1;
    }
    assert tokens[..i] == tokens;
    r := Ok(st);
  }

  method Parse(smi: string, items: Option<seq<string>>, inRing: Result<set<nat>>) returns (r: Result<SmiMolecule>)
    ensures r == ParseSpec(smi, items, inRing)
  {
    if items.None? {
      return Err(LengthError);
    }
    var run := RunTokens(smi, items.value);
    if run.Err? {
      return Err(run.error);
    }
    var st := run.value;
    var bonds := SetChiralCenters(|st.atoms|, st.bonds, st.centers, inRing);
    if bonds.Err? {
      return Err(bonds.error);
    }
    var sane := SanityCheck(st);
    if sane.Fail? {
      return Err(sane.error);
    }
    r := Ok(SmiMolecule(smi, st.atoms, bonds.value));
  }

  // ---------------------------------------------------------------------
  // What the token loop promises.

  /** The molecule `parse` returns only has bonds between its own atoms. */
  lemma ParseBondsInMolecule(smi: string, items: Option<seq<string>>, inRing: Result<set<nat>>)
    requires ParseSpec(smi, items, inRing).Ok?
    ensures var m := ParseSpec(smi, items, inRing).value;
      m.name == smi && forall j :: 0 <= j < |m.bonds| ==> BondIn(m.bonds[j], |m.atoms|)
  {
    var st := Run(smi, items.value).value;
    var b := Chirality(|st.atoms|, st.bonds, st.centers, inRing).value;
    forall j | 0 <= j < |b| ensures BondIn(b[j], |st.atoms|) {
      assert SameBond(b[j], st.bonds[j]) && BondIn(st.bonds[j], |st.atoms|);
    }
  }

  /** '(' then ')' gives the state back. */
  lemma BranchRoundTrip(st: State, smi: string)
    requires Valid(st)
    ensures Step(st, "(", smi).Ok?
    ensures Step(Step(st, "(", smi).value, ")", smi) == Ok(st)
  {
    var st1 := Step(st, "(", smi).value;
    assert st1.branch[..|st1.branch| - 1] == st.branch;
  }

  /** ')' with nothing to close is an error. */
  lemma UnbalancedClose(st: State, smi: string)
    requires Valid(st) && st.branch == []
    ensures Step(st, ")", smi) == Err(smi + " Unbalanced parents")
  {
  }

  /** '.', '/' and '\' leave every variable as it was, so the next atom is
      still bonded to the previous one. */
  lemma NeutralTokens(st: State, item: string, smi: string)
    requires Valid(st) && (item == "." || item == "/" || item == "\\")
    ensures Step(st, item, smi) == Ok(st)
  {
  }

  /** A bond symbol becomes the pending bond type. */
  lemma BondTokenPends(st: State, item: string, smi: string)
    requires Valid(st) && IsBondToken(item)
    ensures Step(st, item, smi) == Ok(st.(bondType := Sym(item[0])))
  {
  }

  lemma ParseIntOfDigit(c: char)
    requires JsString.IsDigit(c)
    ensures JsString.ParseInt([c]) == Some(JsString.DigitValue(c))
  {
    JsString.ParseIntOfDigits([c]);
    assert JsString.DigitRun([c]) == 1;
    assert [c][..1] == [c];
    assert [c][..0] == [];
  }

  /** The first occurrence of a ring digit records the previous atom. */
  lemma RingOpens(st: State, c: char, smi: string)
    requires Valid(st) && JsString.IsDigit(c) && st.prev.Some?
    requires Index(JsString.DigitValue(c)) !in st.ring
    ensures Step(st, [c], smi) == Ok(st.(ring := st.ring[Index(JsString.DigitValue(c)) := st.prev.value]))
  {
    ParseIntOfDigit(c);
  }

  /** The second occurrence bonds the previous atom to the recorded one
      with the pending type, clears the pending type and frees the
      number. */
  lemma RingCloses(st: State, c: char, smi: string)
    requires Valid(st) && JsString.IsDigit(c) && st.prev.Some?
    requires Index(JsString.DigitValue(c)) in st.ring
    ensures var id := Index(JsString.DigitValue(c));
      var first := st.ring[id];
      var k := CreateBond(st.bondType, Some(st.atoms[st.prev.value].aromatic && st.atoms[first].aromatic));
      && (k.Err? ==> Step(st, [c], smi) == Err(k.error))
      && (k.Ok? ==>
            Step(st, [c], smi) ==
              Ok(st.(bonds := st.bonds + [SmiBond(st.prev.value, first, k.value.0, ChemModel.NOT_STEREO, k.value.1)],
                     bondType := NoneCode, ring := st.ring - {id})))
  {
    ParseIntOfDigit(c);
  }

  /** The molecule only grows, by at most one atom and one bond per token;
      a new bond always resets the pending bond type. */
  predicate Extends(st: State, nx: State)
  {
    && st.atoms <= nx.atoms && |nx.atoms| <= |st.atoms| + 1
    && st.bonds <= nx.bonds && |nx.bonds| <= |st.bonds| + 1
    && (|nx.bonds| > |st.bonds| ==> nx.bondType == NoneCode)
  }

  /** A closure adds at most a bond and keeps the atoms and the previous
      atom. */
  predicate KeepsAtoms(st: State, nx: State)
  {
    Extends(st, nx) && nx.atoms == st.atoms && nx.prev == st.prev
  }

  /** A new atom becomes the previous atom, bonded to the one before it
      when there was one. */
  predicate AddsAtom(st: State, nx: State)
  {
    && Extends(st, nx) && |nx.atoms| == |st.atoms| + 1 && nx.prev == Some(|st.atoms|)
    && (st.prev.Some? ==> |nx.bonds| == |st.bonds| + 1
                          && nx.bonds[|st.bonds|].source == st.prev.value
                          && nx.bonds[|st.bonds|].target == |st.atoms|)
    && (st.prev.None? ==> nx.bonds == st.bonds)
  }

  lemma BareClosureKeepsAtoms(st: State, id: RingId)
    requires Valid(st) && BareClosure(st, id).Ok?
    ensures KeepsAtoms(st, BareClosure(st, id).value)
  {
  }

  lemma OrderedClosureKeepsAtoms(st: State, id: RingId, c: char)
    requires Valid(st) && OrderedClosure(st, id, c).Ok?
    ensures KeepsAtoms(st, OrderedClosure(st, id, c).value)
  {
  }

  lemma AddAtomAdds(st: State, atom: SmiAtom, stereo: SmilesAtom.Stereo, hydrogen: bool)
    requires Valid(st) && AddAtom(st, atom, stereo, hydrogen).Ok?
    ensures AddsAtom(st, AddAtom(st, atom, stereo, hydrogen).value)
  {
  }

  /** Every token either keeps the atoms and the previous atom (a ring
      closure, a bond symbol, '.', '(', '/', '\\'), moves back to a branch
      point (')'), or adds an atom chained to the previous one. */
  lemma StepEffect(st: State, item: string, smi: string)
    requires Valid(st) && Step(st, item, smi).Ok?
    ensures var nx := Step(st, item, smi).value;
      && Extends(st, nx)
      && (item != ")" ==> KeepsAtoms(st, nx) || AddsAtom(st, nx))
      && (item == ")" ==> nx.atoms == st.atoms && nx.bonds == st.bonds)
  {
    if item == "." || item == "(" || item == ")" || IsBondToken(item) {
    } else if |item| > 0 && item[0] == '%' {
      BareClosureKeepsAtoms(st, PercentId(item));
    } else if item == "/" || item == "\\" {
    } else if JsString.ParseInt(item).Some? {
      BareClosureKeepsAtoms(st, Index(JsString.ParseInt(item).value));
    } else if |item| > 1 && (item[0] == '=' || item[0] == '#' || item[0] == '$')
              && JsString.ParseInt(item[1..]).Some? {
      OrderedClosureKeepsAtoms(st, Index(JsString.ParseInt(item[1..]).value), item[0]);
    } else {
      var t := TokenAtom(item).value;
      AddAtomAdds(st, t.0, t.1, t.2);
    }
  }

  // ---------------------------------------------------------------------
  // Ring-closure bond symbols.  The comment at lines 132-135 lists
  // C1=CCCCC1, C=1CCCCC1, C1CCCCC=1 and C=1CCCCC=1 as spellings of
  // cyclohexene, whose ring bond between the first and the sixth carbon is
  // double in the last three.  As written, a symbol on the opening number
  // alone is ignored when a bare number closes the ring, and a symbol on
  // the closing number alone fails.

  /** Closing with '=n' a ring opened by a bare n reads an undefined
      `ringClosureOrder` entry and fails. */
  lemma ClosureSymbolUndefinedAsWritten(st: State, d: char, smi: string)
    requires Valid(st) && JsString.IsDigit(d) && st.prev.Some?
    requires Index(JsString.DigitValue(d)) in st.ring && Index(JsString.DigitValue(d)) !in st.closureOrder
    ensures Step(st, ['=', d], smi) == Err(InvalidType(Undefined))
  {
    var id := Index(JsString.DigitValue(d));
    SymbolDigitToken(st, '=', d, smi);
    assert Connect(st, Undefined, st.ring[id]) == Err(InvalidType(Undefined));
  }

  /** A token of a bond symbol and one digit is a ring-closure number with
      its own symbol. */
  lemma SymbolDigitToken(st: State, c: char, d: char, smi: string)
    requires Valid(st) && JsString.IsDigit(d) && (c == '=' || c == '#' || c == '$')
    ensures Step(st, [c, d], smi) == OrderedClosure(st, Index(JsString.DigitValue(d)), c)
  {
    ClosureTokenShape(c, d);
    JsString.ParseIntRejects([c, d]);
    ClosureTokenTail(c, d);
  }

  /** A bond symbol followed by one digit is no bond, branch or direction
      token and no '%' number. */
  lemma ClosureTokenShape(c: char, d: char)
    requires JsString.IsDigit(d) && (c == '=' || c == '#' || c == '$')
    ensures var item := [c, d];
      && item != "." && item != "(" && item != ")" && !IsBondToken(item)
      && item[0] != '%' && item != "/" && item != "\\"
  {
  }

  /** The tail of a bond symbol followed by one digit reads as that
      digit's number. */
  lemma ClosureTokenTail(c: char, d: char)
    requires JsString.IsDigit(d)
    ensures |[c, d]| > 1 && JsString.ParseInt([c, d][1..]) == Some(JsString.DigitValue(d))
  {
    ParseIntOfDigit(d);
    assert [c, d][1..] == [d];
  }

  /** Closing with a bare n a ring opened by '=n' uses the pending type, so
      between non-aromatic atoms the ring bond is single. */
  lemma ClosureSymbolIgnoredAsWritten(st: State, d: char, smi: string)
    requires Valid(st) && JsString.IsDigit(d) && st.prev.Some? && st.bondType == NoneCode
    requires Index(JsString.DigitValue(d)) in st.ring
    requires st.closureOrder == map[Index(JsString.DigitValue(d)) := Sym('=')]
    requires !st.atoms[st.prev.value].aromatic
    ensures Step(st, [d], smi).Ok?
    ensures var nx := Step(st, [d], smi).value;
      |nx.bonds| == |st.bonds| + 1 && nx.bonds[|st.bonds|].order == ChemModel.SINGLE
  {
    RingCloses(st, d, smi);
  }

  /** The closure's bond type as the comment describes it: the symbol
      written with the closing number, else the one recorded with the
      opening number, else the pending type. */
  function IntendedClosureType(recorded: BondCode, written: Option<char>, pending: BondCode): (t: BondCode)
    ensures written.Some? ==> t == Sym(written.value)
    ensures written.None? && recorded.Sym? ==> t == recorded
    ensures written.None? && !recorded.Sym? ==> t == pending
  {
    if written.Some? then Sym(written.value) else if recorded.Sym? then recorded else pending
  }

  /** With the intended rule, every spelling that puts '=' on either
      occurrence of the ring number gives a double ring bond, and a bare
      pair gives the implicit bond. */
  lemma IntendedClosureDouble(recorded: BondCode, written: Option<char>, both: bool)
    requires recorded == Undefined || recorded == Sym('=')
    requires written == None || written == Some('=')
    ensures CreateBond(IntendedClosureType(recorded, written, NoneCode), Some(both)) ==
              if recorded == Sym('=') || written == Some('=') then Ok((ChemModel.DOUBLE, false))
              else Ok((ChemModel.SINGLE, both))
  {
  }
}
