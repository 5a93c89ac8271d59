// src/io/smiles_parser.js at the level of one atom token: the tables the
// parser consults (specialAtoms, aromaticAtoms and the keys of
// periodicTable), the match of `atomPattern` against a bracket atom, and
// `parseAtom`, which reads the captured groups into an atom description.

module SmilesAtom {
  import opened Wrappers
  import JsString

  /** Organic-subset symbols accepted outside brackets (line 72-73). */
  const SpecialAtoms: seq<string> := ["C", "c", "N", "n", "O", "o", "S", "s", "P", "F", "Br", "Cl", "I", "B"]

  /** Symbols that mark an aromatic atom (line 74). */
  const AromaticAtoms: seq<string> := ["c", "n", "o", "s", "as", "se"]

  /** The keys of `periodicTable` (lines 356-475), every entry an object
      and so truthy: 118 keys, the 112 element symbols from H to Cn
      written with a capital and the six aromatic forms c, n, o, s, as and
      se. */
  predicate InPeriodicTable(s: string)
  {
    (|s| == 1 && s[0] in "HBCcNnOoFPSsKVYIWU") || (|s| == 2 && s[1] in SecondLetters(s[0]))
  }

  /** The second letters that follow a first letter among the two-letter
      keys. */
  function SecondLetters(c: char): string
  {
    match c
    case 'A' => "lrsgutcm"
    case 'B' => "eraikh"
    case 'C' => "laroudsemfn"
    case 'D' => "ybs"
    case 'E' => "urs"
    case 'F' => "erm"
    case 'G' => "aed"
    case 'H' => "eofgs"
    case 'I' => "nr"
    case 'K' => "r"
    case 'L' => "iaur"
    case 'M' => "gnodt"
    case 'N' => "eaibdpo"
    case 'O' => "s"
    case 'P' => "drmtboau"
    case 'R' => "buhenafg"
    case 'S' => "icernbmg"
    case 'T' => "icebmalh"
    case 'X' => "e"
    case 'Y' => "b"
    case 'Z' => "nr"
    case 'a' => "s"
    case 's' => "e"
    case _ => ""
  }

  predicate IsUpper(c: char) { 'A' <= c <= 'Z' }

  predicate IsLower(c: char) { 'a' <= c <= 'z' }

  /** `toUpperCase` on one character of the letters used here. */
  function Upper(c: char): (u: char)
    ensures IsLower(c) ==> IsUpper(u)
    ensures !IsLower(c) ==> u == c
  {
    if IsLower(c) then (c as int - 32) as char else c
  }

  // ---------------------------------------------------------------------
  // atomPattern (line 71):
  //   ^\[([0-9]*)([A-Z][a-z]?|c|n|o|se|s|as)(@|@@)?(H)?([0-9])?([+-][\d]?)?\]$
  // Every group is followed by a character that no later part can consume,
  // so the match is the greedy one: no backtracking choice can succeed
  // where the greedy choice fails.  A group that takes no part in the
  // match is undefined in JavaScript; here it is "", which no taking part
  // can produce for groups 3 to 6 and which `parseAtom` treats the same.

  /** The six captured groups. */
  datatype AtomGroups = AtomGroups(isotope: string, element: string, stereo: string,
                                   hydrogen: string, hcount: string, charge: string)

  /** The n characters of s from position i form an element group. */
  predicate ElementSpan(s: string, i: nat, n: nat)
  {
    i + n <= |s|
    && (|| (n == 1 && (IsUpper(s[i]) || s[i] == 'c' || s[i] == 'n' || s[i] == 'o' || s[i] == 's'))
        || (n == 2 && ((IsUpper(s[i]) && IsLower(s[i + 1])) || (s[i] == 's' && s[i + 1] == 'e')
                       || (s[i] == 'a' && s[i + 1] == 's'))))
  }

  /** The n characters of s from position i form a charge group. */
  predicate ChargeSpan(s: string, i: nat, n: nat)
  {
    i + n <= |s| && (n == 1 || n == 2) && (s[i] == '+' || s[i] == '-')
    && (n == 2 ==> JsString.IsDigit(s[i + 1]))
  }

  predicate IsElement(e: string) { ElementSpan(e, 0, |e|) }

  predicate IsCharge(c: string) { ChargeSpan(c, 0, |c|) }

  /** Groups that some bracket atom can produce. */
  predicate WellFormed(g: AtomGroups)
  {
    && (forall k :: 0 <= k < |g.isotope| ==> JsString.IsDigit(g.isotope[k]))
    && IsElement(g.element)
    && |g.stereo| <= 2 && (forall k :: 0 <= k < |g.stereo| ==> g.stereo[k] == '@')
    && |g.hydrogen| <= 1 && (forall k :: 0 <= k < |g.hydrogen| ==> g.hydrogen[k] == 'H')
    && |g.hcount| <= 1 && (forall k :: 0 <= k < |g.hcount| ==> JsString.IsDigit(g.hcount[k]))
    && (g.charge == "" || IsCharge(g.charge))
  }

  /** The text between the brackets that the groups spell out. */
  function Inner(g: AtomGroups): string
  {
    g.isotope + g.element + g.stereo + g.hydrogen + g.hcount + g.charge
  }

  function Bracket(g: AtomGroups): string
  {
    "[" + Inner(g) + "]"
  }

  /** Length of the element group at position i, 0 when there is none. */
  function ElementAt(s: string, i: nat): (n: nat)
    requires i <= |s|
    ensures i + n <= |s| && n <= 2
    ensures n > 0 ==> ElementSpan(s, i, n)
  {
    if i < |s| && IsUpper(s[i]) then (if i + 1 < |s| && IsLower(s[i + 1]) then 2 else 1)
    else if i + 1 < |s| && s[i] == 's' && s[i + 1] == 'e' then 2
    else if i < |s| && (s[i] == 'c' || s[i] == 'n' || s[i] == 'o' || s[i] == 's') then 1
    else if i + 1 < |s| && s[i] == 'a' && s[i + 1] == 's' then 2
    else 0
  }

  /** Length of the stereo group at position i. */
  function AtsAt(s: string, i: nat): (n: nat)
    requires i <= |s|
    ensures i + n <= |s| && n <= 2
    ensures forall k :: i <= k < i + n ==> s[k] == '@'
  {
    if i + 1 < |s| && s[i] == '@' && s[i + 1] == '@' then 2
    else if i < |s| && s[i] == '@' then 1
    else 0
  }

  /** Length of the hydrogen group at position i. */
  function HydrogenAt(s: string, i: nat): (n: nat)
    requires i <= |s|
    ensures i + n <= |s| && n <= 1
    ensures n == 1 <==> i < |s| && s[i] == 'H'
  {
    if i < |s| && s[i] == 'H' then 1 else 0
  }

  /** Length of the hydrogen-count group at position i. */
  function DigitAt(s: string, i: nat): (n: nat)
    requires i <= |s|
    ensures i + n <= |s| && n <= 1
    ensures n == 1 <==> i < |s| && JsString.IsDigit(s[i])
  {
    if i < |s| && JsString.IsDigit(s[i]) then 1 else 0
  }

  /** Length of the charge group at position i. */
  function ChargeAt(s: string, i: nat): (n: nat)
    requires i <= |s|
    ensures i + n <= |s| && n <= 2
    ensures n > 0 ==> ChargeSpan(s, i, n)
  {
    if i < |s| && (s[i] == '+' || s[i] == '-') then
      (if i + 1 < |s| && JsString.IsDigit(s[i + 1]) then 2 else 1)
    else 0
  }

  /** Where the groups of a match end: after the isotope, the element,
      the stereo mark, the hydrogen and the hydrogen count; the charge runs
      to the end. */
  datatype Ends = Ends(i1: nat, i2: nat, i3: nat, i4: nat, i5: nat)

  predicate Ordered(s: string, p: Ends)
  {
    p.i1 <= p.i2 <= p.i3 <= p.i4 <= p.i5 <= |s|
  }

  /** The groups of `s` cut at the given ends. */
  function Cut(s: string, p: Ends): (g: AtomGroups)
    requires Ordered(s, p)
  {
    AtomGroups(s[..p.i1], s[p.i1..p.i2], s[p.i2..p.i3], s[p.i3..p.i4], s[p.i4..p.i5], s[p.i5..])
  }

  /** The greedy scan of the pattern's body over the text between the
      brackets; None when some part fails or text is left over. */
  function Scan(s: string): (r: Option<Ends>)
    ensures r.Some? ==> Ordered(s, r.value)
  {
    var i1 := JsString.DigitRun(s);
    var e := ElementAt(s, i1);
    if e == 0 then None else ScanTail(s, i1, i1 + e)
  }

  /** The scan after the element, which ends at i2. */
  function ScanTail(s: string, i1: nat, i2: nat): (r: Option<Ends>)
    requires i1 <= i2 <= |s|
    ensures r.Some? ==> Ordered(s, r.value) && r.value.i1 == i1 && r.value.i2 == i2
  {
    var i3 := i2 + AtsAt(s, i2);
    var i4 := i3 + HydrogenAt(s, i3);
    var i5 := i4 + DigitAt(s, i4);
    if i5 + ChargeAt(s, i5) != |s| then None
    else Some(Ends(i1, i2, i3, i4, i5))
  }

  /** The match of the pattern's body against the text between the
      brackets. */
  function MatchInner(s: string): (r: Option<AtomGroups>)
    ensures r.Some? ==> WellFormed(r.value) && Inner(r.value) == s
  {
    var p := Scan(s);
    if p.None? then None
    else
      ScanWellFormed(s);
      CutSpells(s, p.value);
      Some(Cut(s, p.value))
  }

  lemma CutSpells(s: string, p: Ends)
    requires Ordered(s, p)
    ensures Inner(Cut(s, p)) == s
  {
    assert s[..p.i1] + s[p.i1..p.i2] + s[p.i2..p.i3] + s[p.i3..p.i4] + s[p.i4..p.i5] + s[p.i5..] == s;
  }

  lemma ScanWellFormed(s: string)
    requires Scan(s).Some?
    ensures WellFormed(Cut(s, Scan(s).value))
  {
    var p := Scan(s).value;
    var g := Cut(s, p);
    ScanElement(s);
    assert forall k :: 0 <= k < |g.isotope| ==> JsString.IsDigit(g.isotope[k]) by {
      forall k | 0 <= k < |g.isotope| ensures JsString.IsDigit(g.isotope[k]) {
        assert g.isotope[k] == s[k];
      }
    }
    assert forall k :: 0 <= k < |g.stereo| ==> g.stereo[k] == '@' by {
      forall k | 0 <= k < |g.stereo| ensures g.stereo[k] == '@' {
        assert g.stereo[k] == s[p.i2 + k];
      }
    }
    assert p.i3 < p.i4 ==> g.hydrogen[0] == s[p.i3];
    assert p.i4 < p.i5 ==> g.hcount[0] == s[p.i4];
    ScanCharge(s);
  }

  lemma ScanElement(s: string)
    requires Scan(s).Some?
    ensures IsElement(Cut(s, Scan(s).value).element)
  {
    var p := Scan(s).value;
    var e := Cut(s, p).element;
    assert ElementSpan(s, p.i1, p.i2 - p.i1);
    assert e[0] == s[p.i1];
    assert |e| == 2 ==> e[1] == s[p.i1 + 1];
  }

  lemma ScanCharge(s: string)
    requires Scan(s).Some?
    ensures var c := Cut(s, Scan(s).value).charge; c == "" || IsCharge(c)
  {
    var p := Scan(s).value;
    var c := Cut(s, p).charge;
    if p.i5 < |s| {
      assert ChargeSpan(s, p.i5, |s| - p.i5);
      assert c[0] == s[p.i5];
      assert |c| == 2 ==> c[1] == s[p.i5 + 1];
    }
  }

  /** `atomPattern.exec(item)`: the groups of a bracket atom, or null.  A
      match spells the item out exactly. */
  function AtomPattern(item: string): (r: Option<AtomGroups>)
    ensures r.Some? ==> WellFormed(r.value) && item == Bracket(r.value)
  {
    if |item| < 2 || item[0] != '[' || item[|item| - 1] != ']' then None
    else
      var r := MatchInner(item[1..|item| - 1]);
      if r.Some? then
        BracketSplit(item);
        r
      else None
  }

  lemma BracketSplit(item: string)
    requires |item| >= 2 && item[0] == '[' && item[|item| - 1] == ']'
    ensures item == "[" + item[1..|item| - 1] + "]"
  {
    assert item == [item[0]] + item[1..|item| - 1] + [item[|item| - 1]];
  }

  lemma {:induction false} DigitRunOfPrefix(a: string, b: string)
    requires forall k :: 0 <= k < |a| ==> JsString.IsDigit(a[k])
    requires b == [] || !JsString.IsDigit(b[0])
    ensures JsString.DigitRun(a + b) == |a|
  {
    assert forall k :: 0 <= k < |a| ==> (a + b)[k] == a[k];
    if b != [] {
      assert (a + b)[|a|] == b[0];
    }
  }

  /** Where the groups of `g` end in the text they spell out. */
  function EndsOf(g: AtomGroups): (p: Ends)
    ensures Ordered(Inner(g), p) && p.i5 + |g.charge| == |Inner(g)|
  {
    var p1 := |g.isotope|;
    var p2 := p1 + |g.element|;
    var p3 := p2 + |g.stereo|;
    var p4 := p3 + |g.hydrogen|;
    Ends(p1, p2, p3, p4, p4 + |g.hcount|)
  }

  lemma CutOfInner(g: AtomGroups)
    ensures Cut(Inner(g), EndsOf(g)) == g
  {
    var s, p := Inner(g), EndsOf(g);
    assert s[..p.i1] == g.isotope && s[p.i1..p.i2] == g.element && s[p.i2..p.i3] == g.stereo;
    assert s[p.i3..p.i4] == g.hydrogen && s[p.i4..p.i5] == g.hcount && s[p.i5..] == g.charge;
  }

  /** The character of the text at each group's position is that group's
      first character. */
  lemma InnerAt(g: AtomGroups)
    ensures var s, p := Inner(g), EndsOf(g);
      && (p.i1 < p.i2 ==> s[p.i1] == g.element[0])
      && (p.i1 + 1 < p.i2 ==> s[p.i1 + 1] == g.element[1])
      && (p.i2 < p.i3 ==> s[p.i2] == g.stereo[0])
      && (p.i2 + 1 < p.i3 ==> s[p.i2 + 1] == g.stereo[1])
      && (p.i3 < p.i4 ==> s[p.i3] == g.hydrogen[0])
      && (p.i4 < p.i5 ==> s[p.i4] == g.hcount[0])
      && (p.i5 < |s| ==> s[p.i5] == g.charge[0])
      && (p.i5 + 1 < |s| ==> s[p.i5 + 1] == g.charge[1])
  {
    CutOfInner(g);
  }

  lemma DigitRunOfInner(g: AtomGroups)
    requires WellFormed(g)
    ensures JsString.DigitRun(Inner(g)) == |g.isotope|
  {
    var rest := g.element + g.stereo + g.hydrogen + g.hcount + g.charge;
    assert Inner(g) == g.isotope + rest;
    assert rest[0] == g.element[0];
    DigitRunOfPrefix(g.isotope, rest);
  }

  lemma ScannersOfInner(g: AtomGroups)
    requires WellFormed(g)
    ensures var s, p := Inner(g), EndsOf(g);
      && ElementAt(s, p.i1) == p.i2 - p.i1
      && AtsAt(s, p.i2) == p.i3 - p.i2
      && HydrogenAt(s, p.i3) == p.i4 - p.i3
      && DigitAt(s, p.i4) == p.i5 - p.i4
      && p.i5 + ChargeAt(s, p.i5) == |s|
  {
    InnerAt(g);
  }

  /** Matching the text the groups spell out gives the groups back. */
  lemma MatchInnerOfInner(g: AtomGroups)
    requires WellFormed(g)
    ensures MatchInner(Inner(g)) == Some(g)
  {
    DigitRunOfInner(g);
    ScannersOfInner(g);
    ScanAt(Inner(g), EndsOf(g));
    CutOfInner(g);
  }

  lemma ScanAt(s: string, p: Ends)
    requires p.i1 < p.i2 <= p.i3 <= p.i4 <= p.i5 <= |s|
    requires JsString.DigitRun(s) == p.i1 && ElementAt(s, p.i1) == p.i2 - p.i1
    requires AtsAt(s, p.i2) == p.i3 - p.i2 && HydrogenAt(s, p.i3) == p.i4 - p.i3
    requires DigitAt(s, p.i4) == p.i5 - p.i4 && p.i5 + ChargeAt(s, p.i5) == |s|
    ensures Scan(s) == Some(p)
  {
    ScanTailAt(s, p);
  }

  lemma ScanTailAt(s: string, p: Ends)
    requires p.i1 < p.i2 <= p.i3 <= p.i4 <= p.i5 <= |s|
    requires AtsAt(s, p.i2) == p.i3 - p.i2 && HydrogenAt(s, p.i3) == p.i4 - p.i3
    requires DigitAt(s, p.i4) == p.i5 - p.i4 && p.i5 + ChargeAt(s, p.i5) == |s|
    ensures ScanTail(s, p.i1, p.i2) == Some(p)
  {
  }

  /** Printing well-formed groups as a bracket atom and matching the
      result gives the groups back; with the ensures of AtomPattern, the
      match and the printing are inverse to each other. */
  lemma AtomPatternOfBracket(g: AtomGroups)
    requires WellFormed(g)
    ensures AtomPattern(Bracket(g)) == Some(g)
  {
    var item := Bracket(g);
    assert item[1..|item| - 1] == Inner(g);
    MatchInnerOfInner(g);
  }

  // ---------------------------------------------------------------------
  // parseAtom (lines 205-261).

  /** The stereo mark: 'NONE', '@' (CLOCKWISE) or '@@' (COUNTER_CLOCKWISE)
      in the names of lines 43-47. */
  datatype Stereo = NoStereo | Clockwise | CounterClockwise

  /** The object `parseAtom` returns.  None stands for null, and for NaN
      in `charge`; `hcount` is the digit's value or 1 (the source keeps the
      digit as a string, which no caller reads). */
  datatype ParsedAtom = ParsedAtom(isotope: Option<string>, symbol: Option<string>, stereo: Stereo,
                                   hcount: Option<nat>, charge: Option<int>, aromatic: bool,
                                   chiralHydrogenNeighbour: bool)

  /** The symbol before aromatic capitalisation: for a bracket atom the
      element group when the periodic table has it; otherwise the item
      itself when it is in the organic subset. */
  function RawSymbol(item: string): (r: Option<string>)
    ensures r.Some? ==> InPeriodicTable(r.value) && IsElement(r.value)
  {
    var m := AtomPattern(item);
    if m.Some? then
      (if InPeriodicTable(m.value.element) then Some(m.value.element) else None)
    else if item in SpecialAtoms then
      SpecialAtomsAreElements(item);
      Some(item)
    else None
  }

  lemma SpecialAtomsAreElements(s: string)
    requires s in SpecialAtoms
    ensures InPeriodicTable(s) && IsElement(s)
  {
  }

  /** Aromatic symbols are capitalised: the whole one-letter symbol, or
      the first of two letters. */
  function Capitalised(s: string): (r: string)
    requires |s| == 1 || |s| == 2
    ensures |r| == |s| && IsLower(s[0]) ==> IsUpper(r[0])
  {
    if |s| == 1 then [Upper(s[0])] else [Upper(s[0])] + [s[1]]
  }

  function StereoOf(g: string): Stereo
  {
    if g == "@" then Clockwise else if g == "@@" then CounterClockwise else NoStereo
  }

  /** The charge field: 1 for '+', -1 for '-', otherwise parseInt of the
      group (NaN for "", and so for an absent group). */
  function ChargeOf(g: string): (r: Option<int>)
    ensures g == "" ==> r.None?
  {
    if g == "+" then Some(1) else if g == "-" then Some(-1) else JsString.ParseInt(g)
  }

  function ParseAtom(item: string): (a: ParsedAtom)
    // Only the tables decide whether there is an atom, and its symbol is
    // always a periodic-table key starting with a capital.
    ensures a.symbol.Some? <==> RawSymbol(item).Some?
    ensures a.symbol.Some? ==> InPeriodicTable(a.symbol.value) && IsUpper(a.symbol.value[0])
    // Aromatic exactly for the six lower-case symbols, which are the ones
    // capitalised; others are kept as written.
    ensures a.aromatic <==> RawSymbol(item).Some? && RawSymbol(item).value in AromaticAtoms
    ensures a.symbol.Some? && !a.aromatic ==> a.symbol == RawSymbol(item)
    // A plain token carries nothing but its symbol.
    ensures AtomPattern(item).None? ==>
              a.isotope.None? && a.stereo == NoStereo && a.hcount.None? && a.charge.None?
              && (a.symbol.Some? <==> item in SpecialAtoms)
    // Hydrogen next to a chiral centre is only noted for a chiral atom.
    ensures a.chiralHydrogenNeighbour ==> a.stereo != NoStereo && a.hcount.Some?
  {
    var m := AtomPattern(item);
    var raw := RawSymbol(item);
    var aromatic := raw.Some? && raw.value in AromaticAtoms;
    var symbol := if aromatic then Some(Capitalised(raw.value)) else raw;
    CapitalisedInTable(raw);
    if m.Some? then
      var g := m.value;
      var stereo := StereoOf(g.stereo);
      ParsedAtom(Some(g.isotope), symbol, stereo,
                 if g.hydrogen == "H" then Some(if g.hcount != "" then JsString.DigitValue(g.hcount[0]) else 1)
                 else None,
                 ChargeOf(g.charge), aromatic, stereo != NoStereo && g.hydrogen == "H")
    else
      ParsedAtom(None, symbol, NoStereo, None, None, aromatic, false)
  }

  /** The symbol `parseAtom` ends up with is a periodic-table key starting
      with a capital letter, whether or not it was capitalised. */
  lemma CapitalisedInTable(raw: Option<string>)
    requires raw.Some? ==> InPeriodicTable(raw.value) && IsElement(raw.value)
    ensures raw.Some? && raw.value in AromaticAtoms ==>
              InPeriodicTable(Capitalised(raw.value)) && IsUpper(Capitalised(raw.value)[0])
    ensures raw.Some? && raw.value !in AromaticAtoms ==> IsUpper(raw.value[0])
  {
    if raw.Some? {
      var s := raw.value;
      if !IsUpper(s[0]) {
        if |s| == 1 {
          assert s == [s[0]];
        } else {
          assert s == [s[0], s[1]];
        }
      }
      if s in AromaticAtoms {
        if s == "c" { assert Capitalised(s) == "C"; }
        else if s == "n" { assert Capitalised(s) == "N"; }
        else if s == "o" { assert Capitalised(s) == "O"; }
        else if s == "s" { assert Capitalised(s) == "S"; }
        else if s == "as" { assert Capitalised(s) == "As"; }
        else { assert Capitalised(s) == "Se"; }
      }
    }
  }
}
