// The text the two SVG writers (src/depict/svg.js and
// src/depict/svg_depict.js) build, kept as a sequence of elements: each
// element is one filled-in template literal, holding the symbol and the
// numbers it interpolates.  `Render` spells a sequence out; printing a
// number is JavaScript's number-to-string conversion, which is a
// parameter here.

module SvgText {
  import opened JsNumber

  /** What follows an atom symbol in svg.js (lines 45-49): nothing, a bare
      'H', or 'H' with the count as a subscript moved down by `dy`. */
  datatype HydrogenLabel = NoHydrogen | OneHydrogen | Hydrogens(dy: Num, count: Num)

  datatype Element =
    // svg.js, writeHeader (lines 29-34)
    | Header(w: Num, h: Num)
    // svg_depict.js, writeHeader (lines 12-17)
    | PlainHeader(w: Num, h: Num)
    // both toSvg (svg.js line 95, svg_depict.js line 44)
    | Background
    // svg.js, _drawAtom (lines 56-58)
    | Text(x: Num, y: Num, fontSize: Num, symbol: string, hydrogens: HydrogenLabel)
    // svg.js, _drawBond (lines 77-78, 82-83, 86-87)
    | LineTo(x1: Num, y1: Num, x2: Num, y2: Num, width: Num)
    // svg_depict.js, svgtxt (line 35)
    | PlainText(x: Num, y: Num, fontSize: Num, symbol: string)
    // the closing tag both toSvg return after `sb`
    | Close

  function HydrogenText(l: HydrogenLabel, numText: Num -> string): string
  {
    match l
    case NoHydrogen => ""
    case OneHydrogen => "<tspan>H</tspan>"
    case Hydrogens(dy, count) => "<tspan>H<tspan dy=\"" + numText(dy) + "\">" + numText(count) + "</tspan></tspan>"
  }

  /** The text of one element. */
  function ElementText(e: Element, numText: Num -> string): string
  {
    match e
    case Header(w, h) =>
      "\n  <svg version=\"1.2\"\n       baseProfile=\"full\"\n       width=\"" + numText(w)
      + "\" height=\"" + numText(h) + "\"\n       xmlns=\"http://www.w3.org/2000/svg\">\n  "
    case PlainHeader(w, h) =>
      "\n<svg version=\"1.2\"\n     baseProfile=\"full\"\n     width=\"" + numText(w)
      + "\" height=\"" + numText(h) + "\"\n     xmlns=\"http://www.w3.org/2000/svg\">\n"
    case Background => "<rect width=\"100%\" height=\"100%\" fill=\"white\"/>\n"
    case Text(x, y, fontSize, symbol, hydrogens) =>
      "<text x=\"" + numText(x) + "\" y=\"" + numText(y) + "\" font-family=\"Arial\"\n        font-size=\""
      + numText(fontSize) + "\"\n        fill=\"black\">" + symbol + HydrogenText(hydrogens, numText) + "</text>\n"
    case LineTo(x1, y1, x2, y2, width) =>
      "<line x1=\"" + numText(x1) + "\" y1=\"" + numText(y1) + "\" x2=\"" + numText(x2) + "\" y2=\""
      + numText(y2) + "\" stroke=\"black\"\n      stroke-width=\"" + numText(width) + "\"/>\n"
    case PlainText(x, y, fontSize, symbol) =>
      "<text x=\"" + numText(x) + "\" y=\"" + numText(y) + "\" font-family=\"Verdana\" font-size=\""
      + numText(fontSize) + "\" text-anchor=\"middle\" fill=\"black\">" + symbol + "</text>\n"
    case Close => "</svg>"
  }

  /** The concatenation of the texts of some items. */
  function Spell<T>(items: seq<T>, text: T -> string): string
  {
    if items == [] then "" else Spell(items[..|items| - 1], text) + text(items[|items| - 1])
  }

  /** Spelling out commutes with appending. */
  lemma {:induction false} SpellAppend<T>(a: seq<T>, b: seq<T>, text: T -> string)
    ensures Spell(a + b, text) == Spell(a, text) + Spell(b, text)
    decreases |b|
  {
    if b == [] {
      assert a + b == a;
    } else {
      var b' := b[..|b| - 1];
      assert (a + b)[..|a + b| - 1] == a + b';
      SpellAppend(a, b', text);
    }
  }

  /** The string a sequence of elements spells. */
  function Render(es: seq<Element>, numText: Num -> string): string
  {
    Spell(es, e => ElementText(e, numText))
  }

  /** A text that extends another, element by element, spells a string
      that extends the other's. */
  lemma RenderPrefix(a: seq<Element>, b: seq<Element>, numText: Num -> string)
    requires a <= b
    ensures Render(a, numText) <= Render(b, numText)
  {
    assert b == a + b[|a|..];
    SpellAppend(a, b[|a|..], e => ElementText(e, numText));
  }
}
