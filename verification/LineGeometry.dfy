/** Where the layout puts each glyph: lines of equal height, characters side by side, each line filled as far
    as the page's width allows. */
module LineGeometry {
  import opened BuiltInBitmapFont
  import opened ScreenState
  import opened TextLayout

  /** The advances of those of the first `i` characters that are on line `line`. */
  function AdvancesOn(p: Page, text: seq<Glyphic>, i: nat, line: nat): nat
    requires i <= |text|
  {
    if i == 0 then 0
    else AdvancesOn(p, text, i - 1, line) + (if LineOf(p, text, i - 1) == line then Advance(p.font, text[i - 1]) else 0)
  }

  /** The glyph of character `i`: as many glyphs come before it as there are glyphs of the text up to it. */
  function GlyphOf(p: Page, text: seq<Glyphic>, i: nat): Glyph
    requires i < |text| && text[i] != NEW_LINE
  {
    GlyphIndex(p, text, i);
    Glyphs(p, text)[|Glyphs(p, text[..i])|]
  }

  lemma GlyphIndex(p: Page, text: seq<Glyphic>, i: nat)
    requires i < |text| && text[i] != NEW_LINE
    ensures |Glyphs(p, text[..i])| < |Glyphs(p, text)|
    ensures [Glyphs(p, text)[|Glyphs(p, text[..i])|]] == GlyphAt(p, Laid(p, HOME, text[..i]), text[i])
  {
    hide Glyphs;
    GlyphsNext(p, text, i);
    GlyphsPrefix(p, text, i + 1);
  }

  /** The new-line characters apart, every character of the text has its glyph, and there are no others. */
  lemma {:induction false} EveryGlyph(p: Page, text: seq<Glyphic>, k: nat) returns (i: nat)
    requires k < |Glyphs(p, text)|
    ensures i < |text| && text[i] != NEW_LINE && GlyphOf(p, text, i) == Glyphs(p, text)[k]
    ensures |Glyphs(p, text[..i])| == k
  {
    hide Laid, Placed, Wrapped;
    var n := |text| - 1;
    if k < |Glyphs(p, text[..n])| {
      i := EveryGlyph(p, text[..n], k);
      assert text[..n][..i] == text[..i];
    } else {
      i := n;
    }
  }

  // ----- The cursor -----

  /** No character is on a line that has not been begun. */
  lemma {:induction false} NothingFurtherDown(p: Page, text: seq<Glyphic>, i: nat, line: nat)
    requires i <= |text| && line > Laid(p, HOME, text[..i]).line
    ensures AdvancesOn(p, text, i, line) == 0
  {
    hide Laid;
    if i > 0 {
      LineByOne(p, text, i - 1);
      NothingFurtherDown(p, text, i - 1, line);
    }
  }

  /** The cursor is as far to the right as the characters on its line take, and as far down as its line. */
  lemma {:induction false} CursorIs(p: Page, text: seq<Glyphic>, i: nat)
    requires i <= |text|
    ensures Laid(p, HOME, text[..i]).x == AdvancesOn(p, text, i, Laid(p, HOME, text[..i]).line)
    ensures Laid(p, HOME, text[..i]).y == Laid(p, HOME, text[..i]).line * p.font.lineHeight
  {
    hide Laid;
    if i == 0 {
      NothingDrawn(p, text);
    } else {
      CursorIs(p, text, i - 1);
      LaidNext(p, HOME, text, i - 1);
      var at := Laid(p, HOME, text[..i - 1]);
      NothingFurtherDown(p, text, i - 1, at.line + 1);
      NextRow(at.line, p.font.lineHeight);
    }
  }

  lemma NextRow(line: nat, height: nat)
    ensures (line + 1) * height == line * height + height
  {
  }

  // ----- The layout -----

  /** The advances of the characters before `i` on the line that is being filled when `i` is reached. */
  function Filled(p: Page, text: seq<Glyphic>, i: nat): nat
    requires i < |text|
  {
    if i == 0 || text[i - 1] == NEW_LINE then 0
    else AdvancesOn(p, text, i, LineOf(p, text, i - 1))
  }

  /** A character is on a further line than the one before it if that one is a new line, and once more if it
      does not itself fit beside what its line holds already; otherwise it is on the same line. */
  lemma LineBrokenIff(p: Page, text: seq<Glyphic>, i: nat)
    requires i < |text|
    ensures LineOf(p, text, i) ==
            (if i == 0 then 0 else LineOf(p, text, i - 1) + (if text[i - 1] == NEW_LINE then 1 else 0))
            + (if text[i] != NEW_LINE && Filled(p, text, i) + Advance(p.font, text[i]) > p.width then 1 else 0)
  {
    hide Laid, AdvancesOn;
    LaidNext(p, HOME, text, i);
    CursorIs(p, text, i);
    if i == 0 {
      NothingDrawn(p, text);
    } else {
      LaidNext(p, HOME, text, i - 1);
    }
  }

  /** A glyph is on the row of its line, beside the characters before it on that line, and within the page's
      width unless its character is wider than the page. */
  lemma GlyphPlaced(p: Page, text: seq<Glyphic>, i: nat)
    requires i < |text| && text[i] != NEW_LINE
    ensures
      var g, line := GlyphOf(p, text, i), LineOf(p, text, i);
      && g.code == text[i] && g.y == line * p.font.lineHeight && g.x == AdvancesOn(p, text, i, line)
      && (Advance(p.font, g.code) <= p.width ==> 0 <= g.x && g.x + Advance(p.font, g.code) <= p.width)
  {
    hide Laid, Glyphs, AdvancesOn;
    GlyphIndex(p, text, i);
    LaidNext(p, HOME, text, i);
    CursorIs(p, text, i);
    var at := Laid(p, HOME, text[..i]);
    NothingFurtherDown(p, text, i, at.line + 1);
    NextRow(at.line, p.font.lineHeight);
  }

  /** A glyph that lies within the page's width, if its character fits there at all, and on one of the lines. */
  predicate OnPage(p: Page, numLines: nat, g: Glyph) {
    && 0 <= g.x && (Advance(p.font, g.code) <= p.width ==> g.x + Advance(p.font, g.code) <= p.width)
    && 0 <= g.y && g.y + p.font.lineHeight <= numLines * p.font.lineHeight
  }

  /** Of a text whose layout ends above line `numLines` every glyph is on the page. */
  lemma FittingIsOnPage(p: Page, text: seq<Glyphic>, numLines: nat, g: Glyph)
    requires Laid(p, HOME, text).line < numLines && g in Glyphs(p, text)
    ensures OnPage(p, numLines, g)
  {
    hide Laid, Glyphs, AdvancesOn;
    var k: nat :| k < |Glyphs(p, text)| && Glyphs(p, text)[k] == g;
    var i := EveryGlyph(p, text, k);
    GlyphPlaced(p, text, i);
    LineByOne(p, text, i);
    LineGrows(p, text, i + 1, |text|);
    assert text[..|text|] == text;
    var line := LineOf(p, text, i);
    NextRow(line, p.font.lineHeight);
    RowsBelow(line + 1, numLines, p.font.lineHeight);
  }

  lemma FittingAreOnPage(p: Page, text: seq<Glyphic>, numLines: nat)
    requires Laid(p, HOME, text).line < numLines
    ensures forall g | g in Glyphs(p, text) :: OnPage(p, numLines, g)
  {
    hide Laid, Glyphs, OnPage;
    forall g | g in Glyphs(p, text)
      ensures OnPage(p, numLines, g)
    {
      FittingIsOnPage(p, text, numLines, g);
    }
  }

  /** What is laid out before the display is full takes at most one line more than there are. */
  lemma StoppedIsOnPage(p: Page, text: seq<Glyphic>, numLines: nat, k: nat)
    requires numLines > 0 && StopsAt(p, text, numLines, k)
    ensures forall g | g in Glyphs(p, text[..k]) :: OnPage(p, numLines + 1, g)
  {
    hide Laid, Glyphs, OnPage;
    if Laid(p, HOME, text[..k]).line != numLines { LinesBelow(p, text, numLines, k); }
    FittingAreOnPage(p, text[..k], numLines + 1);
  }

  lemma RowsBelow(a: nat, b: nat, height: nat)
    requires a <= b
    ensures a * height <= b * height
  {
  }

  // ----- Glyphs on one line -----

  /** The glyphs of one line stand on one baseline, and the image of each is the size that the font says. */
  lemma OneBaseline(p: Page, text: seq<Glyphic>, i: nat, j: nat)
    requires i < |text| && j < |text| && Printable(text[i]) && Printable(text[j]) && LineOf(p, text, i) == LineOf(p, text, j)
    ensures
      var g, h := GlyphOf(p, text, i), GlyphOf(p, text, j);
      Box(p.font, g).y + Entry(p.font, text[i]).bitmapTop == Box(p.font, h).y + Entry(p.font, text[j]).bitmapTop
      == (LineOf(p, text, i) + 1) * p.font.lineHeight
  {
    hide GlyphOf, LineOf, AdvancesOn;
    GlyphPlaced(p, text, i);
    GlyphPlaced(p, text, j);
    NextRow(LineOf(p, text, i), p.font.lineHeight);
  }
}
