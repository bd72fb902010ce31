/** The shell's greedy line layout: a character that would cross the right edge goes to a new line, and
    so does what follows a new-line character. */
module TextLayout {
  import opened BuiltInBitmapFont
  import opened ScreenState

  /** How the console is laid out. */
  datatype Page = Page(font: Font, width: nat)

  /** Where the next character goes: line `line`, at pixel position (x, y). */
  datatype Cursor = Cursor(line: nat, x: nat, y: nat)

  const HOME := Cursor(0, 0, 0)

  function NextLine(p: Page, at: Cursor): Cursor {
    Cursor(at.line + 1, 0, at.y + p.font.lineHeight)
  }

  /** Where a character other than a new line is drawn. */
  function Wrapped(p: Page, at: Cursor, c: Glyphic): Cursor {
    if at.x + Advance(p.font, c) > p.width then NextLine(p, at) else at
  }

  function Placed(p: Page, at: Cursor, c: Glyphic): Cursor {
    if c == NEW_LINE then
      NextLine(p, at)
    else
      var w := Wrapped(p, at, c);
      Cursor(w.line, w.x + Advance(p.font, c), w.y)
  }

  /** The cursor after laying out `text` from `from`. */
  function Laid(p: Page, from: Cursor, text: seq<Glyphic>): (r: Cursor)
    ensures r.line >= from.line
  {
    if text == [] then from else Placed(p, Laid(p, from, text[..|text| - 1]), text[|text| - 1])
  }

  /** The glyphs of `text` laid out from the top. */
  function Glyphs(p: Page, text: seq<Glyphic>): seq<Glyph> {
    if text == [] then []
    else Glyphs(p, text[..|text| - 1]) + GlyphAt(p, Laid(p, HOME, text[..|text| - 1]), text[|text| - 1])
  }

  function GlyphAt(p: Page, at: Cursor, c: Glyphic): seq<Glyph> {
    if c == NEW_LINE then [] else var w := Wrapped(p, at, c); [Glyph(c, w.x, w.y)]
  }

  /** Laying out stops after `k` characters: at the first point where `lines` lines are complete, or at
      the end of the text. */
  ghost predicate StopsAt(p: Page, text: seq<Glyphic>, lines: nat, k: nat) {
    k <= |text| &&
    (k == |text| || Laid(p, HOME, text[..k]).line == lines) &&
    forall j: nat | j < k :: Laid(p, HOME, text[..j]).line != lines
  }

  lemma LaidNext(p: Page, from: Cursor, text: seq<Glyphic>, i: nat)
    requires i < |text|
    ensures Laid(p, from, text[..i + 1]) == Placed(p, Laid(p, from, text[..i]), text[i])
  {
    assert text[..i + 1][..i] == text[..i];
  }

  lemma NothingDrawn(p: Page, text: seq<Glyphic>)
    ensures Laid(p, HOME, text[..0]) == HOME && Glyphs(p, text[..0]) == []
  {
  }

  lemma GlyphsNext(p: Page, text: seq<Glyphic>, i: nat)
    requires i < |text|
    ensures Glyphs(p, text[..i + 1]) == Glyphs(p, text[..i]) + GlyphAt(p, Laid(p, HOME, text[..i]), text[i])
  {
    assert text[..i + 1][..i] == text[..i];
  }

  lemma {:induction false} GlyphsPrefix(p: Page, text: seq<Glyphic>, i: nat)
    requires i <= |text|
    ensures Glyphs(p, text[..i]) <= Glyphs(p, text)
    decreases |text| - i
  {
    if i == |text| {
      assert text[..i] == text;
    } else {
      GlyphsNext(p, text, i);
      GlyphsPrefix(p, text, i + 1);
    }
  }

  lemma {:induction false} LaidSplit(p: Page, from: Cursor, a: seq<Glyphic>, b: seq<Glyphic>)
    ensures Laid(p, from, a + b) == Laid(p, Laid(p, from, a), b)
  {
    if b == [] {
      assert a + b == a;
    } else {
      LaidSplit(p, from, a, b[..|b| - 1]);
      assert (a + b)[..|a + b| - 1] == a + b[..|b| - 1];
    }
  }

  // ---- Laying out from further left, or from an earlier line, never ends further on ----

  /** `a`, moved down `lines` lines, is not past `b`. */
  predicate Lags(a: Cursor, b: Cursor, lines: nat) {
    a.line + lines < b.line || (a.line + lines == b.line && a.x <= b.x)
  }

  lemma PlacedLags(p: Page, a: Cursor, b: Cursor, lines: nat, c: Glyphic)
    requires Lags(a, b, lines)
    ensures Lags(Placed(p, a, c), Placed(p, b, c), lines)
  {
  }

  lemma {:induction false} LaidLags(p: Page, a: Cursor, b: Cursor, lines: nat, text: seq<Glyphic>)
    requires Lags(a, b, lines)
    ensures Lags(Laid(p, a, text), Laid(p, b, text), lines)
  {
    if text != [] {
      LaidLags(p, a, b, lines, text[..|text| - 1]);
      PlacedLags(p, Laid(p, a, text[..|text| - 1]), Laid(p, b, text[..|text| - 1]), lines, text[|text| - 1]);
    }
  }

  /** Lines are completed one at a time. */
  lemma {:induction false} LinesBelow(p: Page, text: seq<Glyphic>, lines: nat, i: nat)
    requires i <= |text| && lines > 0
    requires forall j: nat | j <= i :: Laid(p, HOME, text[..j]).line != lines
    ensures Laid(p, HOME, text[..i]).line < lines
  {
    if i > 0 {
      LinesBelow(p, text, lines, i - 1);
      LaidNext(p, HOME, text, i - 1);
    } else {
      assert text[..0] == [];
    }
  }

  lemma LineGrows(p: Page, text: seq<Glyphic>, i: nat, j: nat)
    requires i <= j <= |text|
    ensures Laid(p, HOME, text[..i]).line <= Laid(p, HOME, text[..j]).line
  {
    assert text[..j] == text[..i] + text[i..j];
    LaidSplit(p, HOME, text[..i], text[i..j]);
  }

  // ---- Scrolling ----

  /** How many lines too many the text needs on a display of `numLines` lines. */
  function Overflow(p: Page, text: seq<Glyphic>, numLines: nat): nat
    requires numLines > 0
  {
    var breaks := Laid(p, HOME, text).line;
    if breaks >= numLines then breaks - numLines + 1 else 0
  }

  /** Dropping the characters of the overflowing lines leaves a text that fits, although its layout
      starts afresh at the left edge. */
  lemma ScrolledFits(p: Page, text: seq<Glyphic>, numLines: nat, k: nat)
    requires numLines > 0 && StopsAt(p, text, Overflow(p, text, numLines), k)
    ensures Laid(p, HOME, text[k..]).line < numLines
  {
    var lines := Overflow(p, text, numLines);
    assert text[..|text|] == text && text[..0] == [] && text == text[..k] + text[k..];
    if lines > 0 {
      if k == |text| && Laid(p, HOME, text[..k]).line != lines {
        LinesBelow(p, text, lines, k);
      }
    }
    var at := Laid(p, HOME, text[..k]);
    LaidSplit(p, HOME, text[..k], text[k..]);
    LaidLags(p, HOME, at, lines, text[k..]);
  }

  /** A text that fits is laid out to its end. */
  lemma FittingIsWhole(p: Page, text: seq<Glyphic>, numLines: nat, k: nat)
    requires Laid(p, HOME, text).line < numLines && StopsAt(p, text, numLines, k)
    ensures k == |text|
  {
    LineGrows(p, text, k, |text|);
    assert text[..|text|] == text;
  }

  /** The line that the i-th character is on; a new line ends the line it is on. */
  function LineOf(p: Page, text: seq<Glyphic>, i: nat): nat
    requires i < |text|
  {
    if text[i] == NEW_LINE then Laid(p, HOME, text[..i]).line else Laid(p, HOME, text[..i + 1]).line
  }

  /** Line `line` ends with a new-line character. */
  ghost predicate EndsInNewLine(p: Page, text: seq<Glyphic>, line: nat) {
    exists i: nat :: i < |text| && text[i] == NEW_LINE && LineOf(p, text, i) == line
  }

  /** Scrolling by `lines` lines drops every character of those lines; it drops nothing else if and only
      if the last of those lines ends with a new-line character. When it does not, the last character
      dropped is the one that had been wrapped to the first line that should have stayed. */
  lemma ScrollDropsExactlyIff(p: Page, text: seq<Glyphic>, lines: nat, k: nat)
    requires 0 < lines <= Laid(p, HOME, text).line && StopsAt(p, text, lines, k)
    ensures 0 < k
    ensures forall i: nat | i < |text| && LineOf(p, text, i) < lines :: i < k
    ensures (forall i: nat | i < k :: LineOf(p, text, i) < lines) <==> EndsInNewLine(p, text, lines - 1)
    ensures !EndsInNewLine(p, text, lines - 1) ==> text[k - 1] != NEW_LINE && LineOf(p, text, k - 1) == lines
  {
    hide Laid;
    StopsAtLine(p, text, lines, k);
    forall i: nat | k <= i < |text| ensures LineOf(p, text, i) >= lines {
      LineGrows(p, text, k, i);
      LineGrows(p, text, k, i + 1);
    }
    forall i: nat | i + 1 < k ensures LineOf(p, text, i) < lines {
      LinesBefore(p, text, lines, k, i);
      LinesBefore(p, text, lines, k, i + 1);
    }
    LinesBefore(p, text, lines, k, k - 1);
    assert text[..k - 1 + 1] == text[..k];
    assert LineOf(p, text, k - 1) < lines <==> text[k - 1] == NEW_LINE;
    NewLineIsDropped(p, text, lines, k);
  }

  /** Scrolling that has lines enough stops when the last of them is complete. */
  lemma StopsAtLine(p: Page, text: seq<Glyphic>, lines: nat, k: nat)
    requires 0 < lines <= Laid(p, HOME, text).line && StopsAt(p, text, lines, k)
    ensures 0 < k && Laid(p, HOME, text[..k]).line == lines
  {
    hide Placed;
    assert text[..|text|] == text && text[..0] == [];
    if Laid(p, HOME, text[..k]).line != lines { LinesBelow(p, text, lines, k); }
  }

  lemma LinesBefore(p: Page, text: seq<Glyphic>, lines: nat, k: nat, i: nat)
    requires 0 < lines && StopsAt(p, text, lines, k) && i < k
    ensures Laid(p, HOME, text[..i]).line < lines
  {
    LinesBelow(p, text, lines, i);
  }

  /** A new-line character that ends the last overflowing line is the last one dropped. */
  lemma NewLineIsDropped(p: Page, text: seq<Glyphic>, lines: nat, k: nat)
    requires 0 < lines && 0 < k <= |text| && Laid(p, HOME, text[..k]).line == lines && Laid(p, HOME, text[..k - 1]).line < lines
    ensures EndsInNewLine(p, text, lines - 1) <==> text[k - 1] == NEW_LINE
  {
    hide Laid;
    LaidNext(p, HOME, text, k - 1);
    if text[k - 1] == NEW_LINE { assert LineOf(p, text, k - 1) == lines - 1; }
    forall i: nat | i < |text| && text[i] == NEW_LINE && LineOf(p, text, i) == lines - 1 ensures i == k - 1 {
      LaidNext(p, HOME, text, i);
      if i >= k { LineGrows(p, text, k, i); }
      if i + 1 < k { LineGrows(p, text, i + 1, k - 1); }
    }
  }

  /** A console one character wide and two lines high: of three letters, one to a line, only the first is
      one line too many, but the second one is dropped with it. */
  lemma ScrollDropsKeptLetter()
    ensures
      var p := Page(Font(seq(TABLE_ENTRIES, _ => CharacterData(0, 0, 0, 0, 0, 0, 9)), 18, [], Rgba8, 0), 9);
      var text := [65, 65, 65];
      Overflow(p, text, 2) == 1 && StopsAt(p, text, 1, 2) && LineOf(p, text, 1) == 1
  {
    var p := Page(Font(seq(TABLE_ENTRIES, _ => CharacterData(0, 0, 0, 0, 0, 0, 9)), 18, [], Rgba8, 0), 9);
    var text: seq<Glyphic> := [65, 65, 65];
    assert text[..0] == [] && text[..3] == text && Advance(p.font, 65) == 9;
    LaidNext(p, HOME, text, 0);
    LaidNext(p, HOME, text, 1);
    LaidNext(p, HOME, text, 2);
  }

  /** Scrolling empties the window if and only if it was empty, or there is a single line and the last
      character completes one. */
  lemma EmptiedIff(p: Page, text: seq<Glyphic>, numLines: nat, k: nat)
    requires numLines > 0 && StopsAt(p, text, Overflow(p, text, numLines), k)
    ensures text[k..] == [] <==>
              text == [] || (numLines == 1 && Laid(p, HOME, text[..|text| - 1]).line < Laid(p, HOME, text).line)
  {
    hide Placed;
    assert text[..|text|] == text && text[..0] == [];
    var lines, n := Overflow(p, text, numLines), Laid(p, HOME, text).line;
    if text != [] && lines > 0 {
      var last := |text| - 1;
      LineByOne(p, text, last);
      if k == |text| {
        if Laid(p, HOME, text[..last]).line >= lines { Reaches(p, text, lines, last); }
      } else {
        LineGrows(p, text, k, last);
      }
    }
  }

  lemma LineByOne(p: Page, text: seq<Glyphic>, i: nat)
    requires i < |text|
    ensures Laid(p, HOME, text[..i]).line <= Laid(p, HOME, text[..i + 1]).line <= Laid(p, HOME, text[..i]).line + 1
  {
    LaidNext(p, HOME, text, i);
  }

  /** A line that is passed has been completed. */
  lemma Reaches(p: Page, text: seq<Glyphic>, lines: nat, i: nat)
    requires 0 < lines && i <= |text| && Laid(p, HOME, text[..i]).line >= lines
    ensures exists j: nat :: j <= i && Laid(p, HOME, text[..j]).line == lines
  {
    if forall j: nat | j <= i :: Laid(p, HOME, text[..j]).line != lines { LinesBelow(p, text, lines, i); }
  }
}
