/** The pixels that a list of drawn glyphs gives a screen. */
module GlyphPainting {
  import opened Bytes
  import opened BuiltInBitmapFont
  import opened CpuGraphicsDriver
  import opened ScreenState

  /** The pixel that clearing leaves. */
  function Background(m: Mode, c: Colour): Pixel {
    Cleared(m.format, c, Pixel(0, 0, 0, 0))
  }

  /** A slot's pixel after the glyph is drawn; characters without an image draw nothing. */
  ghost function Drawn(m: Mode, blend: (Byte, Byte, Byte) -> Byte, f: Font, g: Glyph, slot: nat, before: Pixel): Pixel
    requires WellFormed(m) && ImageHoldsGlyphs(f)
  {
    if Printable(g.code) then GlyphFits(m, f, g); Blitted(m, blend, GlyphBlit(f, g), slot, before) else before
  }

  /** Pixel (u, v) of a glyph's image lands `u` pixels to the right of the cursor and the glyph's bearing, and `v`
      pixels below the top that stands `bitmapTop` above the baseline of the line. */
  lemma GlyphPixel(m: Mode, blend: (Byte, Byte, Byte) -> Byte, f: Font, g: Glyph, u: nat, v: nat, slot: nat, before: Pixel)
    requires WellFormed(m) && ImageHoldsGlyphs(f) && Printable(g.code)
    requires m.format != NoFramebufferFormat && f.format != NoImageFormat
    requires u < Entry(f, g.code).width && v < Entry(f, g.code).height
    requires Column(m, slot) == g.x + Entry(f, g.code).bitmapLeft + u < m.width
    requires Row(m, slot) == g.y + f.lineHeight - Entry(f, g.code).bitmapTop + v < m.height
    ensures GlyphByte(f, g.code, u, v) + PixelBytes(f.format) <= |f.image|
    ensures var at := GlyphByte(f, g.code, u, v);
            Drawn(m, blend, f, g, slot, before) == Overlaid(m.format, f.format, blend, f.image[at..at + PixelBytes(f.format)], before)
  {
    hide Overlaid, Column, Row;
    GlyphFits(m, f, g);
    assert SourceOffset(GlyphBlit(f, g), Column(m, slot), Row(m, slot)) == GlyphByte(f, g.code, u, v);
  }

  /** A slot's pixel after the glyphs are drawn one after the other. */
  ghost function Painted(m: Mode, blend: (Byte, Byte, Byte) -> Byte, f: Font, glyphs: seq<Glyph>, slot: nat, start: Pixel): Pixel
    requires WellFormed(m) && ImageHoldsGlyphs(f)
  {
    if glyphs == [] then start
    else Drawn(m, blend, f, glyphs[|glyphs| - 1], slot, Painted(m, blend, f, glyphs[..|glyphs| - 1], slot, start))
  }

  ghost predicate InSomeBox(m: Mode, f: Font, glyphs: seq<Glyph>, slot: nat)
    requires 0 < m.stride
  {
    exists k: nat :: k < |glyphs| && Covers(m, Box(f, glyphs[k]), slot)
  }

  /** Glyphs change nothing outside their boxes. */
  lemma {:induction false} OutsideBoxes(m: Mode, blend: (Byte, Byte, Byte) -> Byte, f: Font, glyphs: seq<Glyph>, slot: nat, start: Pixel)
    requires WellFormed(m) && ImageHoldsGlyphs(f) && !InSomeBox(m, f, glyphs, slot)
    ensures Painted(m, blend, f, glyphs, slot, start) == start
  {
    hide Covers, Overlaid, Box, ImageHoldsGlyphs;
    if glyphs != [] {
      var g := glyphs[|glyphs| - 1];
      OutsideBoxes(m, blend, f, glyphs[..|glyphs| - 1], slot, start);
      assert !Covers(m, Box(f, g), slot);
    }
  }

  lemma PaintedNext(m: Mode, blend: (Byte, Byte, Byte) -> Byte, f: Font, glyphs: seq<Glyph>, g: Glyph, slot: nat, start: Pixel)
    requires WellFormed(m) && ImageHoldsGlyphs(f)
    ensures Painted(m, blend, f, glyphs + [g], slot, start) == Drawn(m, blend, f, g, slot, Painted(m, blend, f, glyphs, slot, start))
  {
    assert (glyphs + [g])[..|glyphs|] == glyphs;
  }

  lemma ClearingIsBackground(m: Mode, c: Colour, p: Pixel)
    requires m.format != NoFramebufferFormat
    ensures Cleared(m.format, c, p) == Background(m, c)
  {
  }

  /** A single region is cleared exactly. */
  lemma OneRegion(m: Mode, r: Rect, slot: nat)
    requires 0 < m.stride
    ensures ClearedByOne(m, [r], 1, slot) <==> Covers(m, r, slot)
  {
    assert FirstSized([r], 0) == r;
  }

  lemma InSomeBoxSplit(m: Mode, f: Font, g: Glyph, rest: seq<Glyph>, slot: nat)
    requires 0 < m.stride
    ensures InSomeBox(m, f, [g] + rest, slot) ==> Covers(m, Box(f, g), slot) || InSomeBox(m, f, rest, slot)
  {
    hide Covers, Box;
    if k: nat :| k < |[g] + rest| && Covers(m, Box(f, ([g] + rest)[k]), slot) {
      if k > 0 { assert ([g] + rest)[k] == rest[k - 1]; }
    }
  }

  /** Every visible pixel of the back buffer is what drawing the glyphs on a cleared screen gives. */
  ghost predicate Shows(m: Mode, blend: (Byte, Byte, Byte) -> Byte, f: Font, glyphs: seq<Glyph>, c: Colour, back: seq<Pixel>)
    requires WellFormed(m) && ImageHoldsGlyphs(f)
  {
    |back| == m.size &&
    forall slot: nat | slot < m.size && Covers(m, WholeScreen(m), slot) ::
      back[slot] == Painted(m, blend, f, glyphs, slot, Background(m, c))
  }

  /** Every visible pixel outside the boxes of the glyphs is cleared. */
  ghost predicate ClearedExcept(m: Mode, f: Font, glyphs: seq<Glyph>, c: Colour, back: seq<Pixel>)
    requires WellFormed(m)
  {
    |back| == m.size &&
    forall slot: nat | slot < m.size && Covers(m, WholeScreen(m), slot) && !InSomeBox(m, f, glyphs, slot) ::
      back[slot] == Background(m, c)
  }

  lemma ShownIsInBoxes(m: Mode, blend: (Byte, Byte, Byte) -> Byte, f: Font, glyphs: seq<Glyph>, c: Colour, back: seq<Pixel>)
    requires WellFormed(m) && ImageHoldsGlyphs(f) && Shows(m, blend, f, glyphs, c, back)
    ensures ClearedExcept(m, f, glyphs, c, back)
  {
    hide Covers, Background, Painted, InSomeBox, ImageHoldsGlyphs;
    forall slot: nat | slot < m.size && Covers(m, WholeScreen(m), slot) && !InSomeBox(m, f, glyphs, slot)
      ensures back[slot] == Background(m, c)
    {
      OutsideBoxes(m, blend, f, glyphs, slot, Background(m, c));
    }
  }

  lemma ClearedShowsNothing(m: Mode, blend: (Byte, Byte, Byte) -> Byte, f: Font, c: Colour, back: seq<Pixel>)
    requires WellFormed(m) && ImageHoldsGlyphs(f) && ClearedExcept(m, f, [], c, back)
    ensures Shows(m, blend, f, [], c, back)
  {
    hide Covers, Background, ImageHoldsGlyphs;
  }

  /** Clearing the whole screen. */
  lemma ClearShowsNothing(m: Mode, blend: (Byte, Byte, Byte) -> Byte, f: Font, c: Colour, s: Screen, t: Screen)
    requires WellFormed(m) && ImageHoldsGlyphs(f) && m.format != NoFramebufferFormat && Step(m, blend, ClearAll(c), s, t)
    ensures Shows(m, blend, f, [], c, t.back)
  {
    hide Covers, ImageHoldsGlyphs;
  }

  /** Drawing one more glyph. */
  lemma DrawingShows(m: Mode, blend: (Byte, Byte, Byte) -> Byte, f: Font, glyphs: seq<Glyph>, g: Glyph, c: Colour, s: Screen, t: Screen)
    requires WellFormed(m) && ImageHoldsGlyphs(f) && Shows(m, blend, f, glyphs, c, s.back)
    requires if Printable(g.code) then Step(m, blend, BlitImage(GlyphBlit(f, g)), s, t) else t.back == s.back
    ensures Shows(m, blend, f, glyphs + [g], c, t.back)
  {
    hide Covers, Background, Blitted, ImageHoldsGlyphs, ImageFits, GlyphBlit, Painted;
    forall slot: nat | slot < m.size && Covers(m, WholeScreen(m), slot)
      ensures t.back[slot] == Painted(m, blend, f, glyphs + [g], slot, Background(m, c))
    {
      PaintedNext(m, blend, f, glyphs, g, slot, Background(m, c));
    }
  }

  /** Clearing the box of one glyph. */
  lemma ErasingClears(m: Mode, blend: (Byte, Byte, Byte) -> Byte, f: Font, g: Glyph, rest: seq<Glyph>, c: Colour, s: Screen, t: Screen)
    requires WellFormed(m) && m.format != NoFramebufferFormat && ClearedExcept(m, f, [g] + rest, c, s.back)
    requires Step(m, blend, ClearRegions([Box(f, g)], c), s, t)
    ensures ClearedExcept(m, f, rest, c, t.back)
  {
    hide Covers, Background, Box, InSomeBox, ClearedByOne, Cleared;
    forall slot: nat | slot < m.size && Covers(m, WholeScreen(m), slot) && !InSomeBox(m, f, rest, slot)
      ensures t.back[slot] == Background(m, c)
    {
      OneRegion(m, Box(f, g), slot);
      InSomeBoxSplit(m, f, g, rest, slot);
      ClearingIsBackground(m, c, s.back[slot]);
    }
  }

  /** Draws a character that has an image at a cursor position. */
  method DrawGlyph(driver: Driver, f: Font, g: Glyph)
    requires driver.Valid() && ImageHoldsGlyphs(f)
    modifies driver, driver.renderFramebuffer
    ensures driver.Valid()
    ensures if Printable(g.code) then Step(driver.mode, driver.blend, BlitImage(GlyphBlit(f, g)), old(driver.View()), driver.View())
            else driver.View() == old(driver.View())
  {
    if !Printable(g.code) { return; }
    GlyphFits(driver.mode, f, g);
    hide ImageFits, GlyphBlit;
    driver.BlitImageToFramebuffer(GlyphBlit(f, g));
  }
}
