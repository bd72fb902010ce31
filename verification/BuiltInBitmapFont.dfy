/** The bitmap font: where a glyph lands when its character is put at a cursor position, and the
    image rectangle it is copied from. */
module BuiltInBitmapFont {
  import opened Bytes
  import opened ScreenState

  type Char = nat

  const NEW_LINE: Char := 10

  datatype CharacterData = CharacterData(imageOffsetX: nat, imageOffsetY: nat, width: nat, height: nat,
                                         bitmapLeft: int, bitmapTop: int, advanceX: nat)

  const TABLE_ENTRIES: nat := 95

  /** The table has an entry for each of the characters 32 to 126. */
  type CharacterTable = t: seq<CharacterData> | |t| == TABLE_ENTRIES
    witness seq(TABLE_ENTRIES, _ => CharacterData(0, 0, 0, 0, 0, 0, 0))

  datatype Font = Font(characters: CharacterTable, lineHeight: nat, image: seq<Byte>, format: ImageFormat, rowStride: nat)

  // ---- Looking a character up ----

  /** The characters that the code looks up: all but the control characters and those above 127. */
  predicate LookedUp(c: Char) {
    32 <= c <= 127
  }

  function TableIndex(c: Char): nat
    requires LookedUp(c)
  {
    c - 32
  }

  /** The entries follow one another like the characters, from the space on. */
  lemma EntriesInOrder(c: Char, d: Char)
    requires LookedUp(c) && LookedUp(d)
    ensures TableIndex(c) - TableIndex(d) == c - d && TableIndex(32) == 0
  {
  }

  /** Looking the character up, if the code does so at all, stays in the table. */
  predicate StaysInTable(c: Char) {
    LookedUp(c) ==> TableIndex(c) < TABLE_ENTRIES
  }

  /** Character 127 passes the check before the lookup, but its entry would be the one after the last. */
  lemma LookupFailsAt127()
    ensures LookedUp(127) && TableIndex(127) == TABLE_ENTRIES && !StaysInTable(127)
  {
  }

  /** Every lookup for the characters of a text stays in the table if and only if 127 is not among them. */
  lemma LookupsStayInTableIff(text: seq<Char>)
    ensures (forall c | c in text :: StaysInTable(c)) <==> 127 !in text
  {
    LookupFailsAt127();
  }

  /** The characters whose metrics the font can be asked for. */
  type Glyphic = c: Char | c != 127

  /** A character at a cursor position. */
  datatype Glyph = Glyph(code: Glyphic, x: int, y: int)

  predicate Printable(c: Glyphic) {
    LookedUp(c)
  }

  function Entry(f: Font, c: Glyphic): CharacterData
    requires Printable(c)
  {
    f.characters[TableIndex(c)]
  }

  function Advance(f: Font, c: Glyphic): nat {
    if Printable(c) then Entry(f, c).advanceX else 0
  }

  /** The rectangle of the screen that the glyph is drawn in, and that is cleared to erase it. */
  function Box(f: Font, g: Glyph): Rect {
    if Printable(g.code) then
      var d := Entry(f, g.code);
      Rect(g.x + d.bitmapLeft, g.y - d.bitmapTop + f.lineHeight, d.width, d.height)
    else
      Rect(g.x, g.y, 0, 0)
  }

  function GlyphBlit(f: Font, g: Glyph): Blit
    requires Printable(g.code)
  {
    var d := Entry(f, g.code);
    Blit(f.image, f.format, d.imageOffsetX, d.imageOffsetY, f.rowStride, Box(f, g))
  }

  /** Every printable character's rectangle lies in the font's image. */
  ghost predicate ImageHoldsGlyphs(f: Font) {
    forall c: Glyphic, u: nat, v: nat {:trigger GlyphByte(f, c, u, v)} |
      Printable(c) && u < Entry(f, c).width && v < Entry(f, c).height ::
      GlyphByte(f, c, u, v) + PixelBytes(f.format) <= |f.image|
  }

  /** Where the pixel (u, v) of a character's rectangle starts in the image. */
  function GlyphByte(f: Font, c: Glyphic, u: nat, v: nat): nat
    requires Printable(c)
  {
    (Entry(f, c).imageOffsetY + v) * f.rowStride + (Entry(f, c).imageOffsetX + u) * PixelBytes(f.format)
  }

  /** So the driver never reads past the image, wherever the glyph is put. */
  lemma GlyphFits(m: Mode, f: Font, g: Glyph)
    requires ImageHoldsGlyphs(f) && Printable(g.code)
    ensures ImageFits(m, GlyphBlit(f, g)) && CornerInImage(GlyphBlit(f, g))
  {
    var q := GlyphBlit(f, g);
    forall x: nat, y: nat | x < m.width && y < m.height && Contains(q.target, x, y)
      ensures 0 <= SourceOffset(q, x, y) && SourceOffset(q, x, y) + PixelBytes(q.format) <= |q.image|
    {
      assert SourceOffset(q, x, y) == GlyphByte(f, g.code, x - q.target.x, y - q.target.y);
    }
  }
}
