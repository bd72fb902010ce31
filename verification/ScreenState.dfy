/** What the two framebuffers hold and what one driver call may do to them, pixel by pixel. */
module ScreenState {
  import opened Bytes
  import opened Division
  import opened Wrappers

  datatype Pixel = Pixel(b0: Byte, b1: Byte, b2: Byte, b3: Byte)

  datatype FramebufferFormat = Rgb8Reserved8 | Bgr8Reserved8 | NoFramebufferFormat

  datatype ImageFormat = Rgb8 | Rgba8 | NoImageFormat

  datatype Colour = Colour(r: Byte, g: Byte, b: Byte)

  datatype Rect = Rect(x: int, y: int, width: int, height: int)

  /** `size` counts the pixel slots of one framebuffer; slots past the visible width of a row, or
      past the last row, are padding. */
  datatype Mode = Mode(width: nat, height: nat, stride: nat, size: nat, format: FramebufferFormat)

  ghost predicate WellFormed(m: Mode) {
    0 < m.stride && m.width <= m.stride && m.stride * m.height <= m.size
  }

  /** The part of the back buffer that the next swap has to copy. */
  datatype Pending = Nothing | Everything | Region(rect: Rect)

  datatype Screen = Screen(visible: seq<Pixel>, back: seq<Pixel>, pending: Pending)

  /** An image with its rectangle's corner, and the rectangle of the framebuffer it goes to. */
  datatype Blit = Blit(image: seq<Byte>, format: ImageFormat, imageX: int, imageY: int, rowStride: nat, target: Rect)

  datatype Op = Swap | ClearAll(colour: Colour) | ClearRegions(regions: seq<Rect>, clearColour: Colour) | BlitImage(blit: Blit)

  // ---- Rectangles and slots ----

  predicate Contains(r: Rect, x: int, y: int) {
    r.x <= x < r.x + r.width && r.y <= y < r.y + r.height
  }

  predicate OnScreen(m: Mode, r: Rect) {
    0 <= r.x && 0 <= r.width && r.x + r.width <= m.width && 0 <= r.y && 0 <= r.height && r.y + r.height <= m.height
  }

  function WholeScreen(m: Mode): Rect {
    Rect(0, 0, m.width, m.height)
  }

  function Column(m: Mode, slot: nat): nat
    requires 0 < m.stride
  {
    slot % m.stride
  }

  function Row(m: Mode, slot: nat): nat
    requires 0 < m.stride
  {
    slot / m.stride
  }

  /** The slot shows a pixel of the rectangle, and that pixel is visible. */
  predicate Covers(m: Mode, r: Rect, slot: nat)
    requires 0 < m.stride
  {
    Contains(r, Column(m, slot), Row(m, slot)) && Contains(WholeScreen(m), Column(m, slot), Row(m, slot))
  }

  lemma RowsFit(stride: nat, x: nat, y: nat, height: nat)
    requires x < stride && y < height
    ensures y * stride + x < stride * height
  {
    ScaleMonotone(y + 1, height, stride);
    ScaleDifference(y, y + 1, stride);
  }

  /** A visible pixel's slot exists, and it is that pixel's only slot. */
  lemma SlotOf(m: Mode, x: nat, y: nat)
    requires WellFormed(m) && x < m.width && y < m.height
    ensures y * m.stride + x < m.size
    ensures Column(m, y * m.stride + x) == x && Row(m, y * m.stride + x) == y
  {
    QuotientUnique(y * m.stride + x, m.stride, y, x);
    RowsFit(m.stride, x, y, m.height);
  }

  lemma SlotIsOnly(m: Mode, slot: nat)
    requires 0 < m.stride
    ensures slot == Row(m, slot) * m.stride + Column(m, slot)
  {
  }

  // ---- Clipping, as the driver computes it ----

  /** The rectangle that clearing `r` touches, if any
      (src/Drivers/Graphics/CpuGraphicsDriver.c:294-319). */
  function ClipRegion(m: Mode, r: Rect): Option<Rect> {
    var startX := if r.x >= 0 then r.x else 0;
    var startY := if r.y >= 0 then r.y else 0;
    if startX >= m.width || startY >= m.height || (r.x < 0 && -r.x >= r.width) || (r.y < 0 && -r.y >= r.height) then
      None
    else
      var width := if r.x < 0 then r.width + r.x else r.width;
      var height := if r.y < 0 then r.height + r.y else r.height;
      Some(Rect(startX, startY, if startX + width > m.width then m.width - startX else width,
                if startY + height > m.height then m.height - startY else height))
  }

  /** The rectangle that a blit to `r` touches, before the image's corner is looked at
      (src/Drivers/Graphics/CpuGraphicsDriver.c:498-530). */
  function ClipTarget(m: Mode, r: Rect): Option<Rect> {
    var x := if r.x < 0 then 0 else r.x;
    var y := if r.y < 0 then 0 else r.y;
    var width := if r.x < 0 then r.width + r.x else r.width;
    var height := if r.y < 0 then r.height + r.y else r.height;
    var blitWidth := if x + width > m.width then m.width - x else width;
    var blitHeight := if y + height > m.height then m.height - y else height;
    if blitWidth < 0 || blitHeight < 0 || x >= m.width || y >= m.height then
      None
    else
      Some(Rect(x, y, blitWidth, blitHeight))
  }

  ghost predicate IsClip(m: Mode, r: Rect, clip: Option<Rect>) {
    match clip
    case None => forall x: nat, y: nat {:trigger Contains(r, x, y)} | x < m.width && y < m.height :: !Contains(r, x, y)
    case Some(c) =>
      OnScreen(m, c) &&
      forall x: nat, y: nat {:trigger Contains(r, x, y)} {:trigger Contains(c, x, y)} ::
        Contains(c, x, y) <==> Contains(r, x, y) && x < m.width && y < m.height
  }

  lemma ClipRegionExact(m: Mode, r: Rect)
    requires 0 <= r.width && 0 <= r.height
    ensures IsClip(m, r, ClipRegion(m, r))
  {
  }

  lemma ClipTargetExact(m: Mode, r: Rect)
    ensures IsClip(m, r, ClipTarget(m, r))
  {
  }

  // ---- The pending rectangle ----

  function Low(a: int, b: int): int {
    if a < b then a else b
  }

  function High(a: int, b: int): int {
    if a > b then a else b
  }

  function Around(a: Rect, b: Rect): Rect {
    var x := Low(a.x, b.x);
    var y := Low(a.y, b.y);
    Rect(x, y, High(a.x + a.width, b.x + b.width) - x, High(a.y + a.height, b.y + b.height) - y)
  }

  function Mark(p: Pending, r: Rect): Pending {
    match p
    case Everything => Everything
    case Nothing => Region(r)
    case Region(dirty) => Region(Around(dirty, r))
  }

  function MarkClip(p: Pending, clip: Option<Rect>): Pending {
    if clip.Some? then Mark(p, clip.value) else p
  }

  predicate PendingOnScreen(m: Mode, p: Pending) {
    p.Region? ==> OnScreen(m, p.rect)
  }

  /** The next swap will refresh the slot. */
  predicate Refreshes(m: Mode, p: Pending, slot: nat)
    requires 0 < m.stride
  {
    p.Everything? || (p.Region? && Covers(m, p.rect, slot))
  }

  lemma MarkRefreshes(m: Mode, p: Pending, r: Rect, slot: nat)
    requires 0 < m.stride && OnScreen(m, r) && PendingOnScreen(m, p)
    ensures PendingOnScreen(m, Mark(p, r))
    ensures Refreshes(m, p, slot) || Covers(m, r, slot) ==> Refreshes(m, Mark(p, r), slot)
  {
    hide Column, Row;
  }

  predicate Within(a: Rect, b: Rect) {
    b.x <= a.x && b.y <= a.y && a.x + a.width <= b.x + b.width && a.y + a.height <= b.y + b.height
  }

  /** The merged rectangle is the smallest one around both. */
  lemma AroundIsLeast(a: Rect, b: Rect, bound: Rect)
    ensures Within(a, Around(a, b)) && Within(b, Around(a, b))
    ensures Within(a, bound) && Within(b, bound) <==> Within(Around(a, b), bound)
  {
  }

  /** Marking makes pending the smallest rectangle around what was pending and the new rectangle, unless
      everything is pending already. */
  lemma MarkIsLeast(p: Pending, r: Rect, bound: Rect)
    ensures p.Everything? <==> Mark(p, r).Everything?
    ensures !p.Everything? ==>
              Mark(p, r).Region? &&
              (Within(Mark(p, r).rect, bound) <==> Within(r, bound) && (p.Region? ==> Within(p.rect, bound)))
  {
    if p.Region? { AroundIsLeast(p.rect, r, bound); }
  }

  // ---- What each call writes ----

  /** A cleared pixel; the reserved byte becomes zero. */
  function Cleared(f: FramebufferFormat, c: Colour, before: Pixel): Pixel {
    match f
    case Rgb8Reserved8 => Pixel(c.r, c.g, c.b, 0)
    case Bgr8Reserved8 => Pixel(c.b, c.g, c.r, 0)
    case NoFramebufferFormat => before
  }

  function PixelBytes(f: ImageFormat): nat {
    if f == Rgb8 then 3 else 4
  }

  /** Where the pixel at (x, y) of the image starts. */
  function ImageOffset(q: Blit, x: int, y: int): int {
    y * q.rowStride + x * PixelBytes(q.format)
  }

  /** The offset of the image pixel that belongs at (x, y) of the framebuffer. */
  function SourceOffset(q: Blit, x: int, y: int): int {
    ImageOffset(q, q.imageX + (x - q.target.x), q.imageY + (y - q.target.y))
  }

  /** The first image pixel that the clipped blit would read exists; the driver refuses otherwise. */
  predicate CornerInImage(q: Blit) {
    q.imageX + (if q.target.x < 0 then -q.target.x else 0) >= 0 &&
    q.imageY + (if q.target.y < 0 then -q.target.y else 0) >= 0
  }

  /** The blit gets as far as drawing. */
  predicate Draws(m: Mode, q: Blit) {
    m.format != NoFramebufferFormat && q.format != NoImageFormat && CornerInImage(q)
  }

  /** The caller's image holds every pixel that lands on the screen. */
  ghost predicate ImageFits(m: Mode, q: Blit) {
    Draws(m, q) ==> forall x: nat, y: nat {:trigger SourceOffset(q, x, y)} | x < m.width && y < m.height && Contains(q.target, x, y) ::
      0 <= SourceOffset(q, x, y) && SourceOffset(q, x, y) + PixelBytes(q.format) <= |q.image|
  }

  function ClipBlit(m: Mode, q: Blit): Option<Rect> {
    if CornerInImage(q) then ClipTarget(m, q.target) else None
  }

  /** The framebuffer pixel after the image bytes `s` are laid over it. */
  function Overlaid(f: FramebufferFormat, i: ImageFormat, blend: (Byte, Byte, Byte) -> Byte, s: seq<Byte>, d: Pixel): Pixel
    requires |s| == PixelBytes(i)
  {
    match (f, i)
    case (Rgb8Reserved8, Rgb8) => Pixel(s[0], s[1], s[2], d.b3)
    case (Rgb8Reserved8, Rgba8) => Pixel(blend(s[0], s[3], d.b0), blend(s[1], s[3], d.b1), blend(s[2], s[3], d.b2), d.b3)
    case (Bgr8Reserved8, Rgb8) => Pixel(s[2], s[1], s[0], d.b3)
    case (Bgr8Reserved8, Rgba8) => Pixel(blend(s[2], s[3], d.b0), blend(s[1], s[3], d.b1), blend(s[0], s[3], d.b2), d.b3)
    case _ => d
  }

  /** The colour that a pixel shows in a framebuffer of the given format. */
  function Seen(f: FramebufferFormat, p: Pixel): Colour {
    if f == Bgr8Reserved8 then Colour(p.b2, p.b1, p.b0) else Colour(p.b0, p.b1, p.b2)
  }

  /** Clearing shows the colour asked for in either format, and clears the reserved byte. */
  lemma ClearedIsSeen(f: FramebufferFormat, c: Colour, before: Pixel)
    requires f != NoFramebufferFormat
    ensures Seen(f, Cleared(f, c, before)) == c && Cleared(f, c, before).b3 == 0
  {
  }

  /** What a blit shows does not depend on the format: red goes to red, green to green, blue to blue; the
      reserved byte stays as it is. */
  lemma OverlaidIsSeen(f: FramebufferFormat, i: ImageFormat, blend: (Byte, Byte, Byte) -> Byte, s: seq<Byte>, d: Pixel)
    requires f != NoFramebufferFormat && i != NoImageFormat && |s| == PixelBytes(i)
    ensures
      var before, after := Seen(f, d), Seen(f, Overlaid(f, i, blend, s, d));
      after == (if i == Rgb8 then Colour(s[0], s[1], s[2])
                else Colour(blend(s[0], s[3], before.r), blend(s[1], s[3], before.g), blend(s[2], s[3], before.b))) &&
      Overlaid(f, i, blend, s, d).b3 == d.b3
  {
  }

  /** The slot's pixel after an unclipped blit: only the target rectangle changes, and every pixel
      of it that is visible gets the image pixel at the same offset. */
  function Blitted(m: Mode, blend: (Byte, Byte, Byte) -> Byte, q: Blit, slot: nat, before: Pixel): Pixel
    requires WellFormed(m) && ImageFits(m, q)
  {
    var x, y := Column(m, slot), Row(m, slot);
    if Draws(m, q) && Covers(m, q.target, slot) then
      var at := SourceOffset(q, x, y);
      Overlaid(m.format, q.format, blend, q.image[at..at + PixelBytes(q.format)], before)
    else
      before
  }

  /** The k-th region to clear; every region takes the first one's size
      (src/Drivers/Graphics/CpuGraphicsDriver.c:296-297). */
  function FirstSized(regions: seq<Rect>, k: nat): Rect
    requires k < |regions|
  {
    Rect(regions[k].x, regions[k].y, regions[0].width, regions[0].height)
  }

  ghost predicate ClearedByOne(m: Mode, regions: seq<Rect>, n: nat, slot: nat)
    requires 0 < m.stride && n <= |regions|
  {
    exists k: nat :: k < n && Covers(m, FirstSized(regions, k), slot)
  }

  predicate Empty(clip: Option<Rect>) {
    clip.None? || clip.value.width == 0 || clip.value.height == 0
  }

  /** The k-th pass clears exactly the k-th region (what is visible of it) if and only if the first
      region's size clips to the same rectangle there. */
  lemma RegionClearedExactlyIff(m: Mode, regions: seq<Rect>, k: nat)
    requires WellFormed(m) && k < |regions| && Callable(m, ClearRegions(regions, Colour(0, 0, 0)))
    ensures
      var used, wanted := ClipRegion(m, FirstSized(regions, k)), ClipRegion(m, regions[k]);
      (forall slot: nat | slot < m.size :: Covers(m, FirstSized(regions, k), slot) <==> Covers(m, regions[k], slot)) <==>
      used == wanted || (Empty(used) && Empty(wanted))
  {
    hide Row, Column, ClipRegion;
    var a, b := FirstSized(regions, k), regions[k];
    ClipRegionExact(m, a);
    ClipRegionExact(m, b);
    var used, wanted := ClipRegion(m, a), ClipRegion(m, b);
    if forall slot: nat | slot < m.size :: Covers(m, a, slot) <==> Covers(m, b, slot) {
      if !Empty(used) { CornersInside(m, a, b, used.value, wanted); }
      if !Empty(wanted) { CornersInside(m, b, a, wanted.value, used); }
    }
  }

  /** Two opposite corners of a clipped rectangle lie in any rectangle that covers the same slots. */
  lemma CornersInside(m: Mode, a: Rect, b: Rect, clip: Rect, other: Option<Rect>)
    requires WellFormed(m) && IsClip(m, a, Some(clip)) && IsClip(m, b, other) && clip.width > 0 && clip.height > 0
    requires forall slot: nat | slot < m.size && Covers(m, a, slot) :: Covers(m, b, slot)
    ensures other.Some? && Within(clip, other.value)
  {
    hide Row, Column;
    var x, y := clip.x + clip.width - 1, clip.y + clip.height - 1;
    SlotOf(m, clip.x, clip.y);
    SlotOf(m, x, y);
    assert Contains(clip, clip.x, clip.y) && Contains(clip, x, y);
    assert Covers(m, a, clip.y * m.stride + clip.x) && Covers(m, a, y * m.stride + x);
    assert Contains(b, clip.x, clip.y) && Contains(b, x, y);
  }

  /** Two regions of different sizes: the second one's last column is left uncleared. */
  lemma SecondRegionPartlyCleared()
    ensures
      var m := Mode(8, 1, 8, 8, Rgb8Reserved8);
      var regions := [Rect(0, 0, 1, 1), Rect(4, 0, 2, 1)];
      WellFormed(m) && Covers(m, regions[1], 5) && !ClearedByOne(m, regions, 2, 5)
  {
    var m := Mode(8, 1, 8, 8, Rgb8Reserved8);
    assert Column(m, 5) == 5 && Row(m, 5) == 0;
  }

  function MarkRegions(m: Mode, p: Pending, regions: seq<Rect>, n: nat): Pending
    requires n <= |regions|
  {
    if n == 0 then p
    else MarkClip(MarkRegions(m, p, regions, n - 1), ClipRegion(m, FirstSized(regions, n - 1)))
  }

  predicate Callable(m: Mode, op: Op) {
    op.ClearRegions? ==> forall k :: 0 <= k < |op.regions| ==> 0 <= op.regions[k].width && 0 <= op.regions[k].height
  }

  ghost predicate Allowed(m: Mode, op: Op) {
    Callable(m, op) && (op.BlitImage? ==> ImageFits(m, op.blit))
  }

  ghost predicate Sized(m: Mode, s: Screen) {
    |s.visible| == m.size && |s.back| == m.size
  }

  /** One driver call takes `s` to `t`. */
  ghost predicate Step(m: Mode, blend: (Byte, Byte, Byte) -> Byte, op: Op, s: Screen, t: Screen)
    requires WellFormed(m)
  {
    Sized(m, s) && Sized(m, t) && Allowed(m, op) &&
    match op
    case Swap =>
      t.pending == Nothing && t.back == s.back &&
      forall i: nat | i < m.size :: t.visible[i] == if Refreshes(m, s.pending, i) then s.back[i] else s.visible[i]
    case ClearAll(c) =>
      t.pending == Everything && t.visible == s.visible &&
      forall i: nat | i < m.size ::
        t.back[i] == if Covers(m, WholeScreen(m), i) then Cleared(m.format, c, s.back[i]) else s.back[i]
    case ClearRegions(regions, c) =>
      t.pending == MarkRegions(m, s.pending, regions, |regions|) && t.visible == s.visible &&
      forall i: nat | i < m.size ::
        t.back[i] == if ClearedByOne(m, regions, |regions|, i) then Cleared(m.format, c, s.back[i]) else s.back[i]
    case BlitImage(q) =>
      t.pending == MarkClip(s.pending, ClipBlit(m, q)) && t.visible == s.visible &&
      forall i: nat | i < m.size :: t.back[i] == Blitted(m, blend, q, i, s.back[i])
  }

  // ---- Coherence ----

  /** The buffers agree wherever the next swap will not copy. */
  ghost predicate Coherent(m: Mode, s: Screen)
    requires 0 < m.stride
  {
    Sized(m, s) && PendingOnScreen(m, s.pending) &&
    forall i: nat | i < m.size && s.visible[i] != s.back[i] :: Refreshes(m, s.pending, i)
  }

  lemma {:induction false} MarkRegionsRefreshes(m: Mode, p: Pending, regions: seq<Rect>, n: nat, slot: nat)
    requires 0 < m.stride && PendingOnScreen(m, p) && n <= |regions| && Callable(m, ClearRegions(regions, Colour(0, 0, 0)))
    ensures PendingOnScreen(m, MarkRegions(m, p, regions, n))
    ensures Refreshes(m, p, slot) || ClearedByOne(m, regions, n, slot) ==> Refreshes(m, MarkRegions(m, p, regions, n), slot)
  {
    hide Column, Row, ClipRegion, Refreshes, Mark;
    if n > 0 {
      MarkRegionsRefreshes(m, p, regions, n - 1, slot);
      var r := FirstSized(regions, n - 1);
      var clip := ClipRegion(m, r);
      ClipRegionExact(m, r);
      if clip.Some? { MarkRefreshes(m, MarkRegions(m, p, regions, n - 1), clip.value, slot); }
    }
  }

  lemma BlitRefreshes(m: Mode, p: Pending, q: Blit, slot: nat)
    requires 0 < m.stride && PendingOnScreen(m, p)
    ensures PendingOnScreen(m, MarkClip(p, ClipBlit(m, q)))
    ensures Refreshes(m, p, slot) || (Draws(m, q) && Covers(m, q.target, slot)) ==>
              Refreshes(m, MarkClip(p, ClipBlit(m, q)), slot)
  {
    hide Column, Row, ClipTarget, Refreshes, Mark;
    var clip := ClipBlit(m, q);
    ClipTargetExact(m, q.target);
    if clip.Some? { MarkRefreshes(m, p, clip.value, slot); }
  }

  /** Every call keeps the buffers coherent, and a swap makes them equal. */
  lemma StepKeepsCoherence(m: Mode, blend: (Byte, Byte, Byte) -> Byte, op: Op, s: Screen, t: Screen)
    requires WellFormed(m) && Step(m, blend, op, s, t)
    requires Coherent(m, s) || op.ClearAll?
    ensures Coherent(m, t)
    ensures op.Swap? ==> t.visible == t.back
  {
    hide Column, Row, Refreshes, Mark, MarkClip, ClipBlit, ClearedByOne, Covers, Cleared, Overlaid, CornerInImage, MarkRegions,
         ImageFits, Contains;
    if op.ClearAll? {
      forall i: nat | i < m.size ensures Refreshes(m, t.pending, i) { EverythingRefreshes(m, i); }
    } else if op.ClearRegions? {
      MarkRegionsRefreshes(m, s.pending, op.regions, |op.regions|, 0);
      forall i: nat | i < m.size && t.visible[i] != t.back[i] ensures Refreshes(m, t.pending, i) {
        MarkRegionsRefreshes(m, s.pending, op.regions, |op.regions|, i);
      }
    } else if op.BlitImage? {
      BlitRefreshes(m, s.pending, op.blit, 0);
      forall i: nat | i < m.size && t.visible[i] != t.back[i] ensures Refreshes(m, t.pending, i) {
        BlitRefreshes(m, s.pending, op.blit, i);
      }
    }
  }

  lemma EverythingRefreshes(m: Mode, i: nat)
    requires 0 < m.stride
    ensures Refreshes(m, Everything, i)
  {
  }

  /** A run of the driver: the screens before and after each call. */
  ghost predicate IsRun(m: Mode, blend: (Byte, Byte, Byte) -> Byte, ops: seq<Op>, run: seq<Screen>)
    requires WellFormed(m)
  {
    |run| == |ops| + 1 && forall k | 0 <= k < |ops| :: Step(m, blend, ops[k], run[k], run[k + 1])
  }

  /** Whatever the buffers held at first: from the first full clear on, the buffers differ only in the
      pending part, which lies on the screen, and every swap shows exactly the back buffer. */
  lemma {:induction false} RunIsCoherent(m: Mode, blend: (Byte, Byte, Byte) -> Byte, ops: seq<Op>, run: seq<Screen>,
                                         clear: nat, k: nat)
    requires WellFormed(m) && IsRun(m, blend, ops, run)
    requires clear < k <= |ops| && ops[clear].ClearAll?
    ensures Coherent(m, run[k])
    ensures ops[k - 1].Swap? ==> run[k].visible == run[k].back
  {
    hide Step, Coherent;
    if clear < k - 1 { RunIsCoherent(m, blend, ops, run, clear, k - 1); }
    assert Step(m, blend, ops[k - 1], run[k - 1], run[k - 1 + 1]);
    StepKeepsCoherence(m, blend, ops[k - 1], run[k - 1], run[k]);
  }
}
