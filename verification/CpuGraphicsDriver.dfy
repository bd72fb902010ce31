/** The driver's calls on the two framebuffers. Each one is proved to be a step of `ScreenState`. */
module CpuGraphicsDriver {
  import opened Bytes
  import opened Division
  import opened ScreenState
  import opened Wrappers

  // ---- The order in which the drawing loops reach the slots of a rectangle ----

  /** The loops over a rectangle have reached the slot before column `w` of row `h`. */
  predicate Reached(m: Mode, r: Rect, h: int, w: int, slot: nat)
    requires 0 < m.stride
  {
    Covers(m, r, slot) && (Row(m, slot) < r.y + h || (Row(m, slot) == r.y + h && Column(m, slot) < r.x + w))
  }

  /** Where the loops are at column `w` of row `h`. */
  lemma RowSlot(m: Mode, r: Rect, h: nat, w: nat)
    requires WellFormed(m) && OnScreen(m, r) && h < r.height && w < r.width
    ensures r.y * m.stride + r.x + h * m.stride + w == (r.y + h) * m.stride + (r.x + w)
    ensures (r.y + h) * m.stride + (r.x + w) < m.size
  {
    SlotOf(m, r.x + w, r.y + h);
    ScaleDifference(r.y, r.y + h, m.stride);
  }

  /** One more pixel is one more slot. */
  lemma ReachedNext(m: Mode, r: Rect, h: nat, w: nat, slot: nat)
    requires WellFormed(m) && OnScreen(m, r) && h < r.height && w < r.width
    ensures Reached(m, r, h, w + 1, slot) <==> Reached(m, r, h, w, slot) || slot == r.y * m.stride + r.x + h * m.stride + w
    ensures slot == r.y * m.stride + r.x + h * m.stride + w ==> !Reached(m, r, h, w, slot)
  {
    SlotOf(m, r.x + w, r.y + h);
    SlotIsOnly(m, slot);
    RowSlot(m, r, h, w);
    hide Row, Column;
  }

  lemma ReachedRow(m: Mode, r: Rect, h: nat, slot: nat)
    requires 0 < m.stride && h < r.height
    ensures Reached(m, r, h, r.width, slot) == Reached(m, r, h + 1, 0, slot)
  {
    hide Row, Column;
  }

  lemma ReachedEnds(m: Mode, r: Rect, slot: nat)
    requires 0 < m.stride
    ensures !Reached(m, r, 0, 0, slot)
    ensures Reached(m, r, r.height, 0, slot) == Covers(m, r, slot)
  {
    hide Row, Column;
  }

  /** A row of the rectangle is a run of slots. */
  lemma ReachedRun(m: Mode, r: Rect, h: nat, w: nat, slot: nat)
    requires WellFormed(m) && OnScreen(m, r) && h < r.height && w <= r.width
    ensures Reached(m, r, h, w, slot) <==>
              Reached(m, r, h, 0, slot) || r.y * m.stride + r.x + h * m.stride <= slot < r.y * m.stride + r.x + h * m.stride + w
  {
    hide Reached;
    if w > 0 {
      ReachedRun(m, r, h, w - 1, slot);
      ReachedNext(m, r, h, w - 1, slot);
    } else {
      assert w == 0;
    }
  }

  lemma RunFits(m: Mode, r: Rect, h: nat)
    requires WellFormed(m) && OnScreen(m, r) && h < r.height
    ensures 0 <= r.y * m.stride + r.x + h * m.stride
    ensures r.y * m.stride + r.x + h * m.stride + r.width <= m.size
  {
    if r.width > 0 {
      RowSlot(m, r, h, r.width - 1);
    } else {
      ScaleMonotone(r.y + h + 1, m.height, m.stride);
      ScaleDifference(r.y, r.y + h, m.stride);
      ScaleDifference(r.y + h, r.y + h + 1, m.stride);
    }
    ScaleMonotone(0, r.y, m.stride);
    ScaleMonotone(0, h, m.stride);
  }

  /** Copies a run of pixels from one framebuffer to the other. */
  method CopyPixels(to: array<Pixel>, from: array<Pixel>, at: nat, n: nat)
    requires to != from && at + n <= to.Length && at + n <= from.Length
    modifies to
    ensures forall i: nat | i < to.Length :: to[i] == if at <= i < at + n then from[i] else old(to[i])
  {
    for k := 0 to n
      invariant forall i: nat | i < to.Length :: to[i] == if at <= i < at + k then from[i] else old(to[i])
    {
      to[at + k] := from[at + k];
    }
  }

  datatype SwapOp = NoneOp | FullOp | RegionOp

  class Driver {
    const mode: Mode
    const mainFramebuffer: array<Pixel>
    const renderFramebuffer: array<Pixel>
    const blend: (Byte, Byte, Byte) -> Byte
    var swapOp: SwapOp
    var regionStartX: int
    var regionStartY: int
    var regionWidth: int
    var regionHeight: int

    ghost predicate Valid()
      reads this
    {
      WellFormed(mode) && mainFramebuffer != renderFramebuffer &&
      mainFramebuffer.Length == mode.size && renderFramebuffer.Length == mode.size &&
      PendingOnScreen(mode, PendingSwap())
    }

    ghost function PendingSwap(): Pending
      reads this
    {
      match swapOp
      case NoneOp => Nothing
      case FullOp => Everything
      case RegionOp => Region(Rect(regionStartX, regionStartY, regionWidth, regionHeight))
    }

    ghost function View(): Screen
      reads this, mainFramebuffer, renderFramebuffer
    {
      Screen(mainFramebuffer[..], renderFramebuffer[..], PendingSwap())
    }

    constructor (m: Mode, main: array<Pixel>, render: array<Pixel>, blendFunc: (Byte, Byte, Byte) -> Byte)
      requires WellFormed(m) && main != render && main.Length == m.size && render.Length == m.size
      ensures Valid() && mode == m && mainFramebuffer == main && renderFramebuffer == render && blend == blendFunc
      ensures PendingSwap() == Nothing
    {
      mode := m;
      mainFramebuffer := main;
      renderFramebuffer := render;
      blend := blendFunc;
      swapOp := NoneOp;
      regionStartX, regionStartY, regionWidth, regionHeight := 0, 0, 0, 0;
    }

    method MarkScreenRegionForSwapping(x: int, y: int, width: int, height: int)
      requires Valid() && OnScreen(mode, Rect(x, y, width, height))
      modifies this
      ensures Valid() && PendingSwap() == Mark(old(PendingSwap()), Rect(x, y, width, height))
    {
      match swapOp {
        case FullOp =>
          return;
        case RegionOp =>
          var oldEndX, oldEndY := regionStartX + regionWidth, regionStartY + regionHeight;
          var endX, endY := x + width, y + height;
          var newStartX := if regionStartX < x then regionStartX else x;
          var newStartY := if regionStartY < y then regionStartY else y;
          var newEndX := if oldEndX > endX then oldEndX else endX;
          var newEndY := if oldEndY > endY then oldEndY else endY;
          regionStartX, regionStartY := newStartX, newStartY;
          regionWidth, regionHeight := newEndX - newStartX, newEndY - newStartY;
        case NoneOp =>
          regionStartX, regionStartY, regionWidth, regionHeight := x, y, width, height;
          swapOp := RegionOp;
      }
    }

    method SwapBuffers()
      requires Valid()
      modifies this, mainFramebuffer
      ensures Valid() && Step(mode, blend, Swap, old(View()), View())
    {
      match swapOp {
        case FullOp =>
          CopyPixels(mainFramebuffer, renderFramebuffer, 0, mode.size);
        case RegionOp =>
          CopyRegion(Rect(regionStartX, regionStartY, regionWidth, regionHeight));
        case NoneOp =>
      }
      assert forall i: nat | i < mode.size ::
          mainFramebuffer[i] == if Refreshes(mode, old(PendingSwap()), i) then renderFramebuffer[i] else old(mainFramebuffer[i]);
      swapOp := NoneOp;
    }

    method CopyRegion(r: Rect)
      requires Valid() && OnScreen(mode, r)
      modifies mainFramebuffer
      ensures forall i: nat | i < mode.size ::
                mainFramebuffer[i] == if Covers(mode, r, i) then renderFramebuffer[i] else old(mainFramebuffer[i])
    {
      hide Covers, Row, Column, Reached;
      var offset := r.y * mode.stride + r.x;
      forall i: nat { ReachedEnds(mode, r, i); }
      for h := 0 to r.height
        invariant forall i: nat | i < mode.size ::
            mainFramebuffer[i] == if Reached(mode, r, h, 0, i) then renderFramebuffer[i] else old(mainFramebuffer[i])
      {
        RunFits(mode, r, h);
        var row: nat := offset + h * mode.stride;
        CopyPixels(mainFramebuffer, renderFramebuffer, row, r.width);
        forall i: nat | i < mode.size
          ensures Reached(mode, r, h + 1, 0, i) <==> Reached(mode, r, h, 0, i) || row <= i < row + r.width
        {
          ReachedRun(mode, r, h, r.width, i);
          ReachedRow(mode, r, h, i);
        }
      }
    }

    /** The clearing loops; the two formats differ only in the order of the bytes. */
    method FillRegion(r: Rect, c: Colour)
      requires Valid() && OnScreen(mode, r)
      modifies renderFramebuffer
      ensures forall i: nat | i < mode.size ::
                renderFramebuffer[i] == if Covers(mode, r, i) then Cleared(mode.format, c, old(renderFramebuffer[i]))
                                        else old(renderFramebuffer[i])
    {
      hide Covers, Row, Column, Reached;
      if mode.format == NoFramebufferFormat { return; }
      var offset := r.y * mode.stride + r.x;
      forall i: nat { ReachedEnds(mode, r, i); }
      for h := 0 to r.height
        invariant forall i: nat | i < mode.size ::
            renderFramebuffer[i] == if Reached(mode, r, h, 0, i) then Cleared(mode.format, c, old(renderFramebuffer[i]))
                                    else old(renderFramebuffer[i])
      {
        var row := offset + h * mode.stride;
        for w := 0 to r.width
          invariant forall i: nat | i < mode.size ::
              renderFramebuffer[i] == if Reached(mode, r, h, w, i) then Cleared(mode.format, c, old(renderFramebuffer[i]))
                                      else old(renderFramebuffer[i])
        {
          RowSlot(mode, r, h, w);
          forall i: nat | i < mode.size { ReachedNext(mode, r, h, w, i); }
          renderFramebuffer[row + w] := Cleared(mode.format, c, renderFramebuffer[row + w]);
        }
        forall i: nat | i < mode.size { ReachedRow(mode, r, h, i); }
      }
    }

    method ClearScreen(c: Colour)
      requires Valid()
      modifies this, renderFramebuffer
      ensures Valid() && Step(mode, blend, ClearAll(c), old(View()), View())
    {
      swapOp := FullOp;
      FillRegion(WholeScreen(mode), c);
    }

    method ClearScreenRegions(regions: seq<Rect>, c: Colour)
      requires Valid() && Callable(mode, ClearRegions(regions, c))
      modifies this, renderFramebuffer
      ensures Valid() && Step(mode, blend, ClearRegions(regions, c), old(View()), View())
    {
      hide Covers, ClipRegion, Mark, Contains, Cleared;
      for k := 0 to |regions|
        invariant Valid() && mainFramebuffer[..] == old(mainFramebuffer[..])
        invariant PendingSwap() == MarkRegions(mode, old(PendingSwap()), regions, k)
        invariant forall i: nat | i < mode.size ::
            renderFramebuffer[i] == if ClearedByOne(mode, regions, k, i) then Cleared(mode.format, c, old(renderFramebuffer[i]))
                                    else old(renderFramebuffer[i])
      {
        label before:
        ClearScreenRegion(FirstSized(regions, k), c);
        forall i: nat | i < mode.size
          ensures renderFramebuffer[i] == if ClearedByOne(mode, regions, k + 1, i)
                                          then Cleared(mode.format, c, old(renderFramebuffer[i])) else old(renderFramebuffer[i])
        {
          ClearedByNext(mode, regions, k, i);
          ClearedTwice(mode.format, c, old(renderFramebuffer[i]));
        }
      }
    }

    /** One pass of the loop over the regions. */
    method ClearScreenRegion(r: Rect, c: Colour)
      requires Valid() && 0 <= r.width && 0 <= r.height
      modifies this, renderFramebuffer
      ensures Valid() && PendingSwap() == MarkClip(old(PendingSwap()), ClipRegion(mode, r))
      ensures forall i: nat | i < mode.size ::
                renderFramebuffer[i] == if Covers(mode, r, i) then Cleared(mode.format, c, old(renderFramebuffer[i]))
                                        else old(renderFramebuffer[i])
    {
      hide Row, Column, Mark, Cleared;
      ClipRegionExact(mode, r);
      var startX := if r.x >= 0 then r.x else 0;
      var startY := if r.y >= 0 then r.y else 0;
      var width, height := r.width, r.height;
      if startX >= mode.width || startY >= mode.height { return; }
      if r.x < 0 {
        if -r.x >= width { return; }
        width := width + r.x;
      }
      if r.y < 0 {
        if -r.y >= height { return; }
        height := height + r.y;
      }
      if startX + width > mode.width { width := mode.width - startX; }
      if startY + height > mode.height { height := mode.height - startY; }
      MarkScreenRegionForSwapping(startX, startY, width, height);
      FillRegion(Rect(startX, startY, width, height), c);
    }

    method BlitImageToFramebuffer(q: Blit)
      requires Valid() && ImageFits(mode, q)
      modifies this, renderFramebuffer
      ensures Valid() && Step(mode, blend, BlitImage(q), old(View()), View())
    {
      hide Row, Column, Mark, Overlaid, ImageFits, SourceOffset;
      ClipTargetExact(mode, q.target);
      var blitImageX, blitImageY, blitFbX, blitFbY := q.imageX, q.imageY, q.target.x, q.target.y;
      var blitWidth, blitHeight := q.target.width, q.target.height;
      if q.target.x < 0 {
        blitImageX, blitWidth, blitFbX := blitImageX - q.target.x, blitWidth + q.target.x, 0;
      }
      if q.target.y < 0 {
        blitImageY, blitHeight, blitFbY := blitImageY - q.target.y, blitHeight + q.target.y, 0;
      }
      if blitFbX + blitWidth > mode.width { blitWidth := mode.width - blitFbX; }
      if blitFbY + blitHeight > mode.height { blitHeight := mode.height - blitFbY; }
      if blitImageX < 0 || blitImageY < 0 || blitWidth < 0 || blitHeight < 0 { return; }
      if blitFbX >= mode.width || blitFbY >= mode.height { return; }
      MarkScreenRegionForSwapping(blitFbX, blitFbY, blitWidth, blitHeight);
      if mode.format != NoFramebufferFormat && q.format != NoImageFormat {
        DrawImage(q, blitImageX, blitImageY, Rect(blitFbX, blitFbY, blitWidth, blitHeight));
      }
    }

    /** The blitting loops; the four pairs of formats differ only in what they do to one pixel. */
    method DrawImage(q: Blit, imageX: int, imageY: int, r: Rect)
      requires Valid() && Draws(mode, q) && ImageFits(mode, q) && ClipBlit(mode, q) == Some(r) && OnScreen(mode, r)
      requires imageX == q.imageX + (r.x - q.target.x) && imageY == q.imageY + (r.y - q.target.y)
      modifies renderFramebuffer
      ensures forall i: nat | i < mode.size :: renderFramebuffer[i] == Blitted(mode, blend, q, i, old(renderFramebuffer[i]))
    {
      hide Covers, Row, Column, Reached, Overlaid, ImageFits, SourceOffset, ClipTarget, Contains, Blitted, ClipBlit, Draws,
           PixelBytes, ImageOffset;
      var srcOffset := ImageOffset(q, imageX, imageY);
      var offset := r.y * mode.stride + r.x;
      forall i: nat { ReachedEnds(mode, r, i); }
      for h := 0 to r.height
        invariant forall i: nat | i < mode.size ::
            renderFramebuffer[i] == if Reached(mode, r, h, 0, i) then Blitted(mode, blend, q, i, old(renderFramebuffer[i]))
                                    else old(renderFramebuffer[i])
      {
        var srcRow := srcOffset + h * q.rowStride;
        var row := offset + h * mode.stride;
        for w := 0 to r.width
          invariant forall i: nat | i < mode.size ::
              renderFramebuffer[i] == if Reached(mode, r, h, w, i) then Blitted(mode, blend, q, i, old(renderFramebuffer[i]))
                                      else old(renderFramebuffer[i])
        {
          RowSlot(mode, r, h, w);
          forall i: nat | i < mode.size { ReachedNext(mode, r, h, w, i); }
          SourceOfPixel(mode, blend, q, r, h, w, renderFramebuffer[row + w]);
          var from := srcRow + w * PixelBytes(q.format);
          renderFramebuffer[row + w] :=
            Overlaid(mode.format, q.format, blend, q.image[from..from + PixelBytes(q.format)], renderFramebuffer[row + w]);
        }
        forall i: nat | i < mode.size { ReachedRow(mode, r, h, i); }
      }
      forall i: nat | i < mode.size ensures renderFramebuffer[i] == Blitted(mode, blend, q, i, old(renderFramebuffer[i])) {
        OutsideTarget(mode, blend, q, r, i, renderFramebuffer[i]);
      }
    }
  }

  lemma ClearedByNext(m: Mode, regions: seq<Rect>, k: nat, slot: nat)
    requires 0 < m.stride && k < |regions|
    ensures ClearedByOne(m, regions, k + 1, slot) <==>
              ClearedByOne(m, regions, k, slot) || Covers(m, FirstSized(regions, k), slot)
  {
  }

  lemma ClearedTwice(f: FramebufferFormat, c: Colour, p: Pixel)
    ensures Cleared(f, c, Cleared(f, c, p)) == Cleared(f, c, p)
  {
  }

  /** The image bytes that the drawing loops read at column `w` of row `h` are the ones that belong there. */
  lemma SourceOfPixel(m: Mode, blend: (Byte, Byte, Byte) -> Byte, q: Blit, r: Rect, h: nat, w: nat, before: Pixel)
    requires WellFormed(m) && Draws(m, q) && ImageFits(m, q) && ClipBlit(m, q) == Some(r) && h < r.height && w < r.width
    ensures OnScreen(m, r)
    ensures
      var from := ImageOffset(q, q.imageX + (r.x - q.target.x), q.imageY + (r.y - q.target.y)) + h * q.rowStride +
                  w * PixelBytes(q.format);
      var slot := r.y * m.stride + r.x + h * m.stride + w;
      0 <= from && from + PixelBytes(q.format) <= |q.image| && 0 <= slot &&
      Blitted(m, blend, q, slot, before) ==
      Overlaid(m.format, q.format, blend, q.image[from..from + PixelBytes(q.format)], before)
  {
    hide Row, Column, Overlaid, ClipTarget;
    ClipTargetExact(m, q.target);
    assert Contains(r, r.x + w, r.y + h);
    SlotOf(m, r.x + w, r.y + h);
    RowSlot(m, r, h, w);
    assert Contains(q.target, r.x + w, r.y + h);
    ScaleDifference(q.imageY + (r.y - q.target.y), q.imageY + (r.y - q.target.y) + h, q.rowStride);
    assert SourceOffset(q, r.x + w, r.y + h) >= 0;
  }

  /** Slots outside the clipped rectangle are not part of the blit. */
  lemma OutsideTarget(m: Mode, blend: (Byte, Byte, Byte) -> Byte, q: Blit, r: Rect, slot: nat, p: Pixel)
    requires WellFormed(m) && ImageFits(m, q) && ClipBlit(m, q) == Some(r)
    ensures Covers(m, r, slot) || Blitted(m, blend, q, slot, p) == p
  {
    hide Row, Column, Overlaid, ClipTarget, SourceOffset;
    ClipTargetExact(m, q.target);
  }
}
