/** The rounding that finds the levels of a tree, in the 64-bit arithmetic in which it is done. An upper
    end that is rounded up to 2^64 becomes zero. The module follows what then happens to the loop. */
module TreeWrapping {
  import opened MemoryUnits
  import opened Division
  import opened TreeGeometry

  /** The last height whose block size, 2^63, still fits in 64 bits. */
  const TOP_HEIGHT: nat := 51

  const MIDDLE: nat := 0x8000_0000_0000_0000

  function RoundUp64(a: nat, b: nat): nat
    requires b > 0
  {
    RoundDown((a + b - 1) % ADDRESS_LIMIT, b)
  }

  /** The upper end after it has been rounded at every block size up to that of height `h`. */
  function MaxMapped64(end: nat, h: nat): nat
    decreases h
  {
    RoundUp64(if h == 0 then end else MaxMapped64(end, h - 1), BlockSize(h))
  }

  function Span64(min: int, max: int): nat { (max - min) % ADDRESS_LIMIT }

  /** The number of blocks that the loop sees at height `h`. */
  function NumBlocks64(start: nat, end: nat, h: nat): nat {
    hide MinMapped, MaxMapped64, Span64, BlockSize;
    Span64(MinMapped(start, h), MaxMapped64(end, h)) / BlockSize(h)
  }

  /** At some heights the rounded range is the whole address space. Its size does not fit in 64 bits. */
  predicate CoversAll(start: nat, end: nat, h: nat) {
    First(start, h) == 0 && Last(end, h) * BlockSize(h) == ADDRESS_LIMIT
  }

  // ----- Block sizes divide 2^64 -----

  /** The number of blocks of height `h` in the lower half of the address space. */
  function HalfSpace(h: nat): (k: nat)
    requires h <= TOP_HEIGHT
    ensures k > 0 && BlockSize(h) * k == MIDDLE
    decreases TOP_HEIGHT - h
  {
    if h == TOP_HEIGHT then TopSize(h); 1
    else DoubleOther(BlockSize(h), HalfSpace(h + 1)); 2 * HalfSpace(h + 1)
  }

  lemma TopSize(h: nat)
    requires h == TOP_HEIGHT
    ensures BlockSize(h) == MIDDLE
  {
    hide BlockSize;
    SizeOfHeight51(h - TOP_HEIGHT);
  }

  lemma DoubleOther(b: nat, k: nat)
    ensures b * (2 * k) == (2 * b) * k
  {
  }

  // ----- One rounding -----

  lemma RoundUpToLimit(x: nat, b: nat, k: nat)
    requires 0 < b && b * k == ADDRESS_LIMIT <= x + b - 1 && x <= ADDRESS_LIMIT
    ensures RoundUp(x, b) == ADDRESS_LIMIT
  {
    QuotientUnique(x + b - 1, b, k, x + b - 1 - ADDRESS_LIMIT);
  }

  lemma RoundDownToZero(y: nat, b: nat)
    requires y < b
    ensures RoundDown(y, b) == 0
  {
    QuotientUnique(y, b, 0, y);
  }

  lemma RoundUpBelowLimit(x: nat, b: nat)
    requires 0 < b && x + b - 1 < ADDRESS_LIMIT
    ensures RoundUp64(x, b) == RoundUp(x, b) < ADDRESS_LIMIT
  {
    EuclideanDivision(x + b - 1, b);
    WithinLimit(x + b - 1);
  }

  /** The sum wraps to less than a block. */
  lemma RoundUpPastLimit(x: nat, b: nat)
    requires x < ADDRESS_LIMIT <= x + b - 1 && b <= ADDRESS_LIMIT
    ensures RoundUp64(x, b) == 0
  {
    hide RoundDown;
    PastLimit(x + b - 1);
    RoundDownToZero(x + b - 1 - ADDRESS_LIMIT, b);
  }

  lemma WithinLimit(x: nat)
    requires x < ADDRESS_LIMIT
    ensures x % ADDRESS_LIMIT == x
  {
  }

  lemma PastLimit(x: nat)
    requires ADDRESS_LIMIT <= x < 2 * ADDRESS_LIMIT
    ensures x % ADDRESS_LIMIT == x - ADDRESS_LIMIT
  {
  }

  /** Rounding up in 64 bits is rounding up, modulo 2^64. */
  lemma RoundUpWraps(x: nat, b: nat, k: nat)
    requires 0 < b && b * k == ADDRESS_LIMIT && x <= ADDRESS_LIMIT
    ensures RoundUp(x, b) <= ADDRESS_LIMIT
    ensures RoundUp64(x % ADDRESS_LIMIT, b) == RoundUp(x, b) % ADDRESS_LIMIT
  {
    hide RoundUp, RoundUp64, RoundDown;
    BlockWithin(b, k);
    if x + b - 1 < ADDRESS_LIMIT {
      RoundUpBelowLimit(x, b);
      WithinLimit(x);
      WithinLimit(RoundUp(x, b));
    } else {
      RoundUpToLimit(x, b, k);
      PastLimit(ADDRESS_LIMIT);
      if x < ADDRESS_LIMIT {
        WithinLimit(x);
        RoundUpPastLimit(x, b);
      } else {
        RoundUpOfZero(b);
      }
    }
  }

  lemma RoundUpOfZero(b: nat)
    requires 0 < b <= ADDRESS_LIMIT
    ensures RoundUp64(0, b) == 0
  {
    hide RoundDown;
    WithinLimit(b - 1);
    RoundDownToZero(b - 1, b);
  }

  lemma BlockWithin(b: nat, k: nat)
    requires 0 < b && b * k == ADDRESS_LIMIT
    ensures b <= ADDRESS_LIMIT
  {
    MultipleBound(k, b);
  }

  // ----- All roundings -----

  /** The rounded upper end is the exact one, modulo 2^64, at every height the loop may reach. */
  lemma {:induction false} MaxMappedWraps(end: nat, h: nat)
    requires end < ADDRESS_LIMIT && h <= TOP_HEIGHT
    ensures MaxMapped(end, h) <= ADDRESS_LIMIT
    ensures MaxMapped64(end, h) == MaxMapped(end, h) % ADDRESS_LIMIT
  {
    hide RoundUp, RoundUp64, BlockSize, HalfSpace;
    DoubleOther(BlockSize(h), HalfSpace(h));
    if h > 0 {
      MaxMappedWraps(end, h - 1);
    }
    RoundUpWraps(if h == 0 then end else MaxMapped(end, h - 1), BlockSize(h), 2 * HalfSpace(h));
  }

  /** The loop sees the true number of blocks, except that it sees none where the rounded range is the whole
      address space. */
  lemma BlocksSeen(start: nat, end: nat, h: nat)
    requires start <= end < ADDRESS_LIMIT && h <= TOP_HEIGHT
    ensures NumBlocks64(start, end, h) == if CoversAll(start, end, h) then 0 else NumBlocks(start, end, h)
  {
    hide MaxMapped64, MaxMapped, MinMapped, BlockSize, First, Last, NumBlocks64;
    var b := BlockSize(h);
    MaxMappedWraps(end, h);
    MappedIsBlocks(start, end, h);
    BlocksOrdered(start, end, h);
    SpanInBlocks(First(start, h), Last(end, h), b);
    assert NumBlocks64(start, end, h) == Span64(First(start, h) * b, (Last(end, h) * b) % ADDRESS_LIMIT) / b by {
      SeenIs(start, end, h);
    }
  }

  lemma SeenIs(start: nat, end: nat, h: nat)
    ensures NumBlocks64(start, end, h) == Span64(MinMapped(start, h), MaxMapped64(end, h)) / BlockSize(h)
  {
  }

  lemma SpanInBlocks(f: nat, l: nat, b: nat)
    requires b > 0 && f <= l && l * b <= ADDRESS_LIMIT
    ensures Span64(f * b, (l * b) % ADDRESS_LIMIT) / b == if f == 0 && l * b == ADDRESS_LIMIT then 0 else l - f
  {
    hide Span64;
    MultipleBound(f, b);
    ScaleMonotone(f, l, b);
    ScaleDifference(f, l, b);
    SpanWraps(f * b, l * b);
    if f == 0 && l * b == ADDRESS_LIMIT {
      QuotientUnique(0, b, 0, 0);
    } else {
      QuotientUnique((l - f) * b, b, l - f, 0);
    }
  }

  lemma SpanWraps(min: nat, max: nat)
    requires min <= max <= ADDRESS_LIMIT
    ensures Span64(min, max % ADDRESS_LIMIT) == if min == 0 && max == ADDRESS_LIMIT then 0 else max - min
  {
    if max == ADDRESS_LIMIT {
      PastLimit(max);
      if min > 0 { QuotientUnique(ADDRESS_LIMIT - min, ADDRESS_LIMIT, 0, ADDRESS_LIMIT - min); }
    } else {
      WithinLimit(max);
      WithinLimit(max - min);
    }
  }

  // ----- Ranges on both sides of 2^63 -----

  /** Such a range has at least two blocks at every height. */
  lemma TwoSides(start: nat, end: nat, h: nat)
    requires start < MIDDLE < end < ADDRESS_LIMIT && h <= TOP_HEIGHT
    ensures NumBlocks(start, end, h) >= 2
  {
    hide BlockSize, First, Last, HalfSpace;
    BlocksAreDirect(start, end, h);
    Sides(start, end, BlockSize(h), HalfSpace(h));
  }

  lemma Sides(start: nat, end: nat, b: nat, k: nat)
    requires b > 0 && start < b * k < end
    ensures start / b < k < (end + b - 1) / b
  {
    EuclideanDivision(start, b);
    EuclideanDivision(end + b - 1, b);
    ScaleDifference(k, start / b, b);
    ScaleDifference(k, (end + b - 1) / b, b);
    MultipleBound(start / b - k, b);
    MultipleBound((end + b - 1) / b - k - 1, b);
  }

  /** Only such a range is ever rounded to the whole address space while blocks are at most half of it. */
  lemma CoveringHasTwoSides(start: nat, end: nat, h: nat)
    requires start <= end < ADDRESS_LIMIT && h <= TOP_HEIGHT && CoversAll(start, end, h)
    ensures start < MIDDLE < end
  {
    hide BlockSize, First, Last, HalfSpace;
    BlocksAreDirect(start, end, h);
    var b := BlockSize(h);
    EuclideanDivision(start, b);
    EuclideanDivision(end + b - 1, b);
    MultipleBound(HalfSpace(h), b);
  }

  lemma AtTop(start: nat, end: nat, h: nat)
    requires start <= end < ADDRESS_LIMIT && h == TOP_HEIGHT
    ensures NumBlocks64(start, end, h) <= 1
    ensures NumBlocks(start, end, h) >= 2 ==> start < MIDDLE < end
  {
    hide BlockSize, First, Last, NumBlocks64;
    TopSize(h);
    BlocksSeen(start, end, h);
    BlocksAreDirect(start, end, h);
  }

  // ----- Where the loop stops -----

  /** The height at which the loop stops, from height `h` upward. It never doubles the block size beyond
      2^63, so it always stops. */
  function Root64(start: nat, end: nat, h: nat): (r: nat)
    requires start <= end < ADDRESS_LIMIT && h <= TOP_HEIGHT
    ensures h <= r <= TOP_HEIGHT && NumBlocks64(start, end, r) <= 1
    ensures forall i | h <= i < r :: NumBlocks64(start, end, i) > 1
    decreases TOP_HEIGHT - h
  {
    hide NumBlocks64;
    if NumBlocks64(start, end, h) <= 1 then h
    else
      assert h != TOP_HEIGHT by { if h == TOP_HEIGHT { AtTop(start, end, h); } }
      Root64(start, end, h + 1)
  }

  function NumLevels64(start: nat, end: nat): nat
    requires start <= end < ADDRESS_LIMIT
  {
    Root64(start, end, 0) + 1
  }

  /** Where the loop goes on, twice the block size still fits in 64 bits. */
  lemma BelowTop(start: nat, end: nat, h: nat)
    requires start <= end < ADDRESS_LIMIT && h <= TOP_HEIGHT && NumBlocks64(start, end, h) > 1
    ensures h < TOP_HEIGHT && 2 * BlockSize(h) < ADDRESS_LIMIT
  {
    hide NumBlocks64, BlockSize, HalfSpace;
    if h == TOP_HEIGHT {
      AtTop(start, end, h);
    } else {
      BlockSizeStep(h);
      MultipleBound(HalfSpace(h + 1), BlockSize(h + 1));
    }
  }

  lemma RoundedBlocks64(start: nat, end: nat, h: nat)
    ensures var min := RoundDown(if h == 0 then start else MinMapped(start, h - 1), BlockSize(h));
            var max := RoundUp64(if h == 0 then end else MaxMapped64(end, h - 1), BlockSize(h));
            && min == MinMapped(start, h) && max == MaxMapped64(end, h)
            && Span64(min, max) / BlockSize(h) == NumBlocks64(start, end, h)
  {
    hide BlockSize, RoundDown, RoundUp64, Span64;
  }

  lemma Root64Is(start: nat, end: nat, h: nat)
    requires start <= end < ADDRESS_LIMIT && h <= TOP_HEIGHT && NumBlocks64(start, end, h) <= 1
    requires forall i | 0 <= i < h :: NumBlocks64(start, end, i) > 1
    ensures NumLevels64(start, end) == h + 1
  {
    hide NumBlocks64;
    var r := Root64(start, end, 0);
    assert r <= h && h <= r;
  }

  /** A range on one side of 2^63 gets the levels that unbounded arithmetic gives it. */
  lemma OneSide(start: nat, end: nat)
    requires start <= end < ADDRESS_LIMIT && !(start < MIDDLE < end)
    ensures NumLevels64(start, end) == NumLevels(start, end)
    ensures forall h | 0 <= h < NumLevels(start, end) :: NumBlocks64(start, end, h) == NumBlocks(start, end, h)
  {
    hide NumBlocks64, NumBlocks, CoversAll;
    var r, s := Root64(start, end, 0), RootHeight(start, end, 0);
    forall h: nat | h <= TOP_HEIGHT
      ensures NumBlocks64(start, end, h) == NumBlocks(start, end, h)
    {
      BlocksSeen(start, end, h);
      if CoversAll(start, end, h) { CoveringHasTwoSides(start, end, h); }
    }
    assert s <= r;
    assert r <= s;
  }

  /** The root of a non-empty range has exactly one block if the range lies on one side of 2^63, and no block
      at all if it lies on both. */
  lemma RootHasOneBlockIff(start: nat, end: nat)
    requires start < end < ADDRESS_LIMIT
    ensures NumBlocks64(start, end, Root64(start, end, 0)) == if start < MIDDLE < end then 0 else 1
  {
    hide NumBlocks64, NumBlocks, CoversAll;
    var r := Root64(start, end, 0);
    if start < MIDDLE < end {
      TwoSides(start, end, r);
      BlocksSeen(start, end, r);
    } else {
      OneSide(start, end);
      OneRoot(start, end);
    }
  }

  /** The range from 0 to the page after 2^63 gets no root block: its upper end is rounded up to 2^64. */
  lemma PageAfterMiddle()
    ensures NumBlocks64(0, MIDDLE + PHYSICAL_PAGE_SIZE, Root64(0, MIDDLE + PHYSICAL_PAGE_SIZE, 0)) == 0
  {
    hide NumBlocks64;
    RootHasOneBlockIff(0, MIDDLE + PHYSICAL_PAGE_SIZE);
  }

  /** All pages but the last: the loop stops at two pages for each block, with none. */
  lemma AllButTheLastPage(end: nat)
    requires end == ADDRESS_LIMIT - PHYSICAL_PAGE_SIZE
    ensures NumBlocks64(0, end, 0) > 1 && NumBlocks64(0, end, 1) == 0
    ensures NumLevels64(0, end) == 2
  {
    hide MaxMapped64, MinMapped, NumBlocks64;
    BlocksSeen(0, end, 0);
    BlocksSeen(0, end, 1);
  }
}
