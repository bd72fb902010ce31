/** The shape of the tree that indexes one range of physical memory: each level covers the range with
    blocks twice as large as those of the level below, the lowest level's being single pages. */
module TreeGeometry {
  import opened MemoryUnits
  import opened Division

  function Power2(h: nat): (r: nat)
    ensures r > 0
  {
    if h == 0 then 1 else 2 * Power2(h - 1)
  }

  /** Bytes that a block at height `h` above the pages covers. */
  function BlockSize(h: nat): (r: nat)
    ensures r > 0
  {
    if h == 0 then PHYSICAL_PAGE_SIZE else 2 * BlockSize(h - 1)
  }

  lemma BlockSizeStep(h: nat)
    ensures BlockSize(0) == PHYSICAL_PAGE_SIZE && BlockSize(h + 1) == BlockSize(h) * 2
  {
  }

  function RoundDown(a: nat, b: nat): nat
    requires b > 0
  {
    (a / b) * b
  }

  function RoundUp(a: nat, b: nat): nat
    requires b > 0
  {
    ((a + b - 1) / b) * b
  }

  /** Number of the first block at height `h` that meets the range starting at `start`. */
  function First(start: nat, h: nat): nat
    decreases h
  {
    if h == 0 then start / PHYSICAL_PAGE_SIZE else First(start, h - 1) / 2
  }

  /** Number of the first block at height `h` that lies beyond the range ending at `end`. */
  function Last(end: nat, h: nat): nat
    decreases h
  {
    if h == 0 then (end + PHYSICAL_PAGE_SIZE - 1) / PHYSICAL_PAGE_SIZE else (Last(end, h - 1) + 1) / 2
  }

  function NumBlocks(start: nat, end: nat, h: nat): (r: int) { Last(end, h) - First(start, h) }

  // ----- Rounding again and again -----

  /** The lower end of the range after it has been rounded at every block size up to that of height `h`. */
  function MinMapped(start: nat, h: nat): nat
    decreases h
  {
    RoundDown(if h == 0 then start else MinMapped(start, h - 1), BlockSize(h))
  }

  function MaxMapped(end: nat, h: nat): nat
    decreases h
  {
    RoundUp(if h == 0 then end else MaxMapped(end, h - 1), BlockSize(h))
  }

  /** A multiple of a number, divided by twice that number. */
  lemma HalfQuotient(x: nat, b: nat)
    requires b > 0
    ensures (x * b) / (2 * b) == x / 2
  {
    var q, r := x / 2, x % 2;
    Distribute(q, r, b);
    assert x == 2 * q + r && r * b <= b;
    QuotientUnique(x * b, 2 * b, q, r * b);
  }

  lemma HalfQuotientUp(x: nat, b: nat)
    requires b > 0
    ensures (x * b + 2 * b - 1) / (2 * b) == (x + 1) / 2
  {
    var q, r := (x + 1) / 2, (x + 1) % 2;
    Distribute(q, r, b);
    assert x + 1 == 2 * q + r && r * b <= b;
    assert (x + 1) * b == x * b + b;
    QuotientUnique(x * b + 2 * b - 1, 2 * b, q, r * b + b - 1);
  }

  lemma Distribute(q: nat, r: nat, b: nat)
    ensures (2 * q + r) * b == q * (2 * b) + r * b
  {
  }

  /** Rounding at every block size in turn gives what rounding at each size once gives: whole blocks,
      numbered by halving. */
  lemma {:induction false} MappedIsBlocks(start: nat, end: nat, h: nat)
    ensures MinMapped(start, h) == First(start, h) * BlockSize(h)
    ensures MaxMapped(end, h) == Last(end, h) * BlockSize(h)
  {
    if h > 0 {
      MappedIsBlocks(start, end, h - 1);
      HalfQuotient(First(start, h - 1), BlockSize(h - 1));
      HalfQuotientUp(Last(end, h - 1), BlockSize(h - 1));
    }
  }

  /** Halving the number of a block again and again is dividing by its size at once. */
  lemma {:induction false} BlocksAreDirect(start: nat, end: nat, h: nat)
    ensures First(start, h) == start / BlockSize(h)
    ensures Last(end, h) == (end + BlockSize(h) - 1) / BlockSize(h)
  {
    if h > 0 {
      BlocksAreDirect(start, end, h - 1);
      DivideTwice(start, BlockSize(h - 1));
      DivideTwiceUp(end, BlockSize(h - 1));
    }
  }

  lemma DivideTwice(a: nat, b: nat)
    requires b > 0
    ensures a / b / 2 == a / (2 * b)
  {
    EuclideanDivision(a, b);
    Halved(a, b, a / b, a % b);
  }

  lemma Halved(a: nat, b: nat, x: nat, rest: nat)
    requires a == x * b + rest && rest < b
    ensures a / (2 * b) == x / 2
  {
    var q, r := x / 2, x % 2;
    Distribute(q, r, b);
    QuotientUnique(a, 2 * b, q, if r == 0 then rest else b + rest);
  }

  lemma DivideTwiceUp(a: nat, b: nat)
    requires b > 0
    ensures ((a + b - 1) / b + 1) / 2 == (a + 2 * b - 1) / (2 * b)
  {
    DivideTwice(a + 2 * b - 1, b);
    assert ((a + b - 1) / b + 1) * b == (a + b - 1) / b * b + b;
    QuotientUnique(a + 2 * b - 1, b, (a + b - 1) / b + 1, (a + b - 1) % b);
  }

  /** Repeated rounding equals rounding the range itself to the block size of each height. */
  lemma RoundingIsDirect(start: nat, end: nat, h: nat)
    ensures MinMapped(start, h) == RoundDown(start, BlockSize(h))
    ensures MaxMapped(end, h) == RoundUp(end, BlockSize(h))
  {
    MappedIsBlocks(start, end, h);
    BlocksAreDirect(start, end, h);
  }

  /** While two or more blocks remain, a block is smaller than the end address. */
  lemma BlockBelowEnd(start: nat, end: nat, h: nat)
    requires NumBlocks(start, end, h) >= 2
    ensures BlockSize(h) < end
  {
    BlocksAreDirect(start, end, h);
    var b := BlockSize(h);
    if end <= b {
      QuotientUnique(end + b - 1, b, if end == 0 then 0 else 1, if end == 0 then b - 1 else end - 1);
    }
  }

  // ----- Staying within 64 bits -----

  /** Trees are built for ranges that end at most here, 2^62. */
  const TREE_LIMIT: nat := 0x4000_0000_0000_0000

  /** While a level is reached at all, nothing computed for it, nor the next block size, needs more than
      64 bits. */
  lemma FitsIn64Bits(start: nat, end: nat, h: nat)
    requires end <= TREE_LIMIT && (h > 0 ==> NumBlocks(start, end, h - 1) >= 2)
    ensures (if h == 0 then end else MaxMapped(end, h - 1)) + BlockSize(h) - 1 < ADDRESS_LIMIT
    ensures MaxMapped(end, h) < ADDRESS_LIMIT && 2 * BlockSize(h) < ADDRESS_LIMIT
  {
    hide NumBlocks, MaxMapped, RoundUp;
    MaxMappedBound(end, h);
    if h > 0 {
      BlockBelowEnd(start, end, h - 1);
      MaxMappedBound(end, h - 1);
    }
  }

  lemma MaxMappedBound(end: nat, h: nat)
    ensures MaxMapped(end, h) < end + BlockSize(h)
  {
    hide MaxMapped, BlockSize;
    RoundingIsDirect(0, end, h);
    EuclideanDivision(end + BlockSize(h) - 1, BlockSize(h));
  }

  lemma TenLevelsUp(h: nat)
    ensures BlockSize(h + 10) == 1024 * BlockSize(h)
  {
    assert BlockSize(h + 2) == 4 * BlockSize(h);
    assert BlockSize(h + 4) == 16 * BlockSize(h);
    assert BlockSize(h + 6) == 64 * BlockSize(h);
    assert BlockSize(h + 8) == 256 * BlockSize(h);
  }

  lemma SizeOfHeight51(h: nat)
    requires h == 0
    ensures BlockSize(h + 51) == 0x8000_0000_0000_0000
  {
    TenLevelsUp(h);
    TenLevelsUp(h + 10);
    TenLevelsUp(h + 20);
    TenLevelsUp(h + 30);
    TenLevelsUp(h + 40);
  }

  // ----- The levels -----

  /** The height of the first level with at most one block, from height `h` upward. */
  function RootHeight(start: nat, end: nat, h: nat): (r: nat)
    ensures r >= h && NumBlocks(start, end, r) <= 1
    ensures forall i | h <= i < r :: NumBlocks(start, end, i) > 1
    decreases Last(end, h)
  {
    if NumBlocks(start, end, h) <= 1 then h else RootHeight(start, end, h + 1)
  }

  function NumLevels(start: nat, end: nat): nat { RootHeight(start, end, 0) + 1 }

  lemma {:induction false} BlocksOrdered(start: nat, end: nat, h: nat)
    requires start <= end
    ensures First(start, h) <= Last(end, h)
    ensures start < end ==> First(start, h) < Last(end, h)
  {
    if h > 0 {
      BlocksOrdered(start, end, h - 1);
    }
  }

  /** A non-empty range has exactly one block at its root. */
  lemma OneRoot(start: nat, end: nat)
    requires start < end
    ensures NumBlocks(start, end, RootHeight(start, end, 0)) == 1
  {
    BlocksOrdered(start, end, RootHeight(start, end, 0));
  }

  /** The children of the first block begin with the first block below or the one before it, and
      every block below has its parent among the blocks above. */
  lemma ParentOfBlock(start: nat, end: nat, h: nat, j: nat)
    requires First(start, h) <= j < Last(end, h)
    ensures First(start, h) - 2 * First(start, h + 1) in {0, 1}
    ensures First(start, h + 1) <= j / 2 < Last(end, h + 1)
  {
  }

  function TotalBlocks(start: nat, end: nat, levels: nat): int {
    if levels == 0 then 0 else TotalBlocks(start, end, levels - 1) + NumBlocks(start, end, levels - 1)
  }

  /** All levels together have at most twice as many blocks as there are pages, and two more for each level. */
  lemma {:induction false} TotalBlocksBound(start: nat, end: nat, levels: nat)
    requires start <= end
    ensures levels > 0 ==> TotalBlocks(start, end, levels) + NumBlocks(start, end, levels - 1)
                           <= 2 * NumBlocks(start, end, 0) + 2 * levels
    ensures TotalBlocks(start, end, levels) <= 2 * NumBlocks(start, end, 0) + 2 * levels
  {
    if levels > 0 {
      TotalBlocksBound(start, end, levels - 1);
      BlocksOrdered(start, end, levels - 1);
      if levels > 1 {
        assert 2 * NumBlocks(start, end, levels - 1) <= NumBlocks(start, end, levels - 2) + 2;
      } else {
        assert TotalBlocks(start, end, 0) == 0;
      }
    } else {
      BlocksOrdered(start, end, 0);
    }
  }
}
