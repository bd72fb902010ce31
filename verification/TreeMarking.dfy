/** Filling in the trees: every page available, then the used ones marked, then the summaries of the
    levels above computed from the level below. */
module TreeMarking {
  import opened Wrappers
  import opened Intervals
  import opened RangeLists
  import opened MemoryUnits
  import opened Division
  import opened PhysicalMemory
  import opened TreeGeometry
  import opened TreeSummary
  import opened TreeLayout
  import opened PhysicalMemTree

  /** All trees have been laid out. */
  ghost predicate Ready(arena: TreeArena)
    reads arena, arena.entries, arena.levels, arena.blocks
  {
    && arena.Sized()
    && EntriesFit(arena.entries[..], arena.trees, |arena.trees|)
    && LaidOut(arena.levels[..], arena.blocks[..], AllShapes(arena.trees))
  }

  lemma BuiltIsReady(arena: TreeArena)
    requires arena.Building(|arena.trees|)
    ensures Ready(arena)
  {
    assert arena.trees[..|arena.trees|] == arena.trees;
    ReadyIsLaidOut(arena.levels[..], arena.blocks[..], AllShapes(arena.trees));
  }

  /** The blocks of level `x`. */
  ghost function LevelBytes(arena: TreeArena, x: nat): (bytes: seq<nat>)
    requires Ready(arena) && x < arena.levels.Length
    reads arena, arena.entries, arena.levels, arena.blocks
    ensures |bytes| == arena.levels[x].numBlocks == AllShapes(arena.trees)[x].Blocks()
  {
    Bytes(arena.levels[..], arena.blocks[..], AllShapes(arena.trees), x)
  }

  /** The numbers of a level structure. */
  lemma LevelNumbers(arena: TreeArena, x: nat)
    requires Ready(arena) && x < arena.levels.Length
    ensures var shape := AllShapes(arena.trees)[x];
            && arena.levels[x].startMappedAddress == shape.FirstBlock() * BlockSize(shape.height)
            && arena.levels[x].blockSize == BlockSize(shape.height)
            && arena.levels[x].numBlocks == shape.Blocks()
            && (arena.levels[x].numBlocks > IN_PLACE_BLOCKS ==>
                  arena.levels[x].blocks == OutOfLine(Offset(AllShapes(arena.trees), x)))
            && (arena.levels[x].numBlocks <= IN_PLACE_BLOCKS ==>
                  arena.levels[x].blocks.InPlace? && |arena.levels[x].blocks.bytes| == IN_PLACE_BLOCKS)
  {
    assert LevelFits(arena.levels[..], AllShapes(arena.trees), x);
  }

  // ----- Single blocks -----

  /** Writes one block of a level. */
  method SetBlock(arena: TreeArena, x: nat, i: nat, v: nat)
    requires Ready(arena) && x < arena.levels.Length && i < arena.levels[x].numBlocks
    modifies arena.levels, arena.blocks
    ensures Ready(arena) && arena.levels[x].numBlocks == old(arena.levels[x].numBlocks)
    ensures LevelBytes(arena, x) == old(LevelBytes(arena, x))[i := v]
    ensures forall y | 0 <= y < arena.levels.Length && y != x :: LevelBytes(arena, y) == old(LevelBytes(arena, y))
  {
    hide AllShapes, Offset, LaidOut, EntriesFit;
    ghost var levels0, blocks0, shapes := arena.levels[..], arena.blocks[..], AllShapes(arena.trees);
    LevelNumbers(arena, x);
    if arena.levels[x].numBlocks > IN_PLACE_BLOCKS {
      var offset := arena.levels[x].blocks.offset;
      OutOfLineWrite(levels0, blocks0, shapes, x, i, v, x);
      arena.blocks[offset + i] := v;
      assert arena.blocks[..] == blocks0[offset + i := v];
      forall y | 0 <= y < arena.levels.Length
        ensures LevelBytes(arena, y) == if y == x then old(LevelBytes(arena, x))[i := v] else old(LevelBytes(arena, y))
      {
        OutOfLineWrite(levels0, blocks0, shapes, x, i, v, y);
      }
    } else {
      var level := arena.levels[x];
      InPlaceWrite(levels0, blocks0, shapes, x, i, v, x);
      arena.levels[x] := level.(blocks := InPlace(level.blocks.bytes[i := v]));
      assert arena.levels[..] == levels0[x := level.(blocks := InPlace(level.blocks.bytes[i := v]))];
      forall y | 0 <= y < arena.levels.Length
        ensures LevelBytes(arena, y) == if y == x then old(LevelBytes(arena, x))[i := v] else old(LevelBytes(arena, y))
      {
        InPlaceWrite(levels0, blocks0, shapes, x, i, v, y);
      }
    }
  }

  /** Reads one block of a level. */
  method GetBlock(arena: TreeArena, x: nat, i: nat) returns (v: nat)
    requires Ready(arena) && x < arena.levels.Length && i < arena.levels[x].numBlocks
    ensures v == LevelBytes(arena, x)[i]
  {
    hide AllShapes, Offset, EntriesFit;
    LevelNumbers(arena, x);
    SlicesApart(AllShapes(arena.trees), x, x);
    match arena.levels[x].blocks
    case OutOfLine(offset) => v := arena.blocks[offset + i];
    case InPlace(bytes) => v := bytes[i];
  }

  /** Sets `count` blocks of a level from block `from` on. */
  method SetBlocks(arena: TreeArena, x: nat, from: nat, v: nat, count: nat)
    requires Ready(arena) && x < arena.levels.Length && from + count <= arena.levels[x].numBlocks
    modifies arena.levels, arena.blocks
    ensures Ready(arena) && arena.levels[x].numBlocks == old(arena.levels[x].numBlocks)
    ensures forall i | 0 <= i < |LevelBytes(arena, x)| ::
              LevelBytes(arena, x)[i] == if from <= i < from + count then v else old(LevelBytes(arena, x))[i]
    ensures forall y | 0 <= y < arena.levels.Length && y != x :: LevelBytes(arena, y) == old(LevelBytes(arena, y))
  {
    hide Ready, AllShapes;
    for n := 0 to count
      invariant Ready(arena) && arena.levels[x].numBlocks == old(arena.levels[x].numBlocks)
      invariant forall i | 0 <= i < |LevelBytes(arena, x)| ::
                  LevelBytes(arena, x)[i] == if from <= i < from + n then v else old(LevelBytes(arena, x))[i]
      invariant forall y | 0 <= y < arena.levels.Length && y != x :: LevelBytes(arena, y) == old(LevelBytes(arena, y))
    {
      SetBlock(arena, x, from + n, v);
    }
  }

  // ----- The pages of the trees -----

  /** The position of the last, page-sized level of tree `t`. */
  function LeafLevel(trees: seq<Range<Kind>>, t: nat): nat
    requires t < |trees|
  {
    LevelBase(trees, t) + NumLevels(trees[t].start, trees[t].end) - 1
  }

  lemma LeafShape(trees: seq<Range<Kind>>, t: nat)
    requires t < |trees|
    ensures LeafLevel(trees, t) < |AllShapes(trees)|
    ensures AllShapes(trees)[LeafLevel(trees, t)] == LevelShape(trees[t].start, trees[t].end, 0)
  {
    ShapeAt(trees, t, NumLevels(trees[t].start, trees[t].end) - 1);
  }

  /** Levels of different trees are different. */
  lemma TreesApart(trees: seq<Range<Kind>>, t: nat, u: nat, x: nat, y: nat)
    requires t < u < |trees|
    requires x < LevelBase(trees, t + 1) && LevelBase(trees, u) <= y
    ensures x < y
  {
    BaseMonotone(trees, t + 1, u);
  }

  /** The bytes of the pages of a range. */
  ghost function PageBytes(r: Range<Kind>, taken: set<nat>): (bytes: seq<nat>)
    requires r.start <= r.end
    ensures |bytes| == NumBlocks(r.start, r.end, 0)
  {
    BlocksOrdered(r.start, r.end, 0);
    seq(NumBlocks(r.start, r.end, 0), i requires i >= 0 =>
      if First(r.start, 0) + i in taken then PAGE_UNAVAILABLE else PAGE_AVAILABLE)
  }

  /** The last level of tree `t` shows which of its pages are available. */
  ghost predicate LeafShows(arena: TreeArena, t: nat, taken: set<nat>)
    requires Ready(arena) && t < |arena.trees|
    reads arena, arena.entries, arena.levels, arena.blocks
  {
    LeafShape(arena.trees, t);
    LevelBytes(arena, LeafLevel(arena.trees, t)) == PageBytes(arena.trees[t], taken)
  }

  ghost predicate LeavesShow(arena: TreeArena, taken: set<nat>)
    requires Ready(arena)
    reads arena, arena.entries, arena.levels, arena.blocks
  {
    forall t {:trigger LeafShows(arena, t, taken)} | 0 <= t < |arena.trees| :: LeafShows(arena, t, taken)
  }

  lemma EntryAt(arena: TreeArena, t: nat)
    requires Ready(arena) && t < |arena.trees|
    ensures t < arena.entries.Length
    ensures EntryFits(arena.entries[t], arena.trees, t, |arena.trees|)
    ensures arena.trees[t].start <= arena.trees[t].end
    ensures arena.entries[t].treeLevels + arena.entries[t].numTreeLevels - 1 == LeafLevel(arena.trees, t) < arena.levels.Length
  {
    assert EntryFits(arena.entries[..][t], arena.trees, t, |arena.trees|);
    LeafShape(arena.trees, t);
  }

  /** A tree of whole pages has as many pages as its entry says: one block of the last level for each. */
  lemma EntryCountsPages(arena: TreeArena, t: nat)
    requires Ready(arena) && t < |arena.trees| && WholePages(arena.trees)
    ensures t < arena.entries.Length && LeafLevel(arena.trees, t) < arena.levels.Length
    ensures var e := arena.entries[t];
            && e.numPages * PHYSICAL_PAGE_SIZE == e.endAddress - e.startAddress
            && e.numPages == arena.levels[LeafLevel(arena.trees, t)].numBlocks
  {
    hide AllShapes, LevelBase, NumLevels;
    var r := arena.trees[t];
    EntryAt(arena, t);
    LeafShape(arena.trees, t);
    LevelNumbers(arena, LeafLevel(arena.trees, t));
    WholeEnds(r);
  }

  /** Writing the last level of tree `t` leaves the last levels of the other trees alone. */
  lemma OtherLeaves(trees: seq<Range<Kind>>, t: nat, u: nat)
    requires t < |trees| && u < |trees| && t != u
    ensures LeafLevel(trees, t) != LeafLevel(trees, u)
  {
    ShapeAt(trees, t, NumLevels(trees[t].start, trees[t].end) - 1);
    ShapeAt(trees, u, NumLevels(trees[u].start, trees[u].end) - 1);
    if t < u {
      TreesApart(trees, t, u, LeafLevel(trees, t), LeafLevel(trees, u));
    } else {
      TreesApart(trees, u, t, LeafLevel(trees, u), LeafLevel(trees, t));
    }
  }

  /** Marks every page of every tree available, following the list of trees. */
  method SetAllTreePagesAvailable(arena: TreeArena)
    requires Ready(arena) && |arena.trees| > 0
    modifies arena.levels, arena.blocks
    ensures Ready(arena) && LeavesShow(arena, {})
  {
    hide Ready, LeafLevel, AllShapes, PageBytes;
    ghost var none: set<nat> := {};
    var entry: Option<nat> := Some(0);
    ghost var t := 0;
    while entry.Some?
      invariant Ready(arena) && t <= |arena.trees|
      invariant entry == if t < |arena.trees| then Some(t) else None
      invariant forall u {:trigger LeafShows(arena, u, none)} | 0 <= u < t :: LeafShows(arena, u, none)
      decreases |arena.trees| - t
    {
      var e := entry.value;
      EntryAt(arena, t);
      var last := arena.entries[e].treeLevels + arena.entries[e].numTreeLevels - 1;
      OtherLeavesAll(arena, t);
      label before:
      SetBlocks(arena, last, 0, PAGE_AVAILABLE, arena.levels[last].numBlocks);
      forall u | 0 <= u < t
        ensures LeafShows(arena, u, none)
      {
        assert old@before(LeafShows(arena, u, none));
      }
      LeafFilled(arena, t);
      entry := arena.entries[e].nextEntry;
      t := t + 1;
    }
  }

  lemma OtherLeavesAll(arena: TreeArena, t: nat)
    requires Ready(arena) && t < |arena.trees|
    ensures forall u {:trigger LeafLevel(arena.trees, u)} | 0 <= u < |arena.trees| && u != t ::
              LeafLevel(arena.trees, u) != LeafLevel(arena.trees, t) && LeafLevel(arena.trees, u) < arena.levels.Length
  {
    forall u | 0 <= u < |arena.trees| && u != t
      ensures LeafLevel(arena.trees, u) != LeafLevel(arena.trees, t) && LeafLevel(arena.trees, u) < arena.levels.Length
    {
      OtherLeaves(arena.trees, t, u);
      LeafShape(arena.trees, u);
    }
  }

  lemma LeafFilled(arena: TreeArena, t: nat)
    requires Ready(arena) && t < |arena.trees| && LeafLevel(arena.trees, t) < arena.levels.Length
    requires forall i | 0 <= i < |LevelBytes(arena, LeafLevel(arena.trees, t))| ::
               LevelBytes(arena, LeafLevel(arena.trees, t))[i] == PAGE_AVAILABLE
    ensures LeafShows(arena, t, {})
  {
    LeafShape(arena.trees, t);
    EntryAt(arena, t);
  }

  // ----- Marking used pages -----

  /** Ranges of whole pages. */
  ghost predicate WholePages(rs: seq<Range<Kind>>) {
    forall i | 0 <= i < |rs| :: rs[i].start % PHYSICAL_PAGE_SIZE == 0 && rs[i].end % PHYSICAL_PAGE_SIZE == 0
  }

  /** The pages that a region of memory touches, or lies between. */
  function RegionPages(start: nat, size: nat): set<nat> {
    Interval(start / PHYSICAL_PAGE_SIZE, (start + size + PHYSICAL_PAGE_SIZE - 1) / PHYSICAL_PAGE_SIZE)
  }

  /** A region takes exactly the pages that one of its bytes lies on, the last one even if only in part; a
      region of no bytes takes the page inside which it lies. */
  lemma RegionPagesMeaning(start: nat, size: nat, p: nat)
    ensures size > 0 ==>
              (p in RegionPages(start, size) <==> exists a :: start <= a < start + size && a / PHYSICAL_PAGE_SIZE == p)
    ensures size == 0 ==>
              (p in RegionPages(start, size) <==> start % PHYSICAL_PAGE_SIZE != 0 && start / PHYSICAL_PAGE_SIZE == p)
  {
    if size > 0 && p in RegionPages(start, size) {
      var a := if p == start / PHYSICAL_PAGE_SIZE then start else p * PHYSICAL_PAGE_SIZE;
      assert start <= a < start + size && a / PHYSICAL_PAGE_SIZE == p;
    }
  }

  /** Finds the blocks of a page-sized level that a region covers: the first of them, and how many. */
  method CoveredBlocks(level: TreeLevel, ghost r: Range<Kind>, from: nat, to: nat) returns (iFirstBlock: nat, numMarkBlocks: nat)
    requires r.start <= r.end && r.start % PHYSICAL_PAGE_SIZE == 0 && r.end % PHYSICAL_PAGE_SIZE == 0
    requires from % PHYSICAL_PAGE_SIZE == 0 && to % PHYSICAL_PAGE_SIZE == 0 && from <= to
    requires from < r.end && to > r.start
    requires level.blockSize == PHYSICAL_PAGE_SIZE && level.numBlocks == NumBlocks(r.start, r.end, 0)
    requires level.startMappedAddress == First(r.start, 0) * PHYSICAL_PAGE_SIZE
    ensures iFirstBlock + numMarkBlocks <= level.numBlocks
    ensures Covered(r, from, to, iFirstBlock, numMarkBlocks)
  {
    ghost var first, last, f, t := First(r.start, 0), Last(r.end, 0), from / PHYSICAL_PAGE_SIZE, to / PHYSICAL_PAGE_SIZE;
    WholeEnds(r);
    hide First, Last, Covered;
    var min, max := level.startMappedAddress, level.startMappedAddress + level.numBlocks * level.blockSize;
    assert max == last * PHYSICAL_PAGE_SIZE;
    min := if from > min then from else min;
    max := if to < max then to else max;
    iFirstBlock := (min - level.startMappedAddress) / level.blockSize;
    numMarkBlocks := (max - min) / level.blockSize;
    assert first + iFirstBlock == if f > first then f else first;
    assert first + iFirstBlock + numMarkBlocks == if t < last then t else last;
    CoveredFrom(r, from, to, iFirstBlock, numMarkBlocks);
  }

  /** A range of whole pages begins and ends with a page. */
  lemma WholeEnds(r: Range<Kind>)
    requires r.start % PHYSICAL_PAGE_SIZE == 0 && r.end % PHYSICAL_PAGE_SIZE == 0
    ensures r.start == First(r.start, 0) * PHYSICAL_PAGE_SIZE && r.end == Last(r.end, 0) * PHYSICAL_PAGE_SIZE
  {
    var q := r.end / PHYSICAL_PAGE_SIZE;
    assert r.end == q * PHYSICAL_PAGE_SIZE;
    QuotientUnique(r.end + PHYSICAL_PAGE_SIZE - 1, PHYSICAL_PAGE_SIZE, q, PHYSICAL_PAGE_SIZE - 1);
  }

  lemma CoveredFrom(r: Range<Kind>, from: nat, to: nat, i0: nat, count: nat)
    requires var first, f := First(r.start, 0), from / PHYSICAL_PAGE_SIZE; first + i0 == if f > first then f else first
    requires var last, t := Last(r.end, 0), to / PHYSICAL_PAGE_SIZE;
             First(r.start, 0) + i0 + count == if t < last then t else last
    ensures Covered(r, from, to, i0, count)
  {
    hide First, Last;
  }

  /** Of the pages of a range, those in `[from, to)` are the ones of the given blocks. */
  ghost predicate Covered(r: Range<Kind>, from: nat, to: nat, iFirstBlock: nat, numMarkBlocks: nat) {
    var first := First(r.start, 0);
    forall p: nat :: first <= p < Last(r.end, 0) ==>
      (first + iFirstBlock <= p < first + iFirstBlock + numMarkBlocks
       <==> p in Interval(from / PHYSICAL_PAGE_SIZE, to / PHYSICAL_PAGE_SIZE))
  }

  /** Clearing the blocks of the pages of a region leaves the bytes that show those pages taken too. */
  lemma MarkedBytes(r: Range<Kind>, taken: set<nat>, from: nat, to: nat, i0: nat, count: nat, bytes: seq<nat>)
    requires r.start <= r.end && |bytes| == NumBlocks(r.start, r.end, 0)
    requires forall i | 0 <= i < |bytes| :: bytes[i] == if i0 <= i < i0 + count then PAGE_UNAVAILABLE else PageBytes(r, taken)[i]
    requires Covered(r, from, to, i0, count)
    ensures bytes == PageBytes(r, taken + Interval(from / PHYSICAL_PAGE_SIZE, to / PHYSICAL_PAGE_SIZE))
  {
    hide First, Last, Interval;
    var more := Interval(from / PHYSICAL_PAGE_SIZE, to / PHYSICAL_PAGE_SIZE);
    forall i | 0 <= i < |bytes|
      ensures bytes[i] == PageBytes(r, taken + more)[i]
    {
      var p := First(r.start, 0) + i;
      assert p in more <==> i0 <= i < i0 + count;
    }
  }

  lemma UntouchedTree(r: Range<Kind>, from: nat, to: nat, taken: set<nat>)
    requires r.start <= r.end && r.start % PHYSICAL_PAGE_SIZE == 0 && r.end % PHYSICAL_PAGE_SIZE == 0
    requires from % PHYSICAL_PAGE_SIZE == 0 && to % PHYSICAL_PAGE_SIZE == 0
    requires !(from < r.end && to > r.start)
    ensures PageBytes(r, taken + Interval(from / PHYSICAL_PAGE_SIZE, to / PHYSICAL_PAGE_SIZE)) == PageBytes(r, taken)
  {
  }

  /** Marks the pages of one tree that lie in `[from, to)`. */
  method MarkTree(arena: TreeArena, t: nat, from: nat, to: nat, ghost taken: set<nat>)
    requires Ready(arena) && t < |arena.trees| && WholePages(arena.trees)
    requires from % PHYSICAL_PAGE_SIZE == 0 && to % PHYSICAL_PAGE_SIZE == 0 && from <= to
    requires LeafShows(arena, t, taken)
    modifies arena.levels, arena.blocks
    ensures Ready(arena)
    ensures LeafShows(arena, t, taken + Interval(from / PHYSICAL_PAGE_SIZE, to / PHYSICAL_PAGE_SIZE))
    ensures forall x | 0 <= x < arena.levels.Length && x != LeafLevel(arena.trees, t) :: LevelBytes(arena, x) == old(LevelBytes(arena, x))
  {
    hide Ready, LeafLevel, AllShapes, PageBytes, Interval, First, Last, BlockSize, Covered;
    EntryAt(arena, t);
    LeafShape(arena.trees, t);
    ghost var r := arena.trees[t];
    var entry := arena.entries[t];
    if from < entry.endAddress && to > entry.startAddress {
      var last := entry.treeLevels + entry.numTreeLevels - 1;
      LevelNumbers(arena, last);
      BlockSizeStep(0);
      var iFirstBlock, numMarkBlocks := CoveredBlocks(arena.levels[last], r, from, to);
      SetBlocks(arena, last, iFirstBlock, PAGE_UNAVAILABLE, numMarkBlocks);
      MarkedBytes(r, taken, from, to, iFirstBlock, numMarkBlocks, LevelBytes(arena, last));
    } else {
      UntouchedTree(r, from, to, taken);
    }
  }

  /** Marks the pages of a region of memory unavailable in whichever trees hold them. */
  method MarkUsedTreePages(arena: TreeArena, regionStart: nat, regionSize: nat, ghost taken: set<nat>)
    requires Ready(arena) && |arena.trees| > 0 && WholePages(arena.trees)
    requires LeavesShow(arena, taken)
    modifies arena.levels, arena.blocks
    ensures Ready(arena) && LeavesShow(arena, taken + RegionPages(regionStart, regionSize))
  {
    hide Ready, LeafLevel, AllShapes, PageBytes, WholePages, Interval;
    var startAddress := (regionStart / PHYSICAL_PAGE_SIZE) * PHYSICAL_PAGE_SIZE;
    var endAddress := ((regionStart + regionSize + PHYSICAL_PAGE_SIZE - 1) / PHYSICAL_PAGE_SIZE) * PHYSICAL_PAGE_SIZE;
    RegionAligned(regionStart, regionSize);
    ghost var more := taken + RegionPages(regionStart, regionSize);
    var entry: Option<nat> := Some(0);
    ghost var t := 0;
    while entry.Some?
      invariant Ready(arena) && t <= |arena.trees|
      invariant entry == if t < |arena.trees| then Some(t) else None
      invariant forall u {:trigger LeafShows(arena, u, more)} | 0 <= u < t :: LeafShows(arena, u, more)
      invariant forall u {:trigger LeafShows(arena, u, taken)} | t <= u < |arena.trees| :: LeafShows(arena, u, taken)
      decreases |arena.trees| - t
    {
      EntryAt(arena, t);
      OtherLeavesAll(arena, t);
      assert LeafShows(arena, t, taken);
      label before:
      MarkTree(arena, entry.value, startAddress, endAddress, taken);
      forall u | 0 <= u < t
        ensures LeafShows(arena, u, more)
      {
        assert old@before(LeafShows(arena, u, more));
      }
      forall u | t < u < |arena.trees|
        ensures LeafShows(arena, u, taken)
      {
        assert old@before(LeafShows(arena, u, taken));
      }
      entry := arena.entries[entry.value].nextEntry;
      t := t + 1;
    }
  }

  lemma RegionAligned(start: nat, size: nat)
    ensures var from := (start / PHYSICAL_PAGE_SIZE) * PHYSICAL_PAGE_SIZE;
            var to := ((start + size + PHYSICAL_PAGE_SIZE - 1) / PHYSICAL_PAGE_SIZE) * PHYSICAL_PAGE_SIZE;
            && from % PHYSICAL_PAGE_SIZE == 0 && to % PHYSICAL_PAGE_SIZE == 0 && from <= to
            && Interval(from / PHYSICAL_PAGE_SIZE, to / PHYSICAL_PAGE_SIZE) == RegionPages(start, size)
  {
  }
}
