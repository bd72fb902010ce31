/** Computing the levels above the pages, each from the level below it, and what the finished trees
    say about the availability of pages. */
module TreeAccel {
  import opened Wrappers
  import opened WordOps
  import opened RangeLists
  import opened PhysicalMemory
  import opened TreeGeometry
  import opened TreeSummary
  import opened TreeLayout
  import opened PhysicalMemTree
  import opened TreeMarking

  /** The available pages of a range. */
  ghost function AvailableIn(r: Range<Kind>, taken: set<nat>): iset<nat> {
    iset p: nat | p !in taken && First(r.start, 0) <= p < Last(r.end, 0)
  }

  /** The summary bytes of the blocks that a range has at height `h`. */
  ghost function SummaryBytes(r: Range<Kind>, taken: set<nat>, h: nat): (bytes: seq<nat>)
    requires r.start <= r.end
    ensures |bytes| == NumBlocks(r.start, r.end, h)
  {
    BlocksOrdered(r.start, r.end, h);
    seq<nat>(NumBlocks(r.start, r.end, h), i requires i >= 0 => Summary(AvailableIn(r, taken), h, First(r.start, h) + i))
  }

  lemma LeafSummaries(r: Range<Kind>, taken: set<nat>)
    requires r.start <= r.end
    ensures SummaryBytes(r, taken, 0) == PageBytes(r, taken)
  {
    forall i | 0 <= i < NumBlocks(r.start, r.end, 0)
      ensures SummaryBytes(r, taken, 0)[i] == PageBytes(r, taken)[i]
    {
      assert First(r.start, 0) + i in AvailableIn(r, taken) <==> First(r.start, 0) + i !in taken;
    }
  }

  /** The position of the level at height `h` of tree `t`. */
  function LevelAt(trees: seq<Range<Kind>>, t: nat, h: nat): nat
    requires t < |trees| && h < NumLevels(trees[t].start, trees[t].end)
  {
    LevelBase(trees, t) + NumLevels(trees[t].start, trees[t].end) - 1 - h
  }

  lemma LevelAtShape(trees: seq<Range<Kind>>, t: nat, h: nat)
    requires t < |trees| && h < NumLevels(trees[t].start, trees[t].end)
    ensures LevelAt(trees, t, h) < |AllShapes(trees)|
    ensures AllShapes(trees)[LevelAt(trees, t, h)] == LevelShape(trees[t].start, trees[t].end, h)
  {
    hide AllShapes, NumLevels, LevelBase;
    ShapeAt(trees, t, NumLevels(trees[t].start, trees[t].end) - 1 - h);
  }

  /** The level at height `h` of tree `t` shows the summaries of its blocks. */
  ghost predicate LevelShows(arena: TreeArena, t: nat, h: nat, taken: set<nat>)
    requires Ready(arena) && t < |arena.trees|
    reads arena, arena.entries, arena.levels, arena.blocks
  {
    && h < NumLevels(arena.trees[t].start, arena.trees[t].end)
    && arena.trees[t].start <= arena.trees[t].end
    && LevelAt(arena.trees, t, h) < arena.levels.Length
    && LevelBytes(arena, LevelAt(arena.trees, t, h)) == SummaryBytes(arena.trees[t], taken, h)
  }

  /** The byte of a block below, or 0 where the level below has no such block. */
  lemma ChildState(r: Range<Kind>, taken: set<nat>, h: nat, g: nat)
    requires r.start <= r.end
    ensures First(r.start, h) <= g < Last(r.end, h) ==>
              0 <= g - First(r.start, h) < |SummaryBytes(r, taken, h)|
              && SummaryBytes(r, taken, h)[g - First(r.start, h)] == Summary(AvailableIn(r, taken), h, g)
    ensures !(First(r.start, h) <= g < Last(r.end, h)) ==> Summary(AvailableIn(r, taken), h, g) == 0
  {
    if !(First(r.start, h) <= g < Last(r.end, h)) {
      OutsideRange(AvailableIn(r, taken), r.start, r.end, h, g);
    }
  }

  /** The first child of the first block, counted from the first block below. */
  lemma ChildOffset(r: Range<Kind>, h: nat)
    ensures First(r.start, h) * BlockSize(h) >= First(r.start, h + 1) * BlockSize(h + 1)
    ensures (First(r.start, h) * BlockSize(h) - First(r.start, h + 1) * BlockSize(h + 1)) / BlockSize(h)
            == First(r.start, h) - 2 * First(r.start, h + 1)
    ensures 0 <= First(r.start, h) - 2 * First(r.start, h + 1) <= 1
  {
    var f, g, b := First(r.start, h), First(r.start, h + 1), BlockSize(h);
    assert g * (2 * b) == (2 * g) * b;
    ScaledDifference(2 * g, f, b);
  }

  lemma SetLowBit(v: nat)
    ensures BitOr(v, 1) == if v % 2 == 0 then v + 1 else v
  {
    BitOrStep(v, 1);
    BitOrZero(v / 2);
  }

  /** Reads the byte of child `iNext` of a level, counted from the first child of the level above. */
  method ReadChild(arena: TreeArena, next: nat, iNext: nat, minNextOffset: nat, numNextBlocks: nat,
                   ghost t: nat, ghost h: nat, ghost taken: set<nat>)
    returns (state: nat)
    requires Ready(arena) && t < |arena.trees| && LevelShows(arena, t, h, taken)
    requires next == LevelAt(arena.trees, t, h) && numNextBlocks == arena.levels[next].numBlocks
    requires minNextOffset == First(arena.trees[t].start, h) - 2 * First(arena.trees[t].start, h + 1)
    ensures state == Summary(AvailableIn(arena.trees[t], taken), h, 2 * First(arena.trees[t].start, h + 1) + iNext)
  {
    hide Ready, Summary, SummaryBytes, AvailableIn, First, Last;
    ghost var r := arena.trees[t];
    ChildState(r, taken, h, 2 * First(r.start, h + 1) + iNext);
    state := 0;
    if iNext >= minNextOffset && iNext < minNextOffset + numNextBlocks {
      state := GetBlock(arena, next, iNext - minNextOffset);
    }
  }

  /** Combines the bytes of both children of block `i` of a level. */
  method CombineChildren(arena: TreeArena, next: nat, i: nat, minNextOffset: nat, numNextBlocks: nat,
                         ghost t: nat, ghost h: nat, ghost taken: set<nat>)
    returns (result: nat)
    requires Ready(arena) && t < |arena.trees| && LevelShows(arena, t, h, taken)
    requires next == LevelAt(arena.trees, t, h) && numNextBlocks == arena.levels[next].numBlocks
    requires minNextOffset == First(arena.trees[t].start, h) - 2 * First(arena.trees[t].start, h + 1)
    ensures result == Summary(AvailableIn(arena.trees[t], taken), h + 1, First(arena.trees[t].start, h + 1) + i)
  {
    hide Ready, LevelShows, BitOr, Summary, AvailableIn, First, Combine;
    var state0 := ReadChild(arena, next, i * 2, minNextOffset, numNextBlocks, t, h, taken);
    var state1 := ReadChild(arena, next, i * 2 + 1, minNextOffset, numNextBlocks, t, h, taken);
    SummaryStep(AvailableIn(arena.trees[t], taken), h + 1, First(arena.trees[t].start, h + 1) + i);
    CombineBounds(state0, state1);
    SetLowBit(state0 / 2 + state1 / 2);
    result := state0 / 2 + state1 / 2;
    if state0 % 2 != 0 || state1 % 2 != 0 {
      result := BitOr(result, 1);
    }
    CombineIs(state0, state1, result);
  }

  /** Computes the level above height `h` of a tree from the level at height `h`. */
  method FillTreeLevelAccelBlocks(arena: TreeArena, t: nat, iLevel: nat, ghost h: nat, ghost taken: set<nat>)
    requires Ready(arena) && t < |arena.trees| && LevelShows(arena, t, h, taken)
    requires h + 1 < NumLevels(arena.trees[t].start, arena.trees[t].end)
    requires iLevel == NumLevels(arena.trees[t].start, arena.trees[t].end) - 1 - (h + 1)
    modifies arena.levels, arena.blocks
    ensures Ready(arena) && LevelShows(arena, t, h + 1, taken)
    ensures forall x | 0 <= x < arena.levels.Length && x != LevelAt(arena.trees, t, h + 1) ::
              LevelBytes(arena, x) == old(LevelBytes(arena, x))
  {
    hide Ready, AllShapes, SummaryBytes, Summary, AvailableIn, First, Last, BlockSize, LevelBase, NumLevels, Combine;
    ghost var r := arena.trees[t];
    EntryAt(arena, t);
    LevelAtShape(arena.trees, t, h + 1);
    LevelAtShape(arena.trees, t, h);
    var level := arena.entries[t].treeLevels + iLevel;
    var next := level + 1;
    LevelNumbers(arena, level);
    LevelNumbers(arena, next);
    ChildOffset(r, h);
    var numBlocks := arena.levels[level].numBlocks;
    var numNextBlocks := arena.levels[next].numBlocks;
    var minNextOffset := (arena.levels[next].startMappedAddress - arena.levels[level].startMappedAddress)
                         / arena.levels[next].blockSize;
    for i := 0 to numBlocks
      invariant Ready(arena) && LevelShows(arena, t, h, taken)
      invariant arena.levels[level].numBlocks == numBlocks && arena.levels[next].numBlocks == numNextBlocks
      invariant forall x | 0 <= x < arena.levels.Length && x != level :: LevelBytes(arena, x) == old(LevelBytes(arena, x))
      invariant forall j | 0 <= j < i :: LevelBytes(arena, level)[j] == SummaryBytes(r, taken, h + 1)[j]
    {
      var result := CombineChildren(arena, next, i, minNextOffset, numNextBlocks, t, h, taken);
      SummaryAt(r, taken, h + 1, i);
      SetBlock(arena, level, i, result);
    }
  }

  lemma CombineIs(state0: nat, state1: nat, result: nat)
    requires var sum := state0 / 2 + state1 / 2;
             result == if state0 % 2 != 0 || state1 % 2 != 0 then (if sum % 2 == 0 then sum + 1 else sum) else sum
    ensures result == Combine(state0, state1)
  {
  }

  lemma SummaryAt(r: Range<Kind>, taken: set<nat>, h: nat, i: nat)
    requires r.start <= r.end && i < NumBlocks(r.start, r.end, h)
    ensures SummaryBytes(r, taken, h)[i] == Summary(AvailableIn(r, taken), h, First(r.start, h) + i)
  {
  }

  // ----- All levels of all trees -----

  /** Every level of tree `t` up to height `h` shows the summaries of its blocks. */
  ghost predicate TreeShows(arena: TreeArena, t: nat, h: nat, taken: set<nat>)
    requires Ready(arena) && t < |arena.trees|
    reads arena, arena.entries, arena.levels, arena.blocks
  {
    forall i {:trigger LevelShows(arena, t, i, taken)} | 0 <= i <= h :: LevelShows(arena, t, i, taken)
  }

  /** Computes all levels above the pages of one tree, from the bottom up. */
  method FillTree(arena: TreeArena, t: nat, ghost taken: set<nat>)
    requires Ready(arena) && t < |arena.trees| && LevelShows(arena, t, 0, taken)
    modifies arena.levels, arena.blocks
    ensures Ready(arena) && TreeShows(arena, t, NumLevels(arena.trees[t].start, arena.trees[t].end) - 1, taken)
    ensures forall x | 0 <= x < arena.levels.Length && !(LevelBase(arena.trees, t) <= x < LevelBase(arena.trees, t + 1)) ::
              LevelBytes(arena, x) == old(LevelBytes(arena, x))
  {
    hide Ready, AllShapes, SummaryBytes, LevelBase, NumLevels;
    EntryAt(arena, t);
    LevelsOfTree(arena.trees, t);
    var numLevels := arena.entries[t].numTreeLevels;
    assert numLevels == NumLevels(arena.trees[t].start, arena.trees[t].end) >= 1 by { AtLeastOneLevel(arena.trees[t]); }
    for i := 1 to numLevels
      invariant Ready(arena) && TreeShows(arena, t, i - 1, taken)
      invariant forall x | 0 <= x < arena.levels.Length && !(LevelBase(arena.trees, t) <= x < LevelBase(arena.trees, t + 1)) ::
                  LevelBytes(arena, x) == old(LevelBytes(arena, x))
    {
      var iLevel := numLevels - i - 1;
      assert LevelShows(arena, t, i - 1, taken);
      label before:
      FillTreeLevelAccelBlocks(arena, t, iLevel, i - 1, taken);
      forall j | 0 <= j < i
        ensures LevelShows(arena, t, j, taken)
      {
        assert old@before(LevelShows(arena, t, j, taken));
      }
    }
  }

  lemma AtLeastOneLevel(r: Range<Kind>)
    ensures NumLevels(r.start, r.end) >= 1
  {
  }

  /** Every level of every tree shows the summaries of its blocks. */
  ghost predicate TreesShow(arena: TreeArena, taken: set<nat>)
    requires Ready(arena)
    reads arena, arena.entries, arena.levels, arena.blocks
  {
    forall t {:trigger WholeTreeShows(arena, t, taken)} | 0 <= t < |arena.trees| :: WholeTreeShows(arena, t, taken)
  }

  ghost predicate WholeTreeShows(arena: TreeArena, t: nat, taken: set<nat>)
    requires Ready(arena) && t < |arena.trees|
    reads arena, arena.entries, arena.levels, arena.blocks
  {
    TreeShows(arena, t, NumLevels(arena.trees[t].start, arena.trees[t].end) - 1, taken)
  }

  lemma LeafIsLevel(arena: TreeArena, t: nat, taken: set<nat>)
    requires Ready(arena) && t < |arena.trees| && LeafShows(arena, t, taken)
    ensures LevelShows(arena, t, 0, taken)
  {
    EntryAt(arena, t);
    LeafSummaries(arena.trees[t], taken);
  }

  /** The levels of other trees lie elsewhere. */
  lemma OtherTree(trees: seq<Range<Kind>>, t: nat, u: nat, h: nat)
    requires t < |trees| && u < |trees| && t != u && h < NumLevels(trees[u].start, trees[u].end)
    ensures !(LevelBase(trees, t) <= LevelAt(trees, u, h) < LevelBase(trees, t + 1))
  {
    ShapeAt(trees, u, NumLevels(trees[u].start, trees[u].end) - 1 - h);
    if t < u {
      BaseMonotone(trees, t + 1, u);
    } else {
      BaseMonotone(trees, u + 1, t);
    }
  }

  /** Computes the levels above the pages of every tree, following the list of trees. */
  method FillTreeAccelBlocks(arena: TreeArena, ghost taken: set<nat>)
    requires Ready(arena) && |arena.trees| > 0 && LeavesShow(arena, taken)
    modifies arena.levels, arena.blocks
    ensures Ready(arena) && TreesShow(arena, taken)
  {
    hide Ready, AllShapes, SummaryBytes, LevelBase, NumLevels, LevelAt;
    var entry: Option<nat> := Some(0);
    ghost var t := 0;
    forall u | 0 <= u < |arena.trees|
      ensures LevelShows(arena, u, 0, taken)
    {
      assert LeafShows(arena, u, taken);
      LeafIsLevel(arena, u, taken);
    }
    while entry.Some?
      invariant Ready(arena) && t <= |arena.trees|
      invariant entry == if t < |arena.trees| then Some(t) else None
      invariant forall u {:trigger WholeTreeShows(arena, u, taken)} | 0 <= u < t :: WholeTreeShows(arena, u, taken)
      invariant forall u {:trigger LevelShows(arena, u, 0, taken)} | t <= u < |arena.trees| :: LevelShows(arena, u, 0, taken)
      decreases |arena.trees| - t
    {
      EntryAt(arena, t);
      assert LevelShows(arena, t, 0, taken);
      label before:
      FillTree(arena, entry.value, taken);
      forall u | 0 <= u < t
        ensures WholeTreeShows(arena, u, taken)
      {
        forall i | 0 <= i < NumLevels(arena.trees[u].start, arena.trees[u].end)
          ensures LevelShows(arena, u, i, taken)
        {
          OtherTree(arena.trees, t, u, i);
          assert old@before(WholeTreeShows(arena, u, taken)) && old@before(LevelShows(arena, u, i, taken));
        }
      }
      forall u | t < u < |arena.trees|
        ensures LevelShows(arena, u, 0, taken)
      {
        assert old@before(LevelShows(arena, u, 0, taken));
        OtherTree(arena.trees, t, u, 0);
      }
      entry := arena.entries[entry.value].nextEntry;
      t := t + 1;
    }
  }

  // ----- What the finished trees say -----

  /** The byte of block `g` at height `h` of tree `t`. */
  ghost function BlockByte(arena: TreeArena, t: nat, h: nat, g: nat): nat
    requires Ready(arena) && t < |arena.trees| && h < NumLevels(arena.trees[t].start, arena.trees[t].end)
    requires First(arena.trees[t].start, h) <= g < Last(arena.trees[t].end, h)
    reads arena, arena.entries, arena.levels, arena.blocks
  {
    LevelAtShape(arena.trees, t, h);
    LevelBytes(arena, LevelAt(arena.trees, t, h))[g - First(arena.trees[t].start, h)]
  }

  /** In finished trees, the byte of every block of every level agrees with the pages below it: it is
      non-zero when some page is available, says full when all are, is exact up to seven levels above
      the pages, and is off by at most one 128th for each level above that. */
  lemma IndexAgrees(arena: TreeArena, taken: set<nat>, t: nat, h: nat, g: nat)
    requires Ready(arena) && TreesShow(arena, taken)
    requires t < |arena.trees| && h < NumLevels(arena.trees[t].start, arena.trees[t].end)
    requires First(arena.trees[t].start, h) <= g < Last(arena.trees[t].end, h)
    ensures var available := AvailableIn(arena.trees[t], taken);
            var byte := BlockByte(arena, t, h, g);
            && (byte != 0 <==> exists p: nat :: Spans(h, g, p) && p in available)
            && (byte == 128 <==> forall p: nat | Spans(h, g, p) :: p in available)
            && (h <= 7 ==> byte == |AvailablePages(available, h, g)| * Power2(7 - h))
            && (h >= 7 ==> Close(byte, |AvailablePages(available, h, g)|, h))
            && byte <= 128
  {
    hide Ready, AvailableIn, Summary, Count, Close, InBlock, SummaryBytes, AvailablePages, Spans;
    assert WholeTreeShows(arena, t, taken) && LevelShows(arena, t, h, taken);
    SummaryAt(arena.trees[t], taken, h, g - First(arena.trees[t].start, h));
    SummaryMeans(AvailableIn(arena.trees[t], taken), h, g, BlockByte(arena, t, h, g));
    CountMeans(AvailableIn(arena.trees[t], taken), h, g);
    forall p: nat ensures Spans(h, g, p) <==> InBlock(p, h, g) { SpansMeans(h, g, p); }
  }

  lemma SpansMeans(h: nat, g: nat, p: nat)
    ensures Spans(h, g, p) <==> InBlock(p, h, g)
  {
    hide InBlock;
    InBlockMeans(p, h, g);
  }

  lemma SummaryMeans(available: iset<nat>, h: nat, g: nat, byte: nat)
    requires byte == Summary(available, h, g)
    ensures byte != 0 <==> exists p: nat :: InBlock(p, h, g) && p in available
    ensures byte == 128 <==> forall p: nat | InBlock(p, h, g) :: p in available
    ensures h <= 7 ==> byte == Count(available, h, g) * Power2(7 - h)
    ensures h >= 7 ==> Close(byte, Count(available, h, g), h)
    ensures byte <= 128
  {
    hide Summary, Count, Close, InBlock;
    SummaryNonZero(available, h, g);
    SummaryFull(available, h, g);
    SummaryBound(available, h, g);
    if h <= 7 { SummaryExact(available, h, g); }
    if h >= 7 { SummaryClose(available, h, g); }
  }

  lemma SummaryBound(available: iset<nat>, h: nat, g: nat)
    ensures Summary(available, h, g) <= 128
  {
  }
}
