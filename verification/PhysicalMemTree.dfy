/** Creating the physical memory trees: a pass that counts what they need, then a pass that lays them
    out in arrays of exactly the counted sizes. */
module PhysicalMemTree {
  import opened Wrappers
  import opened RangeLists
  import opened MemoryUnits
  import opened PhysicalMemory
  import opened Division
  import opened TreeGeometry
  import opened TreeWrapping
  import opened TreeLayout

  predicate ShouldCreateTreeForType(t: MemoryType) { t == Usable || t == UsablePersistent }

  /** The ranges that get a tree. */
  function Trees(rs: seq<Range<Kind>>): seq<Range<Kind>> {
    if rs == [] then []
    else
      var n := |rs| - 1;
      Trees(rs[..n]) + (if ShouldCreateTreeForType(rs[n].kind.memoryType) then [rs[n]] else [])
  }

  lemma TreesStep(rs: seq<Range<Kind>>, i: nat)
    requires i < |rs|
    ensures Trees(rs[..i + 1]) ==
            Trees(rs[..i]) + (if ShouldCreateTreeForType(rs[i].kind.memoryType) then [rs[i]] else [])
  {
    assert rs[..i + 1][..i] == rs[..i];
  }

  ghost predicate Forward(rs: seq<Range<Kind>>) {
    forall i | 0 <= i < |rs| :: rs[i].start <= rs[i].end <= TREE_LIMIT
  }

  lemma {:induction false} TreesForward(rs: seq<Range<Kind>>)
    requires Forward(rs)
    ensures Forward(Trees(rs))
  {
    if rs != [] {
      TreesForward(rs[..|rs| - 1]);
    }
  }

  // ----- Counting -----

  datatype SizeData = SizeData(numTreeEntries: nat, numTreeLevelStructs: nat, totalBlocksSize: nat)

  /** What trees for the given ranges need. */
  ghost function SizeFor(trees: seq<Range<Kind>>): SizeData {
    SizeData(|trees|, |AllShapes(trees)|, Offset(AllShapes(trees), |AllShapes(trees)|))
  }

  /** Bytes of the shared array for the levels below height `h`. */
  ghost function OutBelow(start: nat, end: nat, h: nat): nat {
    if h == 0 then 0 else OutBelow(start, end, h - 1) + LevelShape(start, end, h - 1).OutSize()
  }

  /** Counting the levels from the pages up or from the root down takes the same bytes. */
  lemma {:induction false} OutReversed(start: nat, end: nat, l: nat)
    requires l <= NumLevels(start, end)
    ensures Offset(Shapes(start, end), l) + OutBelow(start, end, NumLevels(start, end) - l)
            == OutBelow(start, end, NumLevels(start, end))
  {
    hide LevelShape.OutSize, NumLevels;
    if l > 0 {
      OutReversed(start, end, l - 1);
      OffsetStep(Shapes(start, end), l - 1);
    }
  }

  lemma {:induction false} OffsetAppend(a: seq<LevelShape>, b: seq<LevelShape>, x: nat)
    requires x <= |b|
    ensures Offset(a + b, |a| + x) == Offset(a, |a|) + Offset(b, x)
  {
    hide LevelShape.OutSize;
    if x == 0 {
      OffsetPrefix(a, a + b, |a|);
    } else {
      OffsetAppend(a, b, x - 1);
      assert (a + b)[|a| + x - 1] == b[x - 1];
    }
  }

  lemma SizeStep(trees: seq<Range<Kind>>, r: Range<Kind>)
    ensures var L := NumLevels(r.start, r.end);
            SizeFor(trees + [r]) == SizeData(SizeFor(trees).numTreeEntries + 1, SizeFor(trees).numTreeLevelStructs + L,
                                             SizeFor(trees).totalBlocksSize + OutBelow(r.start, r.end, L))
  {
    assert (trees + [r])[..|trees|] == trees;
    OffsetAppend(AllShapes(trees), Shapes(r.start, r.end), NumLevels(r.start, r.end));
    OutReversed(r.start, r.end, NumLevels(r.start, r.end));
  }

  /** Rounding once more gives the blocks of the next height. */
  lemma RoundedBlocks(start: nat, end: nat, h: nat)
    requires start <= end
    ensures var min := RoundDown(if h == 0 then start else MinMapped(start, h - 1), BlockSize(h));
            var max := RoundUp(if h == 0 then end else MaxMapped(end, h - 1), BlockSize(h));
            && min == MinMapped(start, h) == First(start, h) * BlockSize(h)
            && max == MaxMapped(end, h)
            && min <= max && (max - min) / BlockSize(h) == NumBlocks(start, end, h)
  {
    hide BlockSize, First, Last;
    MappedIsBlocks(start, end, h);
    BlocksOrdered(start, end, h);
    ScaledDifference(First(start, h), Last(end, h), BlockSize(h));
  }

  lemma ScaledDifference(a: nat, c: nat, b: nat)
    requires b > 0 && a <= c
    ensures a * b <= c * b && (c * b - a * b) / b == c - a
  {
    assert c * b == a * b + (c - a) * b;
    QuotientUnique(c * b - a * b, b, c - a, 0);
  }

  lemma RootIs(start: nat, end: nat, h: nat)
    requires NumBlocks(start, end, h) <= 1
    requires forall i | 0 <= i < h :: NumBlocks(start, end, i) > 1
    ensures NumLevels(start, end) == h + 1
  {
    hide NumBlocks;
    var r := RootHeight(start, end, 0);
    assert NumBlocks(start, end, r) <= 1;
  }

  /** The levels below the root's have two blocks or more. */
  lemma BelowRoot(start: nat, end: nat, h: nat)
    requires h + 1 < NumLevels(start, end)
    ensures NumBlocks(start, end, h) >= 2
  {
  }

  /** Counts the levels of one tree, and the bytes of the shared array that they need. */
  method CalcTreeEntryElements(r: Range<Kind>, size: SizeData) returns (size': SizeData)
    requires r.start <= r.end <= TREE_LIMIT
    ensures size' == if !ShouldCreateTreeForType(r.kind.memoryType) then size
                     else SizeData(size.numTreeEntries + 1, size.numTreeLevelStructs + NumLevels(r.start, r.end),
                                   size.totalBlocksSize + OutBelow(r.start, r.end, NumLevels(r.start, r.end)))
  {
    hide NumLevels, NumBlocks, RoundDown, RoundUp, BlockSize;
    if !ShouldCreateTreeForType(r.kind.memoryType) {
      return size;
    }
    size' := size.(numTreeEntries := size.numTreeEntries + 1);
    var blockSize := PHYSICAL_PAGE_SIZE;
    var min, max := r.start, r.end;
    ghost var h := 0;
    ghost var done := false;
    BlockSizeStep(0);
    while true
      invariant blockSize == BlockSize(h)
      invariant min == if h == 0 then r.start else MinMapped(r.start, h - 1)
      invariant max == if h == 0 then r.end else MaxMapped(r.end, h - 1)
      invariant forall i | 0 <= i < h :: NumBlocks(r.start, r.end, i) > 1
      invariant size' == SizeData(size.numTreeEntries + 1, size.numTreeLevelStructs + h,
                                  size.totalBlocksSize + OutBelow(r.start, r.end, h))
      decreases Last(r.end, h)
    {
      RoundedBlocks(r.start, r.end, h);
      FitsIn64Bits(r.start, r.end, h);
      assert max + blockSize - 1 < ADDRESS_LIMIT;
      size' := size'.(numTreeLevelStructs := size'.numTreeLevelStructs + 1);
      min := RoundDown(min, blockSize);
      max := RoundUp(max, blockSize);
      var numBlocks := (max - min) / blockSize;
      if numBlocks > IN_PLACE_BLOCKS {
        size' := size'.(totalBlocksSize := size'.totalBlocksSize + numBlocks);
      }
      assert LevelShape(r.start, r.end, h).Blocks() == numBlocks;
      if numBlocks <= 1 {
        RootIs(r.start, r.end, h);
        return;
      }
      BlockSizeStep(h);
      LastFalls(r.start, r.end, h);
      assert blockSize * 2 < ADDRESS_LIMIT;
      blockSize := blockSize * 2;
      h := h + 1;
    }
  }

  lemma LastFalls(start: nat, end: nat, h: nat)
    requires NumBlocks(start, end, h) > 1
    ensures Last(end, h + 1) < Last(end, h)
  {
  }

  /** The counting pass over all merged ranges. */
  method GetPhysicalMemTreeSize(rs: seq<Range<Kind>>) returns (size: SizeData)
    requires Forward(rs)
    ensures size == SizeFor(Trees(rs))
  {
    hide SizeFor, OutBelow, NumLevels;
    size := SizeData(0, 0, 0);
    SizeOfNone();
    for i := 0 to |rs|
      invariant size == SizeFor(Trees(rs[..i]))
    {
      TreesStep(rs, i);
      assert Trees(rs[..i]) + [] == Trees(rs[..i]);
      SizeStep(Trees(rs[..i]), rs[i]);
      size := CalcTreeEntryElements(rs[i], size);
    }
    assert rs[..|rs|] == rs;
  }

  lemma SizeOfNone()
    ensures SizeFor([]) == SizeData(0, 0, 0)
  {
  }

  // ----- Laying the trees out -----

  datatype TreeEntry = TreeEntry(
    kind: Kind,
    startAddress: nat,
    endAddress: nat,
    numPages: nat,
    treeLevels: nat,
    numTreeLevels: nat,
    nextEntry: Option<nat>)

  /** Entry `t` describes tree `t` and leads on to the next one, of `count` in all. */
  ghost predicate EntryFits(e: TreeEntry, trees: seq<Range<Kind>>, t: nat, count: nat)
    requires t < |trees|
  {
    && e.kind == trees[t].kind
    && e.startAddress == trees[t].start && e.endAddress == trees[t].end
    && e.numPages == (if trees[t].start <= trees[t].end then (trees[t].end - trees[t].start) / PHYSICAL_PAGE_SIZE else 0)
    && e.treeLevels == LevelBase(trees, t)
    && e.numTreeLevels == NumLevels(trees[t].start, trees[t].end)
    && e.nextEntry == (if t + 1 < count then Some(t + 1) else None)
  }

  ghost predicate EntriesFit(entries: seq<TreeEntry>, trees: seq<Range<Kind>>, count: nat) {
    && count <= |entries| && count <= |trees|
    && forall t {:trigger EntryFits(entries[t], trees, t, count)} | 0 <= t < count :: EntryFits(entries[t], trees, t, count)
  }

  /** The level structure describes the right blocks, wherever they are kept. */
  predicate ShapeSet(level: TreeLevel, shape: LevelShape) {
    && level.startMappedAddress == shape.FirstBlock() * BlockSize(shape.height)
    && level.blockSize == BlockSize(shape.height)
    && level.numBlocks == shape.Blocks()
  }

  lemma ShapeIsSet(level: TreeLevel, start: nat, end: nat, h: nat)
    requires level.startMappedAddress == First(start, h) * BlockSize(h)
    requires level.blockSize == BlockSize(h) && level.numBlocks == NumBlocks(start, end, h)
    ensures ShapeSet(level, LevelShape(start, end, h))
  {
  }

  /** A level is in place, with all its blocks cleared. */
  ghost predicate Cleared(levels: seq<TreeLevel>, shapes: seq<LevelShape>, x: nat)
    requires x < |levels| && x < |shapes|
  {
    && LevelFits(levels, shapes, x)
    && (levels[x].blocks.InPlace? ==> levels[x].blocks.bytes == seq(IN_PLACE_BLOCKS, _ => 0))
  }

  /** The first `n` levels are in place, with all their blocks cleared. */
  ghost predicate LevelsReady(levels: seq<TreeLevel>, blocks: seq<nat>, shapes: seq<LevelShape>, n: nat) {
    && n <= |levels| == |shapes|
    && |blocks| == Offset(shapes, |shapes|)
    && (forall x {:trigger Cleared(levels, shapes, x)} | 0 <= x < n :: Cleared(levels, shapes, x))
    && (forall j | 0 <= j < |blocks| && j < Offset(shapes, n) :: blocks[j] == 0)
  }

  /** One more level in place. */
  lemma LevelReady(levels: seq<TreeLevel>, blocks: seq<nat>, shapes: seq<LevelShape>, n: nat,
                   levels1: seq<TreeLevel>, blocks1: seq<nat>)
    requires n < |levels| && LevelsReady(levels, blocks, shapes, n)
    requires |levels1| == |levels| && |blocks1| == |blocks|
    requires forall y | 0 <= y < n :: levels1[y] == levels[y]
    requires Cleared(levels1, shapes, n)
    requires forall j | 0 <= j < |blocks| :: blocks1[j] ==
               if Offset(shapes, n) <= j < Offset(shapes, n) + shapes[n].OutSize() then 0 else blocks[j]
    ensures LevelsReady(levels1, blocks1, shapes, n + 1)
  {
    hide LevelShape.OutSize, Fits, Offset;
    OffsetStep(shapes, n);
    forall y | 0 <= y < n + 1
      ensures Cleared(levels1, shapes, y)
    {
      assert y < n ==> Cleared(levels, shapes, y);
    }
  }

  lemma ReadyIsLaidOut(levels: seq<TreeLevel>, blocks: seq<nat>, shapes: seq<LevelShape>)
    requires LevelsReady(levels, blocks, shapes, |levels|)
    ensures LaidOut(levels, blocks, shapes)
    ensures forall x, i | 0 <= x < |levels| && 0 <= i < |Bytes(levels, blocks, shapes, x)| :: Bytes(levels, blocks, shapes, x)[i] == 0
  {
    hide Offset;
    forall x | 0 <= x < |levels|
      ensures LevelFits(levels, shapes, x)
    {
      assert Cleared(levels, shapes, x);
    }
    forall x, i | 0 <= x < |levels| && 0 <= i < |Bytes(levels, blocks, shapes, x)|
      ensures Bytes(levels, blocks, shapes, x)[i] == 0
    {
      assert Cleared(levels, shapes, x);
      SlicesApart(shapes, x, x);
    }
  }

  /** The arrays in which all trees are kept, and how far they have been filled. */
  class TreeArena {
    const entries: array<TreeEntry>
    const levels: array<TreeLevel>
    const blocks: array<nat>
    var treeEntryIndex: nat
    var treeLevelStructIndex: nat
    var blockIndex: nat
    ghost const trees: seq<Range<Kind>>

    ghost predicate Sized() {
      && Forward(trees)
      && entries.Length == |trees|
      && levels.Length == |AllShapes(trees)|
      && blocks.Length == Offset(AllShapes(trees), |AllShapes(trees)|)
    }

    /** The first `t` trees have been laid out. */
    ghost predicate Building(t: nat)
      reads this, entries, levels, blocks
    {
      && Sized()
      && t <= |trees| && treeEntryIndex == t
      && treeLevelStructIndex == LevelBase(trees, t) <= |AllShapes(trees)|
      && blockIndex == Offset(AllShapes(trees), LevelBase(trees, t))
      && EntriesFit(entries[..], trees, t)
      && LevelsReady(levels[..], blocks[..], AllShapes(trees), LevelBase(trees, t))
    }

    constructor (entries: array<TreeEntry>, levels: array<TreeLevel>, blocks: array<nat>, ghost trees: seq<Range<Kind>>)
      requires Forward(trees)
      requires SizeData(entries.Length, levels.Length, blocks.Length) == SizeFor(trees)
      ensures Building(0)
      ensures this.entries == entries && this.levels == levels && this.blocks == blocks && this.trees == trees
    {
      this.entries, this.levels, this.blocks, this.trees := entries, levels, blocks, trees;
      treeEntryIndex, treeLevelStructIndex, blockIndex := 0, 0, 0;
    }

    /** Counts the levels of a tree, in 64-bit arithmetic. */
    static method CountTreeLevels(start: nat, end: nat) returns (numLevels: nat)
      requires start <= end < ADDRESS_LIMIT
      ensures numLevels == NumLevels64(start, end)
    {
      hide NumLevels64, NumBlocks64, MinMapped, MaxMapped64, BlockSize;
      var blockSize := PHYSICAL_PAGE_SIZE;
      var min, max := start, end;
      numLevels := 0;
      BlockSizeStep(0);
      while true
        invariant numLevels <= TOP_HEIGHT && blockSize == BlockSize(numLevels)
        invariant min == if numLevels == 0 then start else MinMapped(start, numLevels - 1)
        invariant max == if numLevels == 0 then end else MaxMapped64(end, numLevels - 1)
        invariant forall i | 0 <= i < numLevels :: NumBlocks64(start, end, i) > 1
        decreases TOP_HEIGHT - numLevels
      {
        ghost var h := numLevels;
        RoundedBlocks64(start, end, h);
        numLevels := numLevels + 1;
        min := RoundDown(min, blockSize);
        max := RoundUp64(max, blockSize);
        var numBlocks := Span64(min, max) / blockSize;
        if numBlocks <= 1 {
          Root64Is(start, end, h);
          return;
        }
        BelowTop(start, end, h);
        BlockSizeStep(h);
        blockSize := (blockSize * 2) % ADDRESS_LIMIT;
      }
    }

    /** Describes the blocks of every level of a tree, the root's level first. */
    method DescribeLevels(base: nat, numLevels: nat, start: nat, end: nat)
      requires start <= end <= TREE_LIMIT && numLevels == NumLevels(start, end) && base + numLevels <= levels.Length
      modifies levels
      ensures forall x | base <= x < base + numLevels :: ShapeSet(levels[x], LevelShape(start, end, base + numLevels - 1 - x))
      ensures forall x | 0 <= x < levels.Length && !(base <= x < base + numLevels) :: levels[x] == old(levels[x])
    {
      hide NumLevels, NumBlocks, RoundDown, RoundUp, BlockSize, First, MinMapped, MaxMapped, ShapeSet;
      var blockSize := PHYSICAL_PAGE_SIZE;
      var min, max := start, end;
      BlockSizeStep(0);
      for h := 0 to numLevels
        invariant blockSize == BlockSize(h)
        invariant min == if h == 0 then start else MinMapped(start, h - 1)
        invariant max == if h == 0 then end else MaxMapped(end, h - 1)
        invariant forall x | base + numLevels - h <= x < base + numLevels ::
                    ShapeSet(levels[x], LevelShape(start, end, base + numLevels - 1 - x))
        invariant forall x | 0 <= x < levels.Length && !(base <= x < base + numLevels) :: levels[x] == old(levels[x])
      {
        RoundedBlocks(start, end, h);
        if h > 0 { BelowRoot(start, end, h - 1); }
        FitsIn64Bits(start, end, h);
        assert max + blockSize - 1 < ADDRESS_LIMIT && blockSize * 2 < ADDRESS_LIMIT;
        min := RoundDown(min, blockSize);
        max := RoundUp(max, blockSize);
        var level := base + (numLevels - h - 1);
        levels[level] := levels[level].(startMappedAddress := min, blockSize := blockSize,
                                        numBlocks := (max - min) / blockSize);
        ShapeIsSet(levels[level], start, end, h);
        BlockSizeStep(h);
        blockSize := blockSize * 2;
      }
    }

    /** Gives a level its blocks, cleared: in its own structure, or in the shared array. */
    method CreateTreeLevelBlocks(x: nat) returns (ok: bool)
      requires Sized() && x < levels.Length && blockIndex == Offset(AllShapes(trees), x)
      requires ShapeSet(levels[x], AllShapes(trees)[x])
      requires LevelsReady(levels[..], blocks[..], AllShapes(trees), x)
      modifies this`blockIndex, levels, blocks
      ensures ok && blockIndex == Offset(AllShapes(trees), x + 1)
      ensures LevelsReady(levels[..], blocks[..], AllShapes(trees), x + 1)
      ensures forall y | 0 <= y < levels.Length && y != x :: levels[y] == old(levels[y])
    {
      hide Offset, First, Last, AllShapes;
      ghost var shapes, levels0, blocks0 := AllShapes(trees), levels[..], blocks[..];
      SlicesApart(shapes, x, x);
      OffsetStep(shapes, x);
      var level := levels[x];
      if level.numBlocks > IN_PLACE_BLOCKS {
        var offset := blockIndex;
        levels[x] := level.(blocks := OutOfLine(offset));
        blockIndex := blockIndex + level.numBlocks;
        if blockIndex > blocks.Length {
          return false;
        }
        ghost var levels1 := levels[..];
        for i := 0 to level.numBlocks
          invariant levels[..] == levels1 && blockIndex == offset + level.numBlocks
          invariant forall j | 0 <= j < blocks.Length :: blocks[j] == if offset <= j < offset + i then 0 else blocks0[j]
        {
          blocks[offset + i] := 0;
        }
      } else {
        levels[x] := level.(blocks := InPlace(seq(IN_PLACE_BLOCKS, _ => 0)));
      }
      assert Cleared(levels[..], shapes, x);
      LevelReady(levels0, blocks0, shapes, x, levels[..], blocks[..]);
      ok := true;
    }

    /** Describes the levels of tree `t` and gives each its blocks. */
    method FillTreeLevelStructs(base: nat, numLevels: nat, start: nat, end: nat, ghost t: nat) returns (ok: bool)
      requires Sized() && t < |trees| && start == trees[t].start && end == trees[t].end
      requires base == LevelBase(trees, t) <= levels.Length && numLevels == NumLevels(start, end)
      requires blockIndex == Offset(AllShapes(trees), base)
      requires LevelsReady(levels[..], blocks[..], AllShapes(trees), base)
      modifies this`blockIndex, levels, blocks
      ensures LevelBase(trees, t + 1) == base + numLevels <= levels.Length
      ensures ok && blockIndex == Offset(AllShapes(trees), base + numLevels)
      ensures LevelsReady(levels[..], blocks[..], AllShapes(trees), base + numLevels)
    {
      hide Offset, AllShapes, LevelsReady, ShapeSet, NumLevels, LevelBase;
      ghost var levels0, shapes := levels[..], AllShapes(trees);
      LevelsOfTree(trees, t);
      DescribeLevels(base, numLevels, start, end);
      ReadyBelow(levels0, blocks[..], shapes, base, levels[..]);
      for x := base to base + numLevels
        invariant blockIndex == Offset(shapes, x)
        invariant LevelsReady(levels[..], blocks[..], shapes, x)
        invariant forall y | x <= y < base + numLevels :: ShapeSet(levels[y], LevelShape(start, end, base + numLevels - 1 - y))
      {
        assert shapes[x] == LevelShape(start, end, base + numLevels - 1 - x);
        ok := CreateTreeLevelBlocks(x);
        if !ok {
          return;
        }
      }
      ok := true;
    }

    /** Adds the entry of tree `t` and links it from the one before. */
    method AddEntry(r: Range<Kind>, numLevels: nat, ghost t: nat)
      requires Forward(trees) && t < |trees| && trees[t] == r && entries.Length == |trees|
      requires treeEntryIndex == t && treeLevelStructIndex == LevelBase(trees, t)
      requires numLevels == NumLevels(r.start, r.end)
      requires EntriesFit(entries[..], trees, t)
      modifies this`treeEntryIndex, entries
      ensures treeEntryIndex == t + 1 && EntriesFit(entries[..], trees, t + 1)
    {
      hide LevelBase, NumLevels, EntriesFit;
      assert r.start <= r.end;
      ghost var entries0 := entries[..];
      var e := treeEntryIndex;
      if e > 0 {
        entries[e - 1] := entries[e - 1].(nextEntry := Some(e));
      }
      treeEntryIndex := treeEntryIndex + 1;
      entries[e] := TreeEntry(r.kind, r.start, r.end, (r.end - r.start) / PHYSICAL_PAGE_SIZE,
                              treeLevelStructIndex, numLevels, None);
      EntryAdded(entries0, trees, t, entries[..]);
    }

    /** The callback of the creation pass: lays out the tree of one range, if it gets one. */
    method CreateTreeForMemoryRange(r: Range<Kind>, ghost t: nat) returns (ok: bool)
      requires Building(t) && r.start <= r.end <= TREE_LIMIT
      requires ShouldCreateTreeForType(r.kind.memoryType) ==> t < |trees| && trees[t] == r
      modifies this`treeEntryIndex, this`treeLevelStructIndex, this`blockIndex, entries, levels, blocks
      ensures ok && Building(if ShouldCreateTreeForType(r.kind.memoryType) then t + 1 else t)
    {
      hide Offset, AllShapes, LevelsReady, NumLevels, NumLevels64, EntriesFit, LevelBase, Forward;
      if !ShouldCreateTreeForType(r.kind.memoryType) {
        return true;
      }
      if treeEntryIndex + 1 > entries.Length {
        return false;
      }
      LevelsOfTree(trees, t);
      var numLevels := CountTreeLevels(r.start, r.end);
      OneSide(r.start, r.end);
      AddEntry(r, numLevels, t);
      var base := treeLevelStructIndex;
      treeLevelStructIndex := treeLevelStructIndex + numLevels;
      ok := treeLevelStructIndex <= levels.Length;
      var filled := FillTreeLevelStructs(base, numLevels, r.start, r.end, t);
      ok := ok && filled;
    }
  }

  lemma LevelsOfTree(trees: seq<Range<Kind>>, t: nat)
    requires t < |trees|
    ensures LevelBase(trees, t + 1) == LevelBase(trees, t) + NumLevels(trees[t].start, trees[t].end) <= |AllShapes(trees)|
    ensures forall x | LevelBase(trees, t) <= x < LevelBase(trees, t + 1) ::
              AllShapes(trees)[x] == LevelShape(trees[t].start, trees[t].end, LevelBase(trees, t + 1) - 1 - x)
  {
    ShapesStep(trees, t);
    ShapesPrefix(trees, t + 1);
    forall x | LevelBase(trees, t) <= x < LevelBase(trees, t + 1)
      ensures AllShapes(trees)[x] == LevelShape(trees[t].start, trees[t].end, LevelBase(trees, t + 1) - 1 - x)
    {
      ShapeAt(trees, t, x - LevelBase(trees, t));
    }
  }

  lemma ReadyBelow(levels: seq<TreeLevel>, blocks: seq<nat>, shapes: seq<LevelShape>, n: nat, levels1: seq<TreeLevel>)
    requires LevelsReady(levels, blocks, shapes, n) && |levels1| == |levels|
    requires forall x | 0 <= x < n :: levels1[x] == levels[x]
    ensures LevelsReady(levels1, blocks, shapes, n)
  {
    hide Offset, Fits;
    forall x | 0 <= x < n
      ensures Cleared(levels1, shapes, x)
    {
      assert Cleared(levels, shapes, x);
    }
  }

  /** One more entry, linked from the one before it. */
  lemma EntryAdded(entries: seq<TreeEntry>, trees: seq<Range<Kind>>, t: nat, entries1: seq<TreeEntry>)
    requires EntriesFit(entries, trees, t) && t < |trees| && t < |entries| == |entries1|
    requires Forward(trees)
    requires entries1[t] == TreeEntry(trees[t].kind, trees[t].start, trees[t].end,
                                      (trees[t].end - trees[t].start) / PHYSICAL_PAGE_SIZE,
                                      LevelBase(trees, t), NumLevels(trees[t].start, trees[t].end), None)
    requires t > 0 ==> entries1[t - 1] == entries[t - 1].(nextEntry := Some(t))
    requires forall e | 0 <= e < t - 1 :: entries1[e] == entries[e]
    ensures EntriesFit(entries1, trees, t + 1)
  {
    hide LevelBase, NumLevels;
    forall e | 0 <= e < t + 1
      ensures EntryFits(entries1[e], trees, e, t + 1)
    {
      if e < t { assert EntryFits(entries[e], trees, e, t); }
    }
  }

  lemma {:induction false} TreesPrefix(rs: seq<Range<Kind>>, i: nat)
    requires i <= |rs|
    ensures Trees(rs[..i]) <= Trees(rs)
    decreases |rs|
  {
    if i == |rs| {
      assert rs[..i] == rs;
    } else {
      var n := |rs| - 1;
      TreesPrefix(rs[..n], i);
      assert rs[..n][..i] == rs[..i];
    }
  }

  /** The creation pass over all merged ranges, in arrays of the counted sizes. It always succeeds and
      fills them exactly. */
  method CreatePhysicalMemTree(rs: seq<Range<Kind>>, size: SizeData) returns (success: bool, arena: TreeArena)
    requires Forward(rs) && size == SizeFor(Trees(rs))
    ensures fresh(arena) && fresh(arena.entries) && fresh(arena.levels) && fresh(arena.blocks)
    ensures success && arena.trees == Trees(rs) && arena.Building(|Trees(rs)|)
  {
    hide SizeFor, Trees, TreeArena.Building;
    TreesForward(rs);
    var entries := new TreeEntry[size.numTreeEntries];
    var levels := new TreeLevel[size.numTreeLevelStructs];
    var blocks := new nat[size.totalBlocksSize];
    arena := new TreeArena(entries, levels, blocks, Trees(rs));
    success := true;
    TreesEmpty(rs);
    for i := 0 to |rs|
      invariant fresh(arena) && arena.entries == entries && arena.levels == levels && arena.blocks == blocks
      invariant success && arena.trees == Trees(rs) && arena.Building(|Trees(rs[..i])|)
    {
      TreesStep(rs, i);
      TreesPrefix(rs, i);
      TreesPrefix(rs, i + 1);
      var ok := arena.CreateTreeForMemoryRange(rs[i], |Trees(rs[..i])|);
      success := success && ok;
    }
    assert rs[..|rs|] == rs;
  }

  lemma TreesEmpty(rs: seq<Range<Kind>>)
    ensures Trees(rs[..0]) == []
  {
  }
}
