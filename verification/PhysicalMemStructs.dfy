/** Both physical memory structures, made together in one buffer; and what they say of every page,
    in terms of the firmware's memory map. */
module PhysicalMemStructs {
  import opened RangeLists
  import opened MemoryUnits
  import opened PhysicalMemory
  import opened TreeGeometry
  import opened PhysicalMemTree
  import opened TreeMarking
  import opened TreeAccel
  import PhysicalMemMap

  // ----- Marking -----

  /** Memory that the trees manage but that is already being used. */
  predicate InUse(e: InitialMemMapEntry) {
    ShouldCreateTreeForType(e.attributes.memoryType) &&
    match e.attributes.usage
    case KernelCode | KernelData | BootCode | BootData | InitialMemMapUsage => true
    case NoUsage | MappedUsage => false
  }

  ghost function TakenByMap(m: seq<InitialMemMapEntry>): set<nat> {
    if m == [] then {}
    else
      var e := m[|m| - 1];
      TakenByMap(m[..|m| - 1])
      + (if InUse(e) then RegionPages(e.physicalAddress, e.numPhysicalPages * PHYSICAL_PAGE_SIZE) else {})
  }

  datatype UsedRegion = UsedRegion(start: nat, size: nat)

  ghost function TakenByRegions(regions: seq<UsedRegion>): set<nat> {
    if regions == [] then {}
    else
      var r := regions[|regions| - 1];
      TakenByRegions(regions[..|regions| - 1]) + RegionPages(r.start, r.size)
  }

  /** Marks every page available, then those in use, and summarises the result. */
  method MarkPhysicalMemTreeRegions(arena: TreeArena, m: seq<InitialMemMapEntry>, regions: seq<UsedRegion>)
    requires Ready(arena) && |arena.trees| > 0 && WholePages(arena.trees)
    modifies arena.levels, arena.blocks
    ensures Ready(arena) && TreesShow(arena, TakenByMap(m) + TakenByRegions(regions))
  {
    hide Ready, LeavesShow, TreesShow, RegionPages, WholePages;
    SetAllTreePagesAvailable(arena);
    ghost var taken: set<nat> := {};
    for i := 0 to |m|
      invariant Ready(arena) && taken == TakenByMap(m[..i]) && LeavesShow(arena, taken)
    {
      assert m[..i + 1][..i] == m[..i];
      var e := m[i];
      if ShouldCreateTreeForType(e.attributes.memoryType) {
        match e.attributes.usage
        case KernelCode | KernelData | BootCode | BootData | InitialMemMapUsage =>
          MarkUsedTreePages(arena, e.physicalAddress, e.numPhysicalPages * PHYSICAL_PAGE_SIZE, taken);
          taken := taken + RegionPages(e.physicalAddress, e.numPhysicalPages * PHYSICAL_PAGE_SIZE);
        case NoUsage | MappedUsage =>
      }
    }
    assert m[..|m|] == m;
    for i := 0 to |regions|
      invariant Ready(arena) && taken == TakenByMap(m) + TakenByRegions(regions[..i]) && LeavesShow(arena, taken)
    {
      assert regions[..i + 1][..i] == regions[..i];
      MarkUsedTreePages(arena, regions[i].start, regions[i].size, taken);
      taken := taken + RegionPages(regions[i].start, regions[i].size);
      assert taken == TakenByMap(m) + TakenByRegions(regions[..i + 1]);
    }
    assert regions[..|regions|] == regions;
    FillTreeAccelBlocks(arena, taken);
  }

  // ----- One buffer for both structures -----

  const TREE_ENTRY_SIZE: nat := 64
  const TREE_LEVEL_SIZE: nat := 32
  const FUNDAMENTAL_ALIGNMENT: nat := 16

  function AlignUp(x: nat): nat { ((x + FUNDAMENTAL_ALIGNMENT - 1) / FUNDAMENTAL_ALIGNMENT) * FUNDAMENTAL_ALIGNMENT }

  /** Where the parts of both structures begin, in bytes from the beginning of the buffer. */
  datatype BufferLayout = BufferLayout(
    treeEntriesOffset: nat,
    treeLevelStructsOffset: nat,
    blocksOffset: nat,
    treeSize: nat,
    memMapOffset: nat,
    memMapSize: nat,
    bufferSize: nat)

  function LayoutOf(size: SizeData, memMapSize: nat): BufferLayout {
    var levelsOffset := AlignUp(TREE_ENTRY_SIZE * size.numTreeEntries);
    var blocksOffset := AlignUp(levelsOffset + TREE_LEVEL_SIZE * size.numTreeLevelStructs);
    var treeSize := blocksOffset + size.totalBlocksSize;
    var memMapOffset := AlignUp(treeSize);
    BufferLayout(0, levelsOffset, blocksOffset, treeSize, memMapOffset, memMapSize, memMapOffset + memMapSize)
  }

  /** The parts follow one another without overlap, 64 bytes for each tree, 32 for each level and the bytes of
      the blocks, each aligned for what it holds; less than 48 bytes are lost to alignment. */
  lemma LayoutDisjoint(size: SizeData, memMapSize: nat)
    ensures var layout := LayoutOf(size, memMapSize);
            && layout.treeEntriesOffset + 64 * size.numTreeEntries <= layout.treeLevelStructsOffset
            && layout.treeLevelStructsOffset + 32 * size.numTreeLevelStructs <= layout.blocksOffset
            && layout.blocksOffset + size.totalBlocksSize == layout.treeSize <= layout.memMapOffset
            && layout.memMapOffset + memMapSize == layout.bufferSize
            && layout.treeLevelStructsOffset % 16 == 0 && layout.memMapOffset % 16 == 0
            && layout.bufferSize < 64 * size.numTreeEntries + 32 * size.numTreeLevelStructs
                                   + size.totalBlocksSize + memMapSize + 48
  {
    hide AlignUp;
    var layout := LayoutOf(size, memMapSize);
    AlignUpNext(TREE_ENTRY_SIZE * size.numTreeEntries);
    AlignUpNext(layout.treeLevelStructsOffset + TREE_LEVEL_SIZE * size.numTreeLevelStructs);
    AlignUpNext(layout.treeSize);
  }

  lemma AlignUpNext(x: nat)
    ensures x <= AlignUp(x) < x + FUNDAMENTAL_ALIGNMENT && AlignUp(x) % FUNDAMENTAL_ALIGNMENT == 0
  {
  }

  /** No entry reaches so high that a tree's arithmetic could wrap. */
  ghost predicate Addressable(m: seq<InitialMemMapEntry>) {
    forall i | 0 <= i < |m| :: m[i].End() <= TREE_LIMIT
  }

  /** Sizes both structures for an initial map. */
  method GetPhysicalMemStructsSizeData(m: seq<InitialMemMapEntry>) returns (size: SizeData, layout: BufferLayout)
    requires Addressable(m)
    ensures var rs := Coalesce(PhysicalRanges(m));
            && size == SizeFor(Trees(rs))
            && layout == LayoutOf(size, |rs| * PhysicalMemMap.PHYSICAL_RANGE_SIZE)
  {
    hide SizeFor, Trees, Coalesce;
    var rs := PhysicalMemMap.IterateCombinedPhysRanges(m);
    CombinedForward(m);
    size := GetPhysicalMemTreeSize(rs);
    var mapSize := PhysicalMemMap.GetPhysicalMemMapSize(m);
    layout := LayoutOf(size, mapSize);
  }

  lemma CombinedForward(m: seq<InitialMemMapEntry>)
    requires Addressable(m)
    ensures Forward(Coalesce(PhysicalRanges(m)))
  {
    CoalesceForward(PhysicalRanges(m));
  }

  lemma {:induction false} CoalesceForward(rs: seq<Range<Kind>>)
    requires Forward(rs)
    ensures Forward(Coalesce(rs))
  {
    if rs != [] {
      CoalesceForward(rs[..|rs| - 1]);
      AddForward(Coalesce(rs[..|rs| - 1]), rs[|rs| - 1]);
    }
  }

  lemma AddForward(rs: seq<Range<Kind>>, r: Range<Kind>)
    requires Forward(rs) && r.start <= r.end <= TREE_LIMIT
    ensures Forward(Add(rs, r))
  {
  }

  /** Creates both structures in a buffer of the computed size at the given address. It always succeeds. */
  method CreatePhysicalMemStructs(m: seq<InitialMemMapEntry>, size: SizeData, layout: BufferLayout, bufferAddress: nat)
    returns (success: bool, arena: TreeArena, memMap: PhysicalMemMap.PhysMemMapFill)
    requires var rs := Coalesce(PhysicalRanges(m));
             && size == SizeFor(Trees(rs)) && layout == LayoutOf(size, |rs| * PhysicalMemMap.PHYSICAL_RANGE_SIZE)
             && Trees(rs) != [] && WholePages(Trees(rs))
    requires Addressable(m)
    ensures success && fresh(arena) && fresh(memMap)
    ensures Ready(arena) && arena.trees == Trees(Coalesce(PhysicalRanges(m)))
    ensures TreesShow(arena, TakenByMap(m) + RegionPages(bufferAddress, layout.bufferSize))
    ensures memMap.Valid() && memMap.success && memMap.Contents() == Coalesce(PhysicalRanges(m))
  {
    hide SizeFor, Trees, Coalesce, Ready, TreesShow, WholePages, RegionPages;
    CombinedForward(m);
    var rs := PhysicalMemMap.IterateCombinedPhysRanges(m);
    success, arena := CreatePhysicalMemTree(rs, size);
    BuiltIsReady(arena);
    MarkPhysicalMemTreeRegions(arena, m, [UsedRegion(bufferAddress, layout.bufferSize)]);
    OneRegion(bufferAddress, layout.bufferSize);
    var mapBuffer := new Range<Kind>[layout.memMapSize / PhysicalMemMap.PHYSICAL_RANGE_SIZE](_ => Range(0, 0, Kind(MaxType, 0)));
    memMap := PhysicalMemMap.CreatePhysicalMemMap(m, mapBuffer, layout.memMapSize);
    success := success && memMap.success;
  }

  lemma OneRegion(start: nat, size: nat)
    ensures TakenByRegions([UsedRegion(start, size)]) == RegionPages(start, size)
  {
    var regions := [UsedRegion(start, size)];
    assert TakenByRegions(regions[..0]) == {};
  }
}
