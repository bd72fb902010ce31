/** From the firmware's memory map to the physical memory structures: which pages end up available. */
module Availability {
  import opened Wrappers
  import opened RangeLists
  import opened MemoryUnits
  import opened UefiMemoryMap
  import opened PhysicalMemory
  import opened EfiMapIteration
  import opened InitialMemMap
  import opened CarvedMap
  import opened TreeGeometry
  import opened TreeSummary
  import opened PhysicalMemTree
  import opened TreeMarking
  import opened TreeAccel
  import opened PhysicalMemStructs
  import PhysicalMemMap

  /** Page `p` belongs to tree `t`. */
  predicate InTree(trees: seq<Range<Kind>>, t: nat, p: nat)
    requires t < |trees|
  {
    First(trees[t].start, 0) <= p < Last(trees[t].end, 0)
  }

  /** The trees say that page `p` is available. */
  ghost predicate PageAvailable(arena: TreeArena, p: nat)
    requires Ready(arena)
    reads arena, arena.entries, arena.levels, arena.blocks
  {
    exists t :: 0 <= t < |arena.trees| && InTree(arena.trees, t, p) && LeafByte(arena, t, p) == PAGE_AVAILABLE
  }

  ghost function LeafByte(arena: TreeArena, t: nat, p: nat): nat
    requires Ready(arena) && t < |arena.trees| && InTree(arena.trees, t, p)
    reads arena, arena.entries, arena.levels, arena.blocks
  {
    LeafShape(arena.trees, t);
    LevelBytes(arena, LeafLevel(arena.trees, t))[p - First(arena.trees[t].start, 0)]
  }

  lemma LeafByteIs(arena: TreeArena, taken: set<nat>, t: nat, p: nat)
    requires Ready(arena) && TreesShow(arena, taken) && t < |arena.trees| && InTree(arena.trees, t, p)
    ensures LeafByte(arena, t, p) == if p in taken then PAGE_UNAVAILABLE else PAGE_AVAILABLE
  {
    assert WholeTreeShows(arena, t, taken);
    assert LevelShows(arena, t, 0, taken);
    LeafSummaries(arena.trees[t], taken);
  }

  lemma AvailableMeans(arena: TreeArena, taken: set<nat>, p: nat)
    requires Ready(arena) && TreesShow(arena, taken)
    ensures PageAvailable(arena, p) <==> p !in taken && exists t :: 0 <= t < |arena.trees| && InTree(arena.trees, t, p)
  {
    forall t | 0 <= t < |arena.trees| && InTree(arena.trees, t, p)
      ensures LeafByte(arena, t, p) == PAGE_AVAILABLE <==> p !in taken
    {
      LeafByteIs(arena, taken, t, p);
    }
  }

  // ----- Pages of the trees, and pages in use, in terms of the initial map -----

  /** The first address of a page. */
  function PageAddress(p: nat): nat { p * PHYSICAL_PAGE_SIZE }

  lemma InWholeRange(start: nat, end: nat, p: nat)
    requires start % PHYSICAL_PAGE_SIZE == 0 && end % PHYSICAL_PAGE_SIZE == 0
    ensures First(start, 0) <= p < Last(end, 0) <==> start <= PageAddress(p) < end
    ensures start <= end ==> (p in RegionPages(start, end - start) <==> start <= PageAddress(p) < end)
  {
  }

  lemma {:induction false} TreesAt(rs: seq<Range<Kind>>, a: nat, kind: Kind)
    ensures At(Trees(rs), a, kind) <==> At(rs, a, kind) && ShouldCreateTreeForType(kind.memoryType)
  {
    if rs != [] {
      var n := |rs| - 1;
      TreesAt(rs[..n], a, kind);
      AtInit(rs, a, kind);
      if ShouldCreateTreeForType(rs[n].kind.memoryType) {
        assert Trees(rs)[..|Trees(rs)| - 1] == Trees(rs[..n]);
        AtInit(Trees(rs), a, kind);
      } else {
        assert Trees(rs) == Trees(rs[..n]);
      }
    }
  }

  lemma {:induction false} TreesWhole(rs: seq<Range<Kind>>)
    requires Whole(rs, PHYSICAL_PAGE_SIZE)
    ensures WholePages(Trees(rs))
  {
    if rs != [] {
      TreesWhole(rs[..|rs| - 1]);
    }
  }

  /** The entry describes page `p`. */
  predicate Describes(e: InitialMemMapEntry, p: nat) { e.AsRange().Has(PageAddress(p)) }

  function KindOf(e: InitialMemMapEntry): Kind { Kind(e.attributes.memoryType, e.attributes.flags) }

  lemma InTreeIsAt(trees: seq<Range<Kind>>, p: nat)
    requires WholePages(trees)
    ensures (exists t :: 0 <= t < |trees| && InTree(trees, t, p)) <==> exists kind :: At(trees, PageAddress(p), kind)
  {
    forall t | 0 <= t < |trees|
      ensures InTree(trees, t, p) <==> trees[t].Has(PageAddress(p))
    {
      InWholeRange(trees[t].start, trees[t].end, p);
    }
    if t :| 0 <= t < |trees| && InTree(trees, t, p) {
      assert At(trees, PageAddress(p), trees[t].kind);
    }
    if kind :| At(trees, PageAddress(p), kind) {
      var t :| 0 <= t < |trees| && trees[t].Has(PageAddress(p)) && trees[t].kind == kind;
      assert InTree(trees, t, p);
    }
  }

  lemma TreesOfMap(m: seq<InitialMemMapEntry>, a: nat, kind: Kind)
    requires Ascending(PhysicalRanges(m))
    ensures At(Trees(Coalesce(PhysicalRanges(m))), a, kind)
            <==> At(PhysicalRanges(m), a, kind) && ShouldCreateTreeForType(kind.memoryType)
  {
    hide At;
    CoalesceCanonical(PhysicalRanges(m));
    TreesAt(Coalesce(PhysicalRanges(m)), a, kind);
    assert At(Coalesce(PhysicalRanges(m)), a, kind) <==> At(PhysicalRanges(m), a, kind);
  }

  lemma EntryIsAt(m: seq<InitialMemMapEntry>, p: nat, kind: Kind)
    ensures At(PhysicalRanges(m), PageAddress(p), kind) <==> exists e :: e in m && Describes(e, p) && KindOf(e) == kind
  {
    if At(PhysicalRanges(m), PageAddress(p), kind) {
      var i :| 0 <= i < |m| && PhysicalRanges(m)[i].Has(PageAddress(p)) && PhysicalRanges(m)[i].kind == kind;
      assert m[i] in m && Describes(m[i], p) && KindOf(m[i]) == kind;
    }
    if e :| e in m && Describes(e, p) && KindOf(e) == kind {
      var i :| 0 <= i < |m| && m[i] == e;
      assert PhysicalRanges(m)[i].Has(PageAddress(p)) && PhysicalRanges(m)[i].kind == kind;
    }
  }

  lemma MapTreesWhole(m: seq<InitialMemMapEntry>)
    requires Whole(PhysicalRanges(m), PHYSICAL_PAGE_SIZE)
    ensures WholePages(Trees(Coalesce(PhysicalRanges(m))))
  {
    CoalesceWhole(PhysicalRanges(m), PHYSICAL_PAGE_SIZE);
    TreesWhole(Coalesce(PhysicalRanges(m)));
  }

  /** Some tree holds page `p`, when the initial map says that its memory is of a type that gets one. */
  lemma InSomeTree(m: seq<InitialMemMapEntry>, p: nat)
    requires Ascending(PhysicalRanges(m)) && Whole(PhysicalRanges(m), PHYSICAL_PAGE_SIZE)
    ensures var trees := Trees(Coalesce(PhysicalRanges(m)));
            (exists t :: 0 <= t < |trees| && InTree(trees, t, p))
            <==> exists e :: e in m && Describes(e, p) && ShouldCreateTreeForType(e.attributes.memoryType)
  {
    hide At, Trees, Coalesce, Describes, WholePages, Ascending, Whole, InTree, PhysicalRanges, ShouldCreateTreeForType;
    var trees := Trees(Coalesce(PhysicalRanges(m)));
    MapTreesWhole(m);
    InTreeIsAt(trees, p);
    if kind :| At(trees, PageAddress(p), kind) {
      TreesOfMap(m, PageAddress(p), kind);
      EntryIsAt(m, p, kind);
    }
    if e :| e in m && Describes(e, p) && ShouldCreateTreeForType(e.attributes.memoryType) {
      EntryIsAt(m, p, KindOf(e));
      TreesOfMap(m, PageAddress(p), KindOf(e));
    }
  }

  lemma EntryPages(e: InitialMemMapEntry, p: nat)
    requires e.physicalAddress % PHYSICAL_PAGE_SIZE == 0
    ensures p in RegionPages(e.physicalAddress, e.numPhysicalPages * PHYSICAL_PAGE_SIZE) <==> Describes(e, p)
  {
    InWholeRange(e.physicalAddress, e.End(), p);
  }

  lemma {:induction false} TakenMeans(m: seq<InitialMemMapEntry>, p: nat)
    requires forall e | e in m :: e.physicalAddress % PHYSICAL_PAGE_SIZE == 0
    ensures p in TakenByMap(m) <==> exists e :: e in m && Describes(e, p) && InUse(e)
  {
    hide RegionPages, InUse, Describes;
    if m != [] {
      var n := |m| - 1;
      assert m == m[..n] + [m[n]];
      TakenMeans(m[..n], p);
      EntryPages(m[n], p);
    }
  }

  /** Free memory that the trees manage. */
  predicate Free(attributes: Attributes) {
    ShouldCreateTreeForType(attributes.memoryType) && attributes.usage in {NoUsage, MappedUsage}
  }

  /** A page is described by one entry at most. */
  lemma DescribedOnce(m: seq<InitialMemMapEntry>, p: nat, e: InitialMemMapEntry, f: InitialMemMapEntry)
    requires Ascending(PhysicalRanges(m)) && e in m && f in m && Describes(e, p) && Describes(f, p)
    ensures e == f
  {
    var i :| 0 <= i < |m| && m[i] == e;
    var j :| 0 <= j < |m| && m[j] == f;
    assert PhysicalRanges(m)[i] == m[i].AsPhysicalRange() && PhysicalRanges(m)[j] == m[j].AsPhysicalRange();
  }

  lemma FreeOrInUse(e: InitialMemMapEntry)
    ensures ShouldCreateTreeForType(e.attributes.memoryType) <==> Free(e.attributes) || InUse(e)
    ensures !(Free(e.attributes) && InUse(e))
  {
  }

  /** A page of the trees is not in use exactly when the initial map describes it as free. */
  lemma FreeInMap(m: seq<InitialMemMapEntry>, p: nat)
    requires Ascending(PhysicalRanges(m)) && Whole(PhysicalRanges(m), PHYSICAL_PAGE_SIZE)
    ensures var trees := Trees(Coalesce(PhysicalRanges(m)));
            p !in TakenByMap(m) && (exists t :: 0 <= t < |trees| && InTree(trees, t, p))
            <==> exists e :: e in m && Describes(e, p) && Free(e.attributes)
  {
    hide Describes, Free, InUse, Trees, Coalesce, Ascending;
    InSomeTree(m, p);
    EntriesWhole(m);
    TakenMeans(m, p);
    if e :| e in m && Describes(e, p) && ShouldCreateTreeForType(e.attributes.memoryType) {
      FreeOrInUse(e);
      forall f | f in m && Describes(f, p)
        ensures f == e
      {
        DescribedOnce(m, p, e, f);
      }
    }
    forall e | e in m
      ensures Free(e.attributes) ==> ShouldCreateTreeForType(e.attributes.memoryType)
    {
      FreeOrInUse(e);
    }
  }

  lemma EntriesWhole(m: seq<InitialMemMapEntry>)
    requires Whole(PhysicalRanges(m), PHYSICAL_PAGE_SIZE)
    ensures forall e | e in m :: e.physicalAddress % PHYSICAL_PAGE_SIZE == 0
  {
    forall e | e in m
      ensures e.physicalAddress % PHYSICAL_PAGE_SIZE == 0
    {
      var i :| 0 <= i < |m| && m[i] == e;
      assert PhysicalRanges(m)[i] == m[i].AsPhysicalRange();
    }
  }

  // ----- In terms of the firmware's map -----

  /** Memory that nothing uses yet, by the firmware's account. */
  predicate FreeType(t: EfiMemoryType) { t == EfiConventionalMemory || t == EfiPersistentMemory }

  lemma FreeAttributes(d: MemoryDescriptor)
    ensures Free(AttributesOf(d)) <==> FreeType(d.memoryType)
  {
  }

  /** The firmware's map gives page `p` memory of a free type. */
  ghost predicate FirmwareFree(ds: seq<MemoryDescriptor>, p: nat) {
    exists d :: d in ds && d.physicalStart <= PageAddress(p) < d.End() && FreeType(d.memoryType)
  }

  lemma DescriptorIsAt(ds: seq<MemoryDescriptor>, a: nat, attributes: Attributes)
    ensures At(DescriptorRanges(ds), a, attributes)
            <==> exists d :: d in ds && d.physicalStart <= a < d.End() && AttributesOf(d) == attributes
  {
    if At(DescriptorRanges(ds), a, attributes) {
      var i :| 0 <= i < |ds| && DescriptorRanges(ds)[i].Has(a) && DescriptorRanges(ds)[i].kind == attributes;
      PagesKept(ds, i);
      assert ds[i] in ds;
    }
    if d :| d in ds && d.physicalStart <= a < d.End() && AttributesOf(d) == attributes {
      var i :| 0 <= i < |ds| && ds[i] == d;
      PagesKept(ds, i);
      assert DescriptorRanges(ds)[i].Has(a) && DescriptorRanges(ds)[i].kind == attributes;
    }
  }

  lemma AttributesAt(m: seq<InitialMemMapEntry>, p: nat, attributes: Attributes)
    ensures At(Ranges(m), PageAddress(p), attributes) <==> exists e :: e in m && Describes(e, p) && e.attributes == attributes
  {
    if At(Ranges(m), PageAddress(p), attributes) {
      var i :| 0 <= i < |m| && Ranges(m)[i].Has(PageAddress(p)) && Ranges(m)[i].kind == attributes;
      assert m[i] in m && Describes(m[i], p);
    }
    if e :| e in m && Describes(e, p) && e.attributes == attributes {
      var i :| 0 <= i < |m| && m[i] == e;
      assert Ranges(m)[i].Has(PageAddress(p)) && Ranges(m)[i].kind == attributes;
    }
  }

  /** Page `p` lies in the pages that the initial map takes. */
  predicate InMapPages(es: seq<InitialMemMapEntry>, k: nat, p: nat)
    requires k < |es|
  {
    es[k].physicalAddress <= PageAddress(p) < MapEnd(es, k)
  }

  /** The initial map describes a page as free exactly when the firmware's map does, except on the
      pages that the initial map itself takes. */
  lemma FreeInFirmwareMap(ds: seq<MemoryDescriptor>, es: seq<InitialMemMapEntry>, k: nat, m: seq<InitialMemMapEntry>, p: nat)
    requires IsIteration(ds, es) && IsCarved(es, k, m)
    ensures (exists e :: e in m && Describes(e, p) && Free(e.attributes)) <==> !InMapPages(es, k, p) && FirmwareFree(ds, p)
  {
    assert k < |es|;
    hide Describes, IsIteration, IsCarved, FirmwareFree, InMapPages, Free;
    if e :| e in m && Describes(e, p) && Free(e.attributes) {
      FreeEntryIsFirmwareFree(ds, es, k, m, p, e);
    }
    if !InMapPages(es, k, p) && FirmwareFree(ds, p) {
      var e := FirmwareFreeHasEntry(ds, es, k, m, p);
    }
  }

  lemma FreeEntryIsFirmwareFree(ds: seq<MemoryDescriptor>, es: seq<InitialMemMapEntry>, k: nat, m: seq<InitialMemMapEntry>,
                                p: nat, e: InitialMemMapEntry)
    requires IsIteration(ds, es) && IsCarved(es, k, m) && e in m && Describes(e, p) && Free(e.attributes)
    ensures k < |es| && !InMapPages(es, k, p) && FirmwareFree(ds, p)
  {
    assert k < |es|;
    hide At, Describes, AttributesOf, IsIteration, IsCarved, FreeType;
    var a := PageAddress(p);
    AttributesAt(m, p, e.attributes);
    CarvedAttributes(ds, es, k, m, a, e.attributes);
    DescriptorIsAt(ds, a, e.attributes);
    if !InMapPages(es, k, p) {
      var d :| d in ds && d.physicalStart <= a < d.End() && AttributesOf(d) == e.attributes;
      FreeAttributes(d);
    }
  }

  lemma FirmwareFreeHasEntry(ds: seq<MemoryDescriptor>, es: seq<InitialMemMapEntry>, k: nat, m: seq<InitialMemMapEntry>, p: nat)
    returns (e: InitialMemMapEntry)
    requires IsIteration(ds, es) && IsCarved(es, k, m) && k < |es| && !InMapPages(es, k, p) && FirmwareFree(ds, p)
    ensures e in m && Describes(e, p) && Free(e.attributes)
  {
    hide At, Describes, AttributesOf, IsIteration, IsCarved, FreeType;
    var a := PageAddress(p);
    var d :| d in ds && d.physicalStart <= a < d.End() && FreeType(d.memoryType);
    FreeAttributes(d);
    DescriptorIsAt(ds, a, AttributesOf(d));
    CarvedAttributes(ds, es, k, m, a, AttributesOf(d));
    AttributesAt(m, p, AttributesOf(d));
    e :| e in m && Describes(e, p) && e.attributes == AttributesOf(d);
  }

  lemma CarvedWhole(ds: seq<MemoryDescriptor>, es: seq<InitialMemMapEntry>, k: nat, m: seq<InitialMemMapEntry>)
    requires IsIteration(ds, es) && IsCarved(es, k, m) && Whole(DescriptorRanges(ds), PHYSICAL_PAGE_SIZE)
    ensures Ascending(PhysicalRanges(m)) && Whole(PhysicalRanges(m), PHYSICAL_PAGE_SIZE)
    ensures Coalesce(PhysicalRanges(m)) == Coalesce(PhysicalRanges(es))
  {
    assert k < |es| && Whole(Ranges(es), PHYSICAL_PAGE_SIZE);
    hide IsIteration, IsCarved, Whole, Ascending, Coalesce, SplitAt, At, PhysicalRanges, Ranges;
    CarvingHeals(ds, es, k, m);
    CarvedPhysicalRanges(es, k, m);
    PhysicalWhole(es, k);
    if HasRest(es, k) {
      SplitWhole(PhysicalRanges(es), k, MapEnd(es, k));
    }
  }

  lemma PhysicalWhole(es: seq<InitialMemMapEntry>, k: nat)
    requires Whole(Ranges(es), PHYSICAL_PAGE_SIZE) && k < |es|
    ensures Whole(PhysicalRanges(es), PHYSICAL_PAGE_SIZE)
    ensures es[k].physicalAddress % PHYSICAL_PAGE_SIZE == 0 && MapEnd(es, k) % PHYSICAL_PAGE_SIZE == 0
  {
    forall i | 0 <= i < |es|
      ensures PhysicalRanges(es)[i].start % PHYSICAL_PAGE_SIZE == 0 && PhysicalRanges(es)[i].end % PHYSICAL_PAGE_SIZE == 0
    {
      assert Ranges(es)[i] == es[i].AsRange();
    }
    assert Ranges(es)[k] == es[k].AsRange();
  }

  lemma SplitWhole(rs: seq<Range<Kind>>, k: nat, mid: nat)
    requires k < |rs| && Whole(rs, PHYSICAL_PAGE_SIZE) && mid % PHYSICAL_PAGE_SIZE == 0
    ensures Whole(SplitAt(rs, k, mid), PHYSICAL_PAGE_SIZE)
  {
  }

  /** No descriptor reaches so high that a tree's arithmetic could wrap. */
  ghost predicate Reachable(ds: seq<MemoryDescriptor>) {
    forall i | 0 <= i < |ds| :: ds[i].End() <= TREE_LIMIT
  }

  lemma IterationReach(ds: seq<MemoryDescriptor>, es: seq<InitialMemMapEntry>, i: nat)
    requires IsIteration(ds, es) && Reachable(ds) && i < |es|
    ensures es[i].End() <= TREE_LIMIT
  {
    assert Ranges(es)[i] == es[i].AsRange();
    assert Ascending(Ranges(es));
    assert Ranges(es)[i].Has(es[i].End() - 1);
    assert At(Ranges(es), es[i].End() - 1, es[i].attributes);
    DescriptorIsAt(ds, es[i].End() - 1, es[i].attributes);
  }

  /** The carved map reaches no higher than the firmware's. */
  lemma CarvedReach(ds: seq<MemoryDescriptor>, es: seq<InitialMemMapEntry>, k: nat, m: seq<InitialMemMapEntry>)
    requires IsIteration(ds, es) && IsCarved(es, k, m) && Reachable(ds)
    ensures Addressable(m)
  {
    hide IsIteration, IsCarved, Origin, Reachable;
    forall i | 0 <= i < |m|
      ensures m[i].End() <= TREE_LIMIT
    {
      CarvedEntryReach(es, k, m, i);
      IterationReach(ds, es, Origin(es, k, i));
    }
  }

  lemma CarvedEntryReach(es: seq<InitialMemMapEntry>, k: nat, m: seq<InitialMemMapEntry>, i: nat)
    requires IsCarved(es, k, m) && i < |m|
    ensures k < |es| && Origin(es, k, i) < |es| && m[i].End() <= es[Origin(es, k, i)].End()
  {
    assert k < |es|;
    hide IsCarved, HasRest, MapPages;
    CarvedEntries(es, k, m);
    MapFits(es, k, m);
  }

  /** A map that could be stored has a usable region, and so a tree. */
  lemma SomeTree(ds: seq<MemoryDescriptor>, es: seq<InitialMemMapEntry>, k: nat, m: seq<InitialMemMapEntry>)
    requires IsIteration(ds, es) && IsCarved(es, k, m) && Whole(DescriptorRanges(ds), PHYSICAL_PAGE_SIZE)
    ensures Trees(Coalesce(PhysicalRanges(m))) != []
  {
    CarvedWhole(ds, es, k, m);
    OneTagged(ds, es, k, m);
    MapFits(es, k, m);
    var a := m[k].physicalAddress;
    assert PhysicalRanges(m)[k] == m[k].AsPhysicalRange();
    assert PhysicalRanges(m)[k].Has(a);
    assert At(PhysicalRanges(m), a, PhysicalRanges(m)[k].kind);
    TreesOfMap(m, a, PhysicalRanges(m)[k].kind);
  }

  /** After the whole pipeline, a page is available exactly when the firmware gives it conventional or
      persistent memory, and neither the initial map nor the structures themselves lie on it. */
  lemma EndToEnd(ds: seq<MemoryDescriptor>, es: seq<InitialMemMapEntry>, k: nat, m: seq<InitialMemMapEntry>,
                 arena: TreeArena, bufferAddress: nat, bufferSize: nat, p: nat)
    requires IsIteration(ds, es) && IsCarved(es, k, m) && Whole(DescriptorRanges(ds), PHYSICAL_PAGE_SIZE)
    requires Ready(arena) && arena.trees == Trees(Coalesce(PhysicalRanges(m)))
    requires TreesShow(arena, TakenByMap(m) + RegionPages(bufferAddress, bufferSize))
    ensures PageAvailable(arena, p) <==>
            FirmwareFree(ds, p) && !InMapPages(es, k, p) && p !in RegionPages(bufferAddress, bufferSize)
  {
    assert k < |es|;
    hide IsCarved, IsIteration, Ready, TreesShow, Trees, Coalesce, Ascending, Whole, RegionPages, FirmwareFree, InTree, Describes, Free;
    CarvedWhole(ds, es, k, m);
    AvailableMeans(arena, TakenByMap(m) + RegionPages(bufferAddress, bufferSize), p);
    FreeInMap(m, p);
    FreeInFirmwareMap(ds, es, k, m, p);
  }

  // ----- The whole pipeline -----

  /** Finds the first usable mapped region with room for the structures. */
  method FindStructsRegion(m: seq<InitialMemMapEntry>, bufferSize: nat) returns (address: Option<nat>)
    ensures address.None? <==> forall i | 0 <= i < |m| :: !(UsableMapped(m[i]) && m[i].numPhysicalPages * PHYSICAL_PAGE_SIZE >= bufferSize)
    ensures address.Some? ==> exists i :: 0 <= i < |m| && UsableMapped(m[i]) && address.value == m[i].virtualAddress
                                          && m[i].numPhysicalPages * PHYSICAL_PAGE_SIZE >= bufferSize
  {
    address := None;
    for i := 0 to |m|
      invariant address.None?
      invariant forall j | 0 <= j < i :: !(UsableMapped(m[j]) && m[j].numPhysicalPages * PHYSICAL_PAGE_SIZE >= bufferSize)
    {
      if m[i].attributes.memoryType == Usable && m[i].attributes.usage == MappedUsage &&
         m[i].numPhysicalPages * PHYSICAL_PAGE_SIZE >= bufferSize {
        address := Some(m[i].virtualAddress);
        return;
      }
    }
  }

  /** The region found for the structures: the beginning of free memory with room for them. */
  ghost predicate HasRoom(m: seq<InitialMemMapEntry>, bufferAddress: nat, bufferSize: nat) {
    exists e :: e in m && UsableMapped(e) && e.physicalAddress == bufferAddress
                && bufferSize <= e.numPhysicalPages * PHYSICAL_PAGE_SIZE
  }

  lemma CarvedIdentity(ds: seq<MemoryDescriptor>, es: seq<InitialMemMapEntry>, k: nat, m: seq<InitialMemMapEntry>)
    requires IsIteration(ds, es) && IsCarved(es, k, m)
    ensures IdentityMapped(m)
  {
    forall i | 0 <= i < |m|
      ensures m[i].virtualAddress == m[i].physicalAddress
    {
      assert es[Origin(es, k, i)].virtualAddress == es[Origin(es, k, i)].physicalAddress;
    }
  }

  lemma FoundRoom(m: seq<InitialMemMapEntry>, address: nat, bufferSize: nat)
    requires IdentityMapped(m)
    requires exists i :: 0 <= i < |m| && UsableMapped(m[i]) && address == m[i].virtualAddress
                         && m[i].numPhysicalPages * PHYSICAL_PAGE_SIZE >= bufferSize
    ensures HasRoom(m, address, bufferSize)
  {
    var i :| 0 <= i < |m| && UsableMapped(m[i]) && address == m[i].virtualAddress
             && m[i].numPhysicalPages * PHYSICAL_PAGE_SIZE >= bufferSize;
    assert m[i] in m;
  }

  lemma NoRoom(m: seq<InitialMemMapEntry>, bufferSize: nat)
    requires forall i | 0 <= i < |m| :: !(UsableMapped(m[i]) && m[i].numPhysicalPages * PHYSICAL_PAGE_SIZE >= bufferSize)
    ensures !exists address: nat :: HasRoom(m, address, bufferSize)
  {
    forall e | e in m
      ensures !(UsableMapped(e) && bufferSize <= e.numPhysicalPages * PHYSICAL_PAGE_SIZE)
    {
      var i :| 0 <= i < |m| && m[i] == e;
    }
  }

  /** What the pipeline leaves behind. */
  datatype Structures =
    | Unavailable
    | Created(arena: TreeArena, memMap: PhysicalMemMap.PhysMemMapFill, bufferAddress: nat, bufferSize: nat)

  /** The bytes that both structures take for an initial map. */
  ghost function StructsSize(m: seq<InitialMemMapEntry>): nat {
    var rs := Coalesce(PhysicalRanges(m));
    LayoutOf(SizeFor(Trees(rs)), |rs| * PhysicalMemMap.PHYSICAL_RANGE_SIZE).bufferSize
  }

  /** Initial map, sizes, a place for the structures, and the structures. It fails only for want of memory. */
  method SetUpPhysicalMemory(ds: seq<MemoryDescriptor>)
    returns (result: Structures, ghost es: seq<InitialMemMapEntry>, ghost m: seq<InitialMemMapEntry>)
    requires WellFormed(ds) && Whole(DescriptorRanges(ds), PHYSICAL_PAGE_SIZE) && Reachable(ds)
    ensures IsIteration(ds, es)
    ensures Home(es).Some? ==> IsCarved(es, Home(es).value, m)
    ensures result.Unavailable? <==> Home(es).None? || !exists address: nat :: HasRoom(m, address, StructsSize(m))
    ensures Home(es).Some? <==> SomeRegionHoldsMap(es)
    ensures result.Created? ==> Home(es).Some? && result.bufferSize == StructsSize(m) && HasRoom(m, result.bufferAddress, result.bufferSize)
    ensures result.Created? ==>
              Ready(result.arena) &&
              TreesShow(result.arena, TakenByMap(m) + RegionPages(result.bufferAddress, result.bufferSize)) &&
              forall p :: PageAvailable(result.arena, p) <==>
                          FirmwareFree(ds, p) && !InMapPages(es, Home(es).value, p)
                          && p !in RegionPages(result.bufferAddress, result.bufferSize)
    ensures result.Created? ==> result.memMap.Valid() && result.memMap.Contents() == Coalesce(PhysicalRanges(es))
  {
    hide WellFormed, IsIteration, IsCarved, Ready, TreesShow, Whole, PageAvailable, FirmwareFree, InMapPages, RegionPages,
         WholePages, Trees, Coalesce, SizeFor, IdentityMapped, HasRoom, Reachable, Addressable, SomeRegionHoldsMap;
    var initial;
    initial, es := CreateInitialMemMapFromEfi(ds);
    if initial == null {
      return Unavailable, es, [];
    }
    var entries := initial.Contents();
    m := entries;
    ghost var k := Home(es).value;
    CarvedWhole(ds, es, k, m);
    CarvedIdentity(ds, es, k, m);
    CarvedReach(ds, es, k, m);
    MapTreesWhole(m);
    SomeTree(ds, es, k, m);
    var size, layout := GetPhysicalMemStructsSizeData(entries);
    assert layout.bufferSize == StructsSize(m);
    var address := FindStructsRegion(entries, layout.bufferSize);
    if address.None? {
      NoRoom(m, layout.bufferSize);
      return Unavailable, es, m;
    }
    FoundRoom(m, address.value, layout.bufferSize);
    var success, arena, memMap := CreatePhysicalMemStructs(entries, size, layout, address.value);
    if !success {
      return Unavailable, es, m;
    }
    result := Created(arena, memMap, address.value, layout.bufferSize);
    forall p
      ensures PageAvailable(arena, p) <==>
              FirmwareFree(ds, p) && !InMapPages(es, k, p) && p !in RegionPages(address.value, layout.bufferSize)
    {
      EndToEnd(ds, es, k, m, arena, address.value, layout.bufferSize, p);
    }
  }
}
