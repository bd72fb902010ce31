/** Setting up the early page maps: the builder run over every covered region, and the whole
    path from the firmware's memory map to a map that fills its buffer exactly. */
module PageMapSetup {
  import opened Wrappers
  import opened Paging
  import opened UefiMemoryMap
  import opened MappedRegions
  import opened PageMapCoverage
  import opened PageMapState
  import opened PageMapBuilder
  import PageMapSizing

  /** The addresses that a map with a root table of this level can translate to themselves. */
  function AddressLimit(levels: nat): nat
    requires 2 <= levels <= 5
  {
    if Span(levels) < PHYSICAL_LIMIT then Span(levels) else PHYSICAL_LIMIT
  }

  /** The tables of a complete map: the root, and every table that a covered page falls under. */
  ghost function AllTables(levels: nat, pages: set<nat>): set<Key>
    requires levels >= 1
  {
    {Key(levels, 0)} + Needed(levels - 1, pages)
  }

  /** The map covers exactly the given pages, with exactly the tables they need. */
  ghost predicate Complete(map_: PageMapBuffer, pages: set<nat>)
    reads map_, map_.words
  {
    map_.Valid() && map_.levels >= 1 && map_.pages == pages && map_.tables.Keys == AllTables(map_.levels, pages)
  }

  lemma {:induction false} RegionsAppend(rs: seq<Region>, r: Region)
    ensures PagesOfRegions(rs + [r]) == PagesOfRegions(rs) + PagesOf(r.base, r.last)
  {
    assert (rs + [r])[..|rs|] == rs;
  }

  lemma {:induction false} PagesGrow(rs: seq<Region>, more: seq<Region>)
    ensures PagesOfRegions(rs) <= PagesOfRegions(rs + more)
  {
    hide PagesOfRegions, PagesOf;
    if more == [] {
      assert rs + more == rs;
    } else {
      var n := |more| - 1;
      PagesGrow(rs, more[..n]);
      assert rs + more == (rs + more[..n]) + [more[n]];
      RegionsAppend(rs + more[..n], more[n]);
    }
  }

  lemma NeededGrows(level: nat, a: set<nat>, b: set<nat>)
    requires a <= b
    ensures Needed(level, a) <= Needed(level, b)
  {
    assert a + b == b;
    NeededUnion(level, a, b);
  }

  /** The tables and pages of the regions mapped so far. */
  ghost predicate Mapped(capacity: nat, levels: nat, done: seq<Region>, keys: set<Key>, pages: set<nat>)
    requires levels >= 1
  {
    Outcome(true, capacity, {Key(levels, 0)}, {}, Needed(levels - 1, PagesOfRegions(done)), PagesOfRegions(done), keys, pages)
  }

  /** One more region mapped. */
  lemma RegionMapped(capacity: nat, levels: nat, done: seq<Region>, r: Region,
                     keys1: set<Key>, pages1: set<nat>, keys: set<Key>, pages: set<nat>)
    requires levels >= 1 && Mapped(capacity, levels, done, keys1, pages1)
    requires Outcome(true, capacity, keys1, pages1, Needed(levels - 1, PagesOf(r.base, r.last)), PagesOf(r.base, r.last), keys, pages)
    ensures Mapped(capacity, levels, done + [r], keys, pages)
  {
    hide PagesOf, PagesOfRegions, Needed, Outcome;
    RegionsAppend(done, r);
    NeededUnion(levels - 1, PagesOfRegions(done), PagesOf(r.base, r.last));
    OutcomeBoth(capacity, {Key(levels, 0)}, {}, Needed(levels - 1, PagesOfRegions(done)), PagesOfRegions(done), keys1, pages1,
                Needed(levels - 1, PagesOf(r.base, r.last)), PagesOf(r.base, r.last), keys, pages);
  }

  /** Not enough room for one more region, and so not for any regions that include it. */
  lemma RegionFailed(capacity: nat, levels: nat, done: seq<Region>, r: Region, rest: seq<Region>,
                     keys1: set<Key>, pages1: set<nat>, keys: set<Key>, pages: set<nat>)
    requires levels >= 1 && Mapped(capacity, levels, done, keys1, pages1)
    requires Outcome(false, capacity, keys1, pages1, Needed(levels - 1, PagesOf(r.base, r.last)), PagesOf(r.base, r.last), keys, pages)
    ensures |AllTables(levels, PagesOfRegions(done + [r] + rest))| > capacity
  {
    hide PagesOf, PagesOfRegions, Needed, Outcome;
    var before, step, all := PagesOfRegions(done), PagesOf(r.base, r.last), PagesOfRegions(done + [r] + rest);
    RegionsAppend(done, r);
    PagesGrow(done + [r], rest);
    NeededGrows(levels - 1, before, all);
    NeededGrows(levels - 1, step, all);
    OutcomeFails(capacity, {Key(levels, 0)}, {}, Needed(levels - 1, before), before, keys1, pages1,
                 Needed(levels - 1, step), step, keys, pages, Needed(levels - 1, all), all);
    FailedOutcome(capacity, {Key(levels, 0)}, {}, Needed(levels - 1, all), all, keys, pages);
  }

  lemma FailedOutcome(capacity: nat, keys0: set<Key>, pages0: set<nat>, need: set<Key>, more: set<nat>,
                      keys: set<Key>, pages: set<nat>)
    requires Outcome(false, capacity, keys0, pages0, need, more, keys, pages)
    ensures |keys0 + need| > capacity
  {
  }

  /** Maps one region after those in `done`; when that fails, no buffer of this size fits them all. */
  method MapRegion(pageMap: PageMapBuffer, r: Region, ghost done: seq<Region>, ghost all: seq<Region>)
    returns (ok: bool)
    requires pageMap.Valid() && pageMap.levels >= 1
    requires r.last <= PHYSICAL_LIMIT && r.last <= Span(pageMap.levels)
    requires done + [r] <= all
    requires Mapped(pageMap.words.Length / TABLE_WORDS, pageMap.levels, done, pageMap.tables.Keys, pageMap.pages)
    modifies pageMap, pageMap.words
    ensures pageMap.Valid()
    ensures ok ==> Mapped(pageMap.words.Length / TABLE_WORDS, pageMap.levels, done + [r], pageMap.tables.Keys, pageMap.pages)
    ensures !ok ==> |AllTables(pageMap.levels, PagesOfRegions(all))| > pageMap.words.Length / TABLE_WORDS
  {
    hide AllTables, PagesOfRegions, Needed, Outcome, PagesOf, Mapped, Span;
    ghost var capacity, keys1, pages1 := pageMap.words.Length / TABLE_WORDS, pageMap.tables.Keys, pageMap.pages;
    ok := pageMap.MapMemoryRange(r.base, r.last);
    if ok {
      RegionMapped(capacity, pageMap.levels, done, r, keys1, pages1, pageMap.tables.Keys, pageMap.pages);
    } else {
      assert all == done + [r] + all[|done| + 1..];
      RegionFailed(capacity, pageMap.levels, done, r, all[|done| + 1..], keys1, pages1, pageMap.tables.Keys, pageMap.pages);
    }
  }

  /** Builds a page map in the buffer of `bufferSize` bytes at `address`. It succeeds exactly when the
      buffer is page-aligned and has room for the root table and every table that is needed. */
  method SetupPageMap(levels: nat, kind: MapKind, ds: seq<MemoryDescriptor>, framebuffer: Option<Region>,
                      address: nat, words: array<nat>, bufferSize: nat)
    returns (pageMap: PageMapBuffer?)
    requires 2 <= levels <= 5
    requires words.Length == bufferSize / 8 && address + bufferSize <= PHYSICAL_LIMIT
    requires AllWithin(Regions(kind, ds, framebuffer), AddressLimit(levels))
    modifies words
    ensures var pages := PagesOfRegions(Regions(kind, ds, framebuffer));
            && (pageMap != null <==> address % PAGE_SIZE == 0 && |AllTables(levels, pages)| <= bufferSize / TABLE_SIZE)
            && (pageMap != null ==> Complete(pageMap, pages))
    ensures pageMap != null ==> forall va: nat :: va / PAGE_SIZE in pageMap.pages <==> Wanted(kind, ds, framebuffer, va)
    ensures pageMap != null ==> fresh(pageMap) && pageMap.base == address && pageMap.words == words && pageMap.levels == levels
  {
    hide AllTables, PagesOfRegions, Needed, Mapped, Span, Wanted;
    ghost var rs := Regions(kind, ds, framebuffer);
    RootCounts(levels, PagesOfRegions(rs));
    if address % PAGE_SIZE != 0 {
      return null;
    }
    if bufferSize < TABLE_SIZE {
      return null;
    }
    pageMap := new PageMapBuffer(address, levels, words);
    NothingMapped(words.Length / TABLE_WORDS, levels, pageMap.tables.Keys, pageMap.pages);
    ghost var done: seq<Region> := [];
    for i := 0 to |ds|
      invariant pageMap.Valid() && fresh(pageMap)
      invariant done == DescriptorRegions(kind, ds[..i])
      invariant Mapped(words.Length / TABLE_WORDS, levels, done, pageMap.tables.Keys, pageMap.pages)
    {
      RegionsOfPrefix(kind, ds, framebuffer, i);
      if ShouldInclude(kind, ds[i]) {
        assert rs[|done|] == RegionOf(ds[i]);
        var ok := MapRegion(pageMap, RegionOf(ds[i]), done, rs);
        if !ok {
          return null;
        }
        done := done + [RegionOf(ds[i])];
      }
    }
    assert ds[..|ds|] == ds;
    if framebuffer.Some? {
      assert rs[|done|] == framebuffer.value;
      var ok := MapRegion(pageMap, framebuffer.value, done, rs);
      if !ok {
        return null;
      }
      done := done + [framebuffer.value];
    }
    assert done == rs;
    AllMapped(words.Length / TABLE_WORDS, levels, rs, pageMap.tables.Keys, pageMap.pages);
    CoveredAreWanted(kind, ds, framebuffer);
  }

  lemma RegionsOfPrefix(kind: MapKind, ds: seq<MemoryDescriptor>, framebuffer: Option<Region>, i: nat)
    requires i < |ds|
    ensures DescriptorRegions(kind, ds[..i + 1]) ==
            DescriptorRegions(kind, ds[..i]) + (if ShouldInclude(kind, ds[i]) then [RegionOf(ds[i])] else [])
    ensures var done := DescriptorRegions(kind, ds[..i]);
            var rs := Regions(kind, ds, framebuffer);
            ShouldInclude(kind, ds[i]) ==>
              done + [RegionOf(ds[i])] <= rs
  {
    assert ds[..i + 1][..i] == ds[..i];
    RegionsPrefix(kind, ds, i + 1);
  }

  lemma {:induction false} RegionsPrefix(kind: MapKind, ds: seq<MemoryDescriptor>, i: nat)
    requires i <= |ds|
    ensures DescriptorRegions(kind, ds[..i]) <= DescriptorRegions(kind, ds)
    decreases |ds|
  {
    if i == |ds| {
      assert ds[..i] == ds;
    } else {
      var n := |ds| - 1;
      RegionsPrefix(kind, ds[..n], i);
      assert ds[..n][..i] == ds[..i];
    }
  }

  /** Even an empty map needs its root table, so a buffer smaller than one table never suffices. */
  lemma RootCounts(levels: nat, pages: set<nat>)
    requires levels >= 1
    ensures |AllTables(levels, pages)| == 1 + |Needed(levels - 1, pages)|
  {
    assert Key(levels, 0) !in Needed(levels - 1, pages);
  }

  lemma NothingMapped(capacity: nat, levels: nat, keys: set<Key>, pages: set<nat>)
    requires levels >= 1 && capacity >= 1 && keys == {Key(levels, 0)} && pages == {}
    ensures Mapped(capacity, levels, [], keys, pages)
  {
    NeededNothing(levels - 1);
    assert keys + {} == keys;
  }

  lemma AllMapped(capacity: nat, levels: nat, rs: seq<Region>, keys: set<Key>, pages: set<nat>)
    requires levels >= 1 && Mapped(capacity, levels, rs, keys, pages)
    ensures keys == AllTables(levels, PagesOfRegions(rs)) && pages == PagesOfRegions(rs)
    ensures |AllTables(levels, PagesOfRegions(rs))| <= capacity
  {
    hide Needed, PagesOfRegions;
    assert {} + PagesOfRegions(rs) == PagesOfRegions(rs);
  }

  // ----- What the maps mean -----

  /** The processor, walking a finished map in physical memory, sends every byte of every covered
      page to itself, writable, and faults on every other address it can translate. */
  lemma IdentityMap(memory: nat -> nat, pageMap: PageMapBuffer, pages: set<nat>, va: nat)
    requires Complete(pageMap, pages) && Holds(memory, pageMap.View())
    requires va < Span(pageMap.levels)
    ensures Walk(memory, pageMap.levels, pageMap.base, va) ==
            if va / PAGE_SIZE in pages then Translation.Mapped(va, true) else Fault
  {
    IdentityExactly(memory, pageMap.View(), va);
  }

  /** A buffer has room for all tables if and only if it has the bytes for them. */
  lemma RoomInBytes(levels: nat, pages: set<nat>, bufferSize: nat)
    requires levels >= 1
    ensures |AllTables(levels, pages)| <= bufferSize / TABLE_SIZE
            <==> TABLE_SIZE * (1 + |Needed(levels - 1, pages)|) <= bufferSize
  {
    RootCounts(levels, pages);
  }

  /** Sizing and then building in a buffer of any size: building succeeds in a page-aligned buffer if and
      only if the buffer has at least the bytes that the sizing pass asks for. */
  method SizeAndSetup(levels: nat, kind: MapKind, ds: seq<MemoryDescriptor>, framebuffer: Option<Region>,
                      address: nat, words: array<nat>, bufferSize: nat)
    returns (size: nat, pageMap: PageMapBuffer?)
    requires 2 <= levels <= 5
    requires words.Length == bufferSize / 8 && address + bufferSize <= PHYSICAL_LIMIT
    requires var rs := Regions(kind, ds, framebuffer);
             AllWithin(rs, AddressLimit(levels)) && Disjoint(rs) && ScanEnds(DescriptorRegions(kind, ds), framebuffer)
    modifies words
    ensures pageMap != null <==> address % PAGE_SIZE == 0 && size <= bufferSize
    ensures pageMap != null ==> Complete(pageMap, PagesOfRegions(Regions(kind, ds, framebuffer)))
    ensures pageMap != null ==> forall va: nat :: va / PAGE_SIZE in pageMap.pages <==> Wanted(kind, ds, framebuffer, va)
  {
    hide PagesOfRegions, Needed, AllTables, Disjoint, ScanEnds, Wanted;
    ghost var pages := PagesOfRegions(Regions(kind, ds, framebuffer));
    size := PageMapSizing.CalculatePageMapSize(levels, kind, ds, framebuffer);
    RoomInBytes(levels, pages, bufferSize);
    pageMap := SetupPageMap(levels, kind, ds, framebuffer, address, words, bufferSize);
  }

  /** Sizing, allocating and building: with as many bytes as the sizing pass asks for the builder
      never fails, and it uses every table of the buffer. */
  method CreatePageMap(levels: nat, kind: MapKind, ds: seq<MemoryDescriptor>, framebuffer: Option<Region>, address: nat)
    returns (size: nat, pageMap: PageMapBuffer?)
    requires 2 <= levels <= 5
    requires var rs := Regions(kind, ds, framebuffer);
             && AllWithin(rs, AddressLimit(levels)) && Disjoint(rs) && ScanEnds(DescriptorRegions(kind, ds), framebuffer)
             && address % PAGE_SIZE == 0
             && address + TABLE_SIZE * |AllTables(levels, PagesOfRegions(rs))| <= PHYSICAL_LIMIT
    ensures pageMap != null && fresh(pageMap) && pageMap.levels == levels && pageMap.base == address
    ensures Complete(pageMap, PagesOfRegions(Regions(kind, ds, framebuffer)))
    ensures forall va: nat :: va / PAGE_SIZE in pageMap.pages <==> Wanted(kind, ds, framebuffer, va)
    ensures size == TABLE_SIZE * |AllTables(levels, PagesOfRegions(Regions(kind, ds, framebuffer)))|
    ensures pageMap.next == pageMap.words.Length == size / 8
  {
    hide PagesOfRegions, Needed, AllTables, Disjoint, ScanEnds, Wanted;
    ghost var pages := PagesOfRegions(Regions(kind, ds, framebuffer));
    size := PageMapSizing.CalculatePageMapSize(levels, kind, ds, framebuffer);
    RoomInBytes(levels, pages, size);
    RootCounts(levels, pages);
    var words := new nat[size / 8];
    pageMap := SetupPageMap(levels, kind, ds, framebuffer, address, words, size);
    pageMap.Bounds();
  }
}
