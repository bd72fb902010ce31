/** The kernel's first memory map: it is stored at the beginning of a region that it describes itself. */
module InitialMemMap {
  import opened Wrappers
  import opened RangeLists
  import opened UefiMemoryMap
  import opened MemoryUnits
  import opened PhysicalMemory
  import opened EfiMapIteration

  // ----- Where the map goes -----

  /** Pages that `size` bytes occupy. */
  function PagesFor(size: nat): nat { (size + PHYSICAL_PAGE_SIZE - 1) / PHYSICAL_PAGE_SIZE }

  /** They are the fewest pages that hold the bytes. */
  lemma PagesForLeast(size: nat, pages: nat)
    ensures pages >= PagesFor(size) <==> pages * PHYSICAL_PAGE_SIZE >= size
  {
  }

  predicate UsableMapped(e: InitialMemMapEntry) {
    e.attributes.memoryType == Usable && e.attributes.usage == MappedUsage
  }

  /** The first of the largest usable mapped regions. */
  function LargestUsable(es: seq<InitialMemMapEntry>): (k: Option<nat>)
    ensures k.Some? ==> k.value < |es| && UsableMapped(es[k.value]) && es[k.value].numPhysicalPages > 0
  {
    if es == [] then None
    else
      var n := |es| - 1;
      var best := LargestUsable(es[..n]);
      if UsableMapped(es[n]) && es[n].numPhysicalPages > (if best.Some? then es[best.value].numPhysicalPages else 0)
      then Some(n) else best
  }

  lemma {:induction false} LargestUsableIsLargest(es: seq<InitialMemMapEntry>)
    ensures forall i | 0 <= i < |es| && UsableMapped(es[i]) ::
              es[i].numPhysicalPages <= (if LargestUsable(es).Some? then es[LargestUsable(es).value].numPhysicalPages else 0)
  {
    if es != [] {
      var n := |es| - 1;
      LargestUsableIsLargest(es[..n]);
      forall i | 0 <= i < |es| && UsableMapped(es[i])
        ensures es[i].numPhysicalPages <= (if LargestUsable(es).Some? then es[LargestUsable(es).value].numPhysicalPages else 0)
      {
        if i < n { assert es[..n][i] == es[i]; }
      }
    }
  }

  /** It is the first of them. */
  lemma {:induction false} LargestUsableIsFirst(es: seq<InitialMemMapEntry>, i: nat)
    requires LargestUsable(es).Some? && i < LargestUsable(es).value && UsableMapped(es[i])
    ensures es[i].numPhysicalPages < es[LargestUsable(es).value].numPhysicalPages
  {
    var n := |es| - 1;
    if LargestUsable(es).value == n {
      LargestUsableIsLargest(es[..n]);
      assert es[..n][i] == es[i];
    } else {
      LargestUsableIsFirst(es[..n], i);
    }
  }

  /** Bytes for every range, and for one entry more that tells where the map itself is. */
  function RequiredSize(es: seq<InitialMemMapEntry>): nat { (|es| + 1) * INITIAL_ENTRY_SIZE }

  /** The region that holds the map, if there is one with enough pages. */
  function Home(es: seq<InitialMemMapEntry>): (k: Option<nat>)
    ensures k.Some? ==> k == LargestUsable(es) && es[k.value].numPhysicalPages >= PagesFor(RequiredSize(es))
  {
    var k := LargestUsable(es);
    if k.Some? && es[k.value].numPhysicalPages >= PagesFor(RequiredSize(es)) then k else None
  }

  /** Some usable mapped region has the bytes for an entry for every range, and for one more. */
  ghost predicate SomeRegionHoldsMap(es: seq<InitialMemMapEntry>) {
    exists e :: e in es && UsableMapped(e) && (|es| + 1) * INITIAL_ENTRY_SIZE <= e.numPhysicalPages * PHYSICAL_PAGE_SIZE
  }

  /** There is room if and only if some region is large enough. */
  lemma HomeIff(es: seq<InitialMemMapEntry>)
    ensures Home(es).Some? <==> SomeRegionHoldsMap(es)
  {
    hide PagesFor, LargestUsable;
    LargestUsableIsLargest(es);
    forall i | 0 <= i < |es|
      ensures es[i].numPhysicalPages >= PagesFor(RequiredSize(es))
              <==> (|es| + 1) * INITIAL_ENTRY_SIZE <= es[i].numPhysicalPages * PHYSICAL_PAGE_SIZE
    {
      PagesForLeast(RequiredSize(es), es[i].numPhysicalPages);
    }
    SomePage(RequiredSize(es));
    if e :| e in es && UsableMapped(e) && (|es| + 1) * INITIAL_ENTRY_SIZE <= e.numPhysicalPages * PHYSICAL_PAGE_SIZE {
      var i :| 0 <= i < |es| && es[i] == e;
    }
  }

  lemma SomePage(size: nat)
    ensures size > 0 ==> PagesFor(size) > 0
  {
  }

  /** The room begins a usable mapped region, which no such region exceeds in size, and takes the bytes of one
      entry more than there are ranges. */
  ghost predicate IsRoom(es: seq<InitialMemMapEntry>, room: Allocation) {
    room.size == (|es| + 1) * INITIAL_ENTRY_SIZE &&
    exists e :: e in es && UsableMapped(e) && room.size <= e.numPhysicalPages * PHYSICAL_PAGE_SIZE &&
                room.physicalAddress == e.physicalAddress && room.virtualAddress == e.virtualAddress &&
                forall f | f in es && UsableMapped(f) :: f.numPhysicalPages <= e.numPhysicalPages
  }

  lemma RoomForIsRoom(es: seq<InitialMemMapEntry>)
    ensures RoomFor(es).Some? <==> SomeRegionHoldsMap(es)
    ensures RoomFor(es).Some? ==> IsRoom(es, RoomFor(es).value)
  {
    hide PagesFor, LargestUsable, SomeRegionHoldsMap;
    HomeIff(es);
    LargestUsableIsLargest(es);
    if Home(es).Some? {
      var e := es[Home(es).value];
      PagesForLeast(RequiredSize(es), e.numPhysicalPages);
      assert e in es;
    }
  }

  datatype Allocation = Allocation(physicalAddress: nat, virtualAddress: nat, size: nat)

  /** The room that the map gets, given what the iteration over the firmware's map emits. */
  function RoomFor(es: seq<InitialMemMapEntry>): Option<Allocation> {
    match Home(es)
    case None => None
    case Some(k) => Some(Allocation(es[k].physicalAddress, es[k].virtualAddress, RequiredSize(es)))
  }

  /** Finds room for the map. The iteration emits the same entries every time, so that any account of
      what it emits gives the room. */
  method AllocInitMemMapMemory(ds: seq<MemoryDescriptor>) returns (room: Option<Allocation>, ghost es: seq<InitialMemMapEntry>)
    requires WellFormed(ds)
    ensures IsIteration(ds, es)
    ensures room == RoomFor(es)
    ensures room.Some? <==> SomeRegionHoldsMap(es)
    ensures room.Some? ==> IsRoom(es, room.value)
    ensures forall fs | IsIteration(ds, fs) :: room == RoomFor(fs)
  {
    hide IsIteration, SomeRegionHoldsMap, IsRoom;
    var emitted := IterEfiMemMapAsInitMap(ds);
    es := emitted;
    var numRegions := 0;
    var address, virtualAddress, largest := 0, 0, 0;
    for i := 0 to |emitted|
      invariant numRegions == i
      invariant match LargestUsable(emitted[..i])
                case None => largest == 0
                case Some(k) => largest == emitted[k].numPhysicalPages && address == emitted[k].physicalAddress
                                && virtualAddress == emitted[k].virtualAddress
    {
      assert emitted[..i + 1][..i] == emitted[..i];
      var e := emitted[i];
      numRegions := numRegions + 1;
      if e.attributes.memoryType == Usable && e.attributes.usage == MappedUsage && e.numPhysicalPages > largest {
        address, virtualAddress, largest := e.physicalAddress, e.virtualAddress, e.numPhysicalPages;
      }
    }
    assert emitted[..|emitted|] == emitted;
    numRegions := numRegions + 1;
    var requiredSize := numRegions * INITIAL_ENTRY_SIZE;
    var requiredPages := (requiredSize + PHYSICAL_PAGE_SIZE - 1) / PHYSICAL_PAGE_SIZE;
    if largest >= requiredPages {
      room := Some(Allocation(address, virtualAddress, requiredSize));
    } else {
      room := None;
    }
    RoomForIsRoom(es);
    forall fs | IsIteration(ds, fs) ensures room == RoomFor(fs) {
      IterationUnique(ds, es, fs);
    }
  }

  // ----- Filling the map -----

  /** The entries that describe a region, when the map takes `pages` pages at `address`. */
  function CarveOne(e: InitialMemMapEntry, address: nat, pages: nat): seq<InitialMemMapEntry>
    requires e.physicalAddress == address ==> pages <= e.numPhysicalPages
  {
    if e.physicalAddress != address then [e]
    else
      var own := e.(attributes := e.attributes.(usage := InitialMemMapUsage), numPhysicalPages := pages);
      if e.numPhysicalPages == pages then [own]
      else [own, e.(physicalAddress := e.physicalAddress + pages * PHYSICAL_PAGE_SIZE,
                    virtualAddress := e.virtualAddress + pages * PHYSICAL_PAGE_SIZE,
                    numPhysicalPages := e.numPhysicalPages - pages)]
  }

  ghost predicate Carvable(es: seq<InitialMemMapEntry>, address: nat, pages: nat) {
    forall i | 0 <= i < |es| :: es[i].physicalAddress == address ==> pages <= es[i].numPhysicalPages
  }

  ghost function Carve(es: seq<InitialMemMapEntry>, address: nat, pages: nat): seq<InitialMemMapEntry>
    requires Carvable(es, address, pages)
  {
    if es == [] then []
    else Carve(es[..|es| - 1], address, pages) + CarveOne(es[|es| - 1], address, pages)
  }

  /** As many of the items as there is room for. */
  function Fitted<T>(items: seq<T>, capacity: nat): seq<T> {
    if |items| <= capacity then items else items[..capacity]
  }

  /** The map being filled: an array of entries in the pages set aside for it. */
  class InitMemMapCreation {
    const entries: array<InitialMemMapEntry>
    const availableSize: nat
    const initMapPhysAddress: nat
    const numInitMapPages: nat
    var numEntries: nat
    var success: bool

    predicate Valid()
      reads this
    {
      numEntries <= entries.Length && availableSize == entries.Length * INITIAL_ENTRY_SIZE
    }

    function Contents(): seq<InitialMemMapEntry>
      requires Valid()
      reads this, entries
    {
      entries[..numEntries]
    }

    constructor (entries: array<InitialMemMapEntry>, availableSize: nat, address: nat)
      requires availableSize == entries.Length * INITIAL_ENTRY_SIZE
      ensures Valid() && success && Contents() == []
      ensures this.entries == entries && initMapPhysAddress == address && numInitMapPages == PagesFor(availableSize)
    {
      this.entries, this.availableSize, this.initMapPhysAddress := entries, availableSize, address;
      numInitMapPages := PagesFor(availableSize);
      numEntries, success := 0, true;
    }

    method Append(e: InitialMemMapEntry) returns (ok: bool)
      requires Valid()
      modifies this`numEntries, this`success, entries
      ensures Valid()
      ensures ok <==> old(|Contents()|) < entries.Length
      ensures Contents() == Fitted(old(Contents()) + [e], entries.Length)
      ensures success == (old(success) && ok)
    {
      if numEntries * INITIAL_ENTRY_SIZE >= availableSize {
        success := false;
        return false;
      }
      entries[numEntries] := e;
      numEntries := numEntries + 1;
      return true;
    }

    /** The callback of the filling pass. */
    method FillInitMemMapEntry(e: InitialMemMapEntry)
      requires Valid()
      requires e.physicalAddress == initMapPhysAddress ==> numInitMapPages <= e.numPhysicalPages
      modifies this`numEntries, this`success, entries
      ensures Valid()
      ensures Contents() == Fitted(old(Contents()) + CarveOne(e, initMapPhysAddress, numInitMapPages), entries.Length)
      ensures success == (old(success)
                          && |old(Contents()) + CarveOne(e, initMapPhysAddress, numInitMapPages)| <= entries.Length)
    {
      if e.physicalAddress == initMapPhysAddress {
        var own := e.(attributes := e.attributes.(usage := InitialMemMapUsage), numPhysicalPages := numInitMapPages);
        var ok := Append(own);
        if !ok {
          return;
        }
        if e.numPhysicalPages == numInitMapPages {
          return;
        }
        var rest := e.(physicalAddress := e.physicalAddress + numInitMapPages * PHYSICAL_PAGE_SIZE,
                       virtualAddress := e.virtualAddress + numInitMapPages * PHYSICAL_PAGE_SIZE,
                       numPhysicalPages := e.numPhysicalPages - numInitMapPages);
        ok := Append(rest);
        assert old(Contents()) + [own] + [rest] == old(Contents()) + [own, rest];
      } else {
        var ok := Append(e);
      }
    }
  }

  // ----- What the carved map says -----

  /** Carving touches only the region that begins at the address. */
  lemma {:induction false} CarveSplit(es: seq<InitialMemMapEntry>, k: nat, pages: nat)
    requires k < |es| && pages <= es[k].numPhysicalPages
    requires forall i | 0 <= i < |es| && i != k :: es[i].physicalAddress != es[k].physicalAddress
    ensures Carvable(es, es[k].physicalAddress, pages)
    ensures Carve(es, es[k].physicalAddress, pages) ==
            es[..k] + CarveOne(es[k], es[k].physicalAddress, pages) + es[k + 1..]
    decreases |es|
  {
    var n := |es| - 1;
    var address := es[k].physicalAddress;
    if k < n {
      assert es[..n][k] == es[k] && es[..n][..k] == es[..k];
      CarveSplit(es[..n], k, pages);
      var tail := es[..n][k + 1..];
      assert es[k + 1..] == tail + [es[n]];
      assert CarveOne(es[n], address, pages) == [es[n]];
    } else {
      assert es[..k] == es[..n] && es[k + 1..] == [];
      CarveNothing(es[..n], address, pages);
    }
  }

  lemma {:induction false} CarveNothing(es: seq<InitialMemMapEntry>, address: nat, pages: nat)
    requires forall i | 0 <= i < |es| :: es[i].physicalAddress != address
    ensures Carve(es, address, pages) == es
  {
    if es != [] {
      CarveNothing(es[..|es| - 1], address, pages);
    }
  }

  lemma CarveStep(es: seq<InitialMemMapEntry>, i: nat, address: nat, pages: nat)
    requires i < |es| && Carvable(es, address, pages)
    ensures Carve(es[..i + 1], address, pages) == Carve(es[..i], address, pages) + CarveOne(es[i], address, pages)
  {
    assert es[..i + 1][..i] == es[..i];
  }

  lemma {:induction false} CarvePrefix(es: seq<InitialMemMapEntry>, i: nat, address: nat, pages: nat)
    requires i <= |es| && Carvable(es, address, pages)
    ensures |Carve(es[..i], address, pages)| <= |Carve(es, address, pages)|
    decreases |es|
  {
    if i == |es| {
      assert es[..i] == es;
    } else {
      var n := |es| - 1;
      CarvePrefix(es[..n], i, address, pages);
      assert es[..n][..i] == es[..i];
    }
  }

  /** The iteration is determined by the firmware's map: the second pass emits what the first did. */
  lemma IterationUnique(ds: seq<MemoryDescriptor>, es: seq<InitialMemMapEntry>, fs: seq<InitialMemMapEntry>)
    requires IsIteration(ds, es) && IsIteration(ds, fs)
    ensures es == fs
  {
    hide Canonical, At;
    CanonicalUnique(Ranges(es), Ranges(fs));
    assert |es| == |fs|;
    forall i | 0 <= i < |es|
      ensures es[i] == fs[i]
    {
      assert Ranges(es)[i] == Ranges(fs)[i];
      assert es[i].numPhysicalPages * PHYSICAL_PAGE_SIZE == fs[i].numPhysicalPages * PHYSICAL_PAGE_SIZE;
    }
  }

  /** Emitted regions begin at different addresses. */
  lemma DistinctStarts(es: seq<InitialMemMapEntry>, k: nat)
    requires Ascending(Ranges(es)) && k < |es|
    ensures forall i | 0 <= i < |es| && i != k :: es[i].physicalAddress != es[k].physicalAddress
  {
    forall i | 0 <= i < |es| && i != k
      ensures es[i].physicalAddress != es[k].physicalAddress
    {
      assert Ranges(es)[i] == es[i].AsRange() && Ranges(es)[k] == es[k].AsRange();
      assert Ranges(es)[i].start < Ranges(es)[i].end && Ranges(es)[k].start < Ranges(es)[k].end;
      assert i < k ==> Ranges(es)[i].end <= Ranges(es)[k].start;
      assert k < i ==> Ranges(es)[k].end <= Ranges(es)[i].start;
    }
  }

  /** `m` is the map of the iteration `es`, stored at the beginning of region `k`. */
  ghost predicate IsCarved(es: seq<InitialMemMapEntry>, k: nat, m: seq<InitialMemMapEntry>) {
    && Home(es) == Some(k)
    && var pages := PagesFor(RequiredSize(es));
       m == es[..k] + CarveOne(es[k], es[k].physicalAddress, pages) + es[k + 1..]
  }

  /** Builds the map in the room found for it. It fails only when no usable region is large enough:
      the filling pass never runs out of room. */
  method CreateInitialMemMapFromEfi(ds: seq<MemoryDescriptor>)
    returns (m: InitMemMapCreation?, ghost es: seq<InitialMemMapEntry>)
    requires WellFormed(ds)
    ensures IsIteration(ds, es)
    ensures m == null <==> Home(es).None?
    ensures m != null <==> SomeRegionHoldsMap(es)
    ensures m != null ==> fresh(m) && fresh(m.entries) && m.Valid() && m.success && IsCarved(es, Home(es).value, m.Contents())
  {
    hide WellFormed, IsIteration, CarveOne, Carve, Fitted, Carvable, SomeRegionHoldsMap, IsRoom;
    var room: Option<Allocation>;
    room, es := AllocInitMemMapMemory(ds);
    if room.None? {
      return null, es;
    }
    ghost var k := Home(es).value;
    ghost var pages := PagesFor(RequiredSize(es));
    CarvedWithin(ds, es, k, pages);
    var capacity := room.value.size / INITIAL_ENTRY_SIZE;
    var entries := new InitialMemMapEntry[capacity];
    m := new InitMemMapCreation(entries, room.value.size, room.value.physicalAddress);
    var emitted := IterEfiMemMapAsInitMap(ds);
    IterationUnique(ds, es, emitted);
    CarveEmpty(m.initMapPhysAddress, pages);
    for i := 0 to |emitted|
      invariant m.Valid() && fresh(m) && m.entries == entries && m.success
      invariant m.initMapPhysAddress == es[k].physicalAddress && m.numInitMapPages == pages
      invariant Carvable(es, m.initMapPhysAddress, pages) && Carvable(es[..i], m.initMapPhysAddress, pages)
      invariant m.Contents() == Carve(es[..i], m.initMapPhysAddress, pages)
    {
      CarvableAt(es, i, m.initMapPhysAddress, pages);
      CarveStep(es, i, m.initMapPhysAddress, pages);
      CarvePrefix(es, i + 1, m.initMapPhysAddress, pages);
      FittedAll(m.Contents() + CarveOne(es[i], m.initMapPhysAddress, pages), capacity);
      m.FillInitMemMapEntry(emitted[i]);
    }
    assert es[..|es|] == es;
  }

  lemma FittedAll<T>(items: seq<T>, capacity: nat)
    requires |items| <= capacity
    ensures Fitted(items, capacity) == items
  {
  }

  lemma CarveEmpty(address: nat, pages: nat)
    ensures Carvable([], address, pages) && Carve([], address, pages) == []
  {
  }

  lemma CarvableAt(es: seq<InitialMemMapEntry>, i: nat, address: nat, pages: nat)
    requires Carvable(es, address, pages) && i < |es|
    ensures Carvable(es[..i], address, pages) && Carvable(es[..i + 1], address, pages)
    ensures es[i].physicalAddress == address ==> pages <= es[i].numPhysicalPages
  {
  }

  /** The carved map has at most one entry more than the iteration emitted. */
  lemma CarvedWithin(ds: seq<MemoryDescriptor>, es: seq<InitialMemMapEntry>, k: nat, pages: nat)
    requires IsIteration(ds, es) && Home(es) == Some(k) && pages == PagesFor(RequiredSize(es))
    ensures Carvable(es, es[k].physicalAddress, pages)
    ensures Carve(es, es[k].physicalAddress, pages) == es[..k] + CarveOne(es[k], es[k].physicalAddress, pages) + es[k + 1..]
    ensures |Carve(es, es[k].physicalAddress, pages)| <= |es| + 1
  {
    DistinctStarts(es, k);
    CarveSplit(es, k, pages);
  }
}
