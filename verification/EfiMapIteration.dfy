/** Reading the firmware's memory map in ascending order, as merged ranges of kernel attributes. */
module EfiMapIteration {
  import opened Wrappers
  import opened RangeLists
  import opened UefiMemoryMap
  import opened MemoryUnits
  import opened PhysicalMemory
  import MappedRegions

  // ----- Conversions -----

  function ToMemoryType(t: EfiMemoryType): MemoryType {
    match t
    case EfiUnusableMemory => Unusable
    case EfiReservedMemoryType | EfiMemoryMappedIO | EfiMemoryMappedIOPortSpace | EfiPalCode => FirmwareReserved
    case EfiUnacceptedMemoryType => Unaccepted
    case EfiConventionalMemory | EfiLoaderCode | EfiLoaderData => Usable
    case EfiPersistentMemory => UsablePersistent
    case EfiACPIReclaimMemory => AcpiReclaim
    case EfiACPIMemoryNVS => AcpiNvs
    case EfiBootServicesCode => EfiBootServicesCodeMemory
    case EfiBootServicesData => EfiBootServicesDataMemory
    case EfiRuntimeServicesCode => EfiRuntimeServicesCodeMemory
    case EfiRuntimeServicesData => EfiRuntimeServicesDataMemory
    case EfiOtherMemoryType(_) => FirmwareReserved
  }

  function ToUsage(t: EfiMemoryType): Usage {
    match t
    case EfiConventionalMemory | EfiPersistentMemory | EfiBootServicesCode | EfiBootServicesData
       | EfiRuntimeServicesCode | EfiRuntimeServicesData => MappedUsage
    case EfiLoaderCode => KernelCode
    case EfiLoaderData => KernelData
    case _ => NoUsage
  }

  /** The kernel's flag `flag`, if the firmware's attribute `bit` is set. */
  function Translate(attribute: bv64, bit: bv64, flag: bv64): bv64 {
    if attribute & bit == bit then flag else 0
  }

  /** The flags that are single bits on both sides. */
  function SingleFlags(a: bv64): MemoryFlags {
    Translate(a, 0x1, 0x1) | Translate(a, 0x2, 0x2) | Translate(a, 0x4, 0x4) | Translate(a, 0x8, 0x8)
    | Translate(a, 0x10, 0x10) | Translate(a, 0x1000, 0x20) | Translate(a, 0x2000, 0x40)
    | Translate(a, 0x4000, 0x80) | Translate(a, 0x2_0000, 0x400) | Translate(a, 0x8000, 0x100)
    | Translate(a, EFI_MEMORY_RUNTIME, 0x2000) | Translate(a, 0x1_0000, 0x200) | Translate(a, 0x4_0000, 0x800)
    | Translate(a, 0x8_0000, 0x1000)
  }

  function ToFlags(a: bv64): MemoryFlags {
    SingleFlags(a) | Translate(a, 0x4000_0000_0000_0000, 0x4000 | (a & 0x0FFF_F000_0000_0000))
  }

  function AttributesOf(d: MemoryDescriptor): Attributes {
    Attributes(ToMemoryType(d.memoryType), ToUsage(d.memoryType), ToFlags(d.attribute))
  }

  function EntryOf(d: MemoryDescriptor): InitialMemMapEntry {
    InitialMemMapEntry(AttributesOf(d), d.physicalStart, d.physicalStart,
                       d.numberOfPages * EFI_PAGE_SIZE / PHYSICAL_PAGE_SIZE)
  }

  /** The memory map as the firmware gives it, in kernel terms. */
  function DescriptorRanges(ds: seq<MemoryDescriptor>): (rs: seq<Range<Attributes>>)
    ensures |rs| == |ds|
  {
    seq(|ds|, i requires 0 <= i < |ds| => EntryOf(ds[i]).AsRange())
  }

  /** What the firmware promises of its map: descriptors in any order, none empty, none overlapping
      another, and none reaching to the end of the 64-bit address space. */
  ghost predicate WellFormed(ds: seq<MemoryDescriptor>) {
    && NonEmpty(DescriptorRanges(ds))
    && Apart(DescriptorRanges(ds))
    && forall i | 0 <= i < |ds| :: ds[i].End() < ADDRESS_LIMIT
  }

  // ----- The end of the address space -----

  /** Where each descriptor begins and ends. */
  function Bounds(ds: seq<MemoryDescriptor>): (rs: seq<Region>)
    ensures |rs| == |ds|
  {
    seq(|ds|, i requires 0 <= i < |ds| => MappedRegions.RegionOf(ds[i]))
  }

  /** The same in 64 bits. */
  function BoundsSeen(ds: seq<MemoryDescriptor>): (rs: seq<Region>)
    ensures |rs| == |ds|
  {
    MappedRegions.AllSeen(Bounds(ds))
  }

  /** The search goes on from the end of the range it took, as a 64-bit number. For descriptors that do not
      overlap it comes to its end if and only if none of them reaches to the very end of the address space,
      where the search starts over, and every empty one hides behind an earlier one with the same base. */
  lemma IterationEndsIff(ds: seq<MemoryDescriptor>)
    requires MappedRegions.Addressed(Bounds(ds))
    ensures (exists n: nat :: MappedRegions.HighAfter(BoundsSeen(ds), None, n).None?)
            <==> (forall i | 0 <= i < |ds| :: ds[i].End() < ADDRESS_LIMIT) && MappedRegions.EmptyHidden(Bounds(ds))
  {
    hide MappedRegions.AllSeen, MappedRegions.EmptyHidden, MappedRegions.EndsBelowLimit;
    var rs := Bounds(ds);
    EndsBelowLimitIff(ds);
    MappedRegions.ScanEndsIff(rs, None);
    assert MappedRegions.Together(rs, None) == rs;
    assert MappedRegions.ScanEnds(rs, None) == MappedRegions.EmptyHidden(rs);
    if n: nat :| MappedRegions.HighAfter(MappedRegions.AllSeen(rs), MappedRegions.SeenIfAny(None), n).None? {
      assert MappedRegions.HighAfter(BoundsSeen(ds), None, n).None?;
    }
    if n: nat :| MappedRegions.HighAfter(BoundsSeen(ds), None, n).None? {
      assert MappedRegions.HighAfter(MappedRegions.AllSeen(rs), MappedRegions.SeenIfAny(None), n).None?;
    }
  }

  lemma EndsBelowLimitIff(ds: seq<MemoryDescriptor>)
    ensures MappedRegions.EndsBelowLimit(Bounds(ds)) <==> forall i | 0 <= i < |ds| :: ds[i].End() < ADDRESS_LIMIT
  {
    assert forall i | 0 <= i < |ds| :: Bounds(ds)[i] in Bounds(ds) && Bounds(ds)[i].last == ds[i].End();
  }

  /** A descriptor of the last page, being the only one, is found again by the search from its end. */
  lemma LastPageIsFoundAgain()
    ensures
      var d := MemoryDescriptor(EfiConventionalMemory, 0xFFFF_FFFF_FFFF_F000, 1, 0);
      d.End() % ADDRESS_LIMIT == 0 && Lowest(DescriptorRanges([d]), d.End() % ADDRESS_LIMIT, 0)
  {
  }

  ghost predicate Apart<K>(rs: seq<Range<K>>) {
    forall i, j | 0 <= i < j < |rs| :: rs[i].end <= rs[j].start || rs[j].end <= rs[i].start
  }

  // ----- Visiting the descriptors in ascending order -----

  ghost predicate Lowest<K>(rs: seq<Range<K>>, min: nat, k: nat) {
    k < |rs| && rs[k].start >= min && forall i | 0 <= i < |rs| && rs[i].start >= min :: rs[k].start <= rs[i].start
  }

  /** Each range lies below `high` or at and above it. */
  ghost predicate Split<K>(rs: seq<Range<K>>, high: nat) {
    forall i | 0 <= i < |rs| :: rs[i].end <= high || high <= rs[i].start
  }

  /** `visited` holds, in ascending order, the ranges below `high`. */
  ghost predicate Visited<K(!new)>(all: seq<Range<K>>, high: nat, visited: seq<Range<K>>) {
    && Split(all, high)
    && Ascending(visited)
    && (visited != [] ==> visited[|visited| - 1].end == high)
    && (visited == [] ==> high == 0)
    && (forall i | 0 <= i < |visited| :: visited[i] in all)
    && forall a: nat, k :: At(visited, a, k) <==> At(all, a, k) && a < high
  }

  lemma VisitNone<K(!new)>(all: seq<Range<K>>)
    requires NonEmpty(all)
    ensures Visited(all, 0, [])
  {
  }

  lemma NextSplit<K>(all: seq<Range<K>>, high: nat, k: nat)
    requires NonEmpty(all) && Apart(all) && Split(all, high) && Lowest(all, high, k)
    ensures Split(all, all[k].end)
    ensures forall i | 0 <= i < |all| && i != k :: all[i].end <= high || all[k].end <= all[i].start
  {
    forall i | 0 <= i < |all| && i != k
      ensures all[i].end <= high || all[k].end <= all[i].start
    {
      assert if i < k then all[i].end <= all[k].start || all[k].end <= all[i].start
             else all[k].end <= all[i].start || all[i].end <= all[k].start;
    }
  }

  lemma VisitNext<K(!new)>(all: seq<Range<K>>, high: nat, visited: seq<Range<K>>, k: nat)
    requires NonEmpty(all) && Apart(all) && Visited(all, high, visited) && Lowest(all, high, k)
    ensures Visited(all, all[k].end, visited + [all[k]])
  {
    LowestAbove(all, high, k);
    hide Apart, Ascending, At, Lowest, Split;
    NextSplit(all, high, k);
    AscendingAppend(visited, all[k]);
    forall a: nat, kind
      ensures At(visited + [all[k]], a, kind) <==> At(all, a, kind) && a < all[k].end
    {
      assert At(visited, a, kind) <==> At(all, a, kind) && a < high;
      VisitedAt(all, high, visited, k, a, kind);
    }
  }

  lemma VisitedAt<K>(all: seq<Range<K>>, high: nat, visited: seq<Range<K>>, k: nat, a: nat, kind: K)
    requires k < |all| && NonEmpty(all) && high <= all[k].start
    requires forall i | 0 <= i < |all| && i != k :: all[i].end <= high || all[k].end <= all[i].start
    requires At(visited, a, kind) <==> At(all, a, kind) && a < high
    ensures At(visited + [all[k]], a, kind) <==> At(all, a, kind) && a < all[k].end
  {
    hide At;
    assert (visited + [all[k]])[..|visited|] == visited;
    AtInit(visited + [all[k]], a, kind);
    BelowNext(all, high, k, a, kind);
  }

  lemma LowestAbove<K>(all: seq<Range<K>>, high: nat, k: nat)
    requires Lowest(all, high, k)
    ensures k < |all| && all[k].start >= high
  {
  }

  lemma AscendingAppend<K>(rs: seq<Range<K>>, r: Range<K>)
    requires Ascending(rs) && r.start < r.end && (rs != [] ==> rs[|rs| - 1].end <= r.start)
    ensures Ascending(rs + [r])
  {
    forall i | 0 <= i < |rs|
      ensures rs[i].end <= r.start
    {
      assert i < |rs| - 1 ==> rs[i].end <= rs[|rs| - 1].start;
    }
  }

  lemma BelowNext<K>(all: seq<Range<K>>, high: nat, k: nat, a: nat, kind: K)
    requires k < |all| && NonEmpty(all) && high <= all[k].start
    requires forall i | 0 <= i < |all| && i != k :: all[i].end <= high || all[k].end <= all[i].start
    ensures At(all, a, kind) && a < all[k].end
            <==> (At(all, a, kind) && a < high) || (all[k].Has(a) && all[k].kind == kind)
  {
    if At(all, a, kind) && a < all[k].end {
      var i :| 0 <= i < |all| && all[i].Has(a) && all[i].kind == kind;
      assert i == k || all[i].end <= high;
    }
  }

  /** Once no range begins at or above `high`, everything has been visited. */
  lemma VisitAll<K(!new)>(all: seq<Range<K>>, high: nat, visited: seq<Range<K>>)
    requires Visited(all, high, visited) && NonEmpty(all)
    requires forall i | 0 <= i < |all| :: all[i].start < high
    ensures SameCover(visited, all)
  {
    forall a: nat, k
      ensures At(visited, a, k) <==> At(all, a, k)
    {
      assert At(all, a, k) ==> a < high;
    }
  }

  /** Finds the lowest descriptor that begins at or above `minAddress`, as a map entry. */
  method GetNextEfiMapEntry(ds: seq<MemoryDescriptor>, minAddress: nat)
    returns (found: Option<InitialMemMapEntry>, ghost k: nat)
    ensures found.None? ==> forall i | 0 <= i < |ds| :: ds[i].physicalStart < minAddress
    ensures found.Some? ==> Lowest(DescriptorRanges(ds), minAddress, k) && found.value == EntryOf(ds[k])
    ensures MappedRegions.LowestFrom(BoundsSeen(ds), minAddress)
            == if found.None? then None else Some(BoundsSeen(ds)[k])
  {
    hide MappedRegions.LowestFrom;
    ghost var seen := BoundsSeen(ds);
    MappedRegions.LowestInNone(minAddress);
    found, k := None, 0;
    for i := 0 to |ds|
      invariant found.None? ==> forall j | 0 <= j < i :: ds[j].physicalStart < minAddress
      invariant found.Some? ==> k < i && found.value == EntryOf(ds[k]) && ds[k].physicalStart >= minAddress
      invariant found.Some? ==> forall j | 0 <= j < i && ds[j].physicalStart >= minAddress :: ds[k].physicalStart <= ds[j].physicalStart
      invariant MappedRegions.LowestFrom(seen[..i], minAddress) == if found.None? then None else Some(seen[k])
    {
      MappedRegions.LowestAppend(seen[..i], seen[i], minAddress);
      assert seen[..i + 1] == seen[..i] + [seen[i]];
      if ds[i].physicalStart >= minAddress && (found.None? || ds[i].physicalStart < found.value.physicalAddress) {
        found, k := Some(EntryOf(ds[i])), i;
      }
    }
    assert seen[..|ds|] == seen;
  }

  /** What the iteration hands to its callback, in order. */
  ghost predicate IsIteration(ds: seq<MemoryDescriptor>, emitted: seq<InitialMemMapEntry>) {
    && Canonical(Ranges(emitted))
    && SameCover(Ranges(emitted), DescriptorRanges(ds))
    && IdentityMapped(emitted)
    && (Whole(DescriptorRanges(ds), PHYSICAL_PAGE_SIZE) ==> Whole(Ranges(emitted), PHYSICAL_PAGE_SIZE))
  }

  /** Merging an entry into the last one, as ranges. */
  lemma RangesAdd(es: seq<InitialMemMapEntry>, e: InitialMemMapEntry, next: InitialMemMapEntry)
    ensures Ranges(es + [e] + [next]) == Ranges(es + [e]) + [next.AsRange()]
    ensures e.End() == next.physicalAddress && e.attributes == next.attributes ==>
              Ranges(es + [e.(numPhysicalPages := e.numPhysicalPages + next.numPhysicalPages)]) ==
              Add(Ranges(es + [e]), next.AsRange())
    ensures !(e.End() == next.physicalAddress && e.attributes == next.attributes) ==>
              Add(Ranges(es + [e]), next.AsRange()) == Ranges(es + [e] + [next])
  {
    assert Ranges(es + [e])[|es|] == e.AsRange();
    assert Ranges(es + [e])[..|es|] == Ranges(es);
    var merged := e.(numPhysicalPages := e.numPhysicalPages + next.numPhysicalPages);
    if e.End() == next.physicalAddress {
      assert merged.End() == next.End();
    }
  }

  lemma CoalesceAdd<K>(rs: seq<Range<K>>, r: Range<K>)
    ensures Coalesce(rs + [r]) == Add(Coalesce(rs), r)
  {
    assert (rs + [r])[..|rs|] == rs;
  }

  lemma PagesKept(ds: seq<MemoryDescriptor>, k: nat)
    requires k < |ds|
    ensures EntryOf(ds[k]).End() == ds[k].End() && DescriptorRanges(ds)[k] == EntryOf(ds[k]).AsRange()
  {
  }

  /** Hands the merged ranges of the map to the callback in ascending order; `emitted` lists them. */
  method IterEfiMemMapAsInitMap(ds: seq<MemoryDescriptor>) returns (emitted: seq<InitialMemMapEntry>)
    requires WellFormed(ds)
    ensures IsIteration(ds, emitted)
  {
    hide Visited, Canonical, SameCover, Lowest, Coalesce, Ranges, EntryOf, Add, Apart, Whole;
    ghost var all := DescriptorRanges(ds);
    ghost var visited: seq<Range<Attributes>> := [];
    var combined := InitialMemMapEntry(Attributes(MaxType, NoUsage, 0), 0, 0, 0);
    var anyRangeWritten := false;
    emitted := [];
    var more := true;
    VisitNone(all);
    while more
      invariant !anyRangeWritten ==> visited == [] && emitted == [] && combined.End() == 0
      invariant anyRangeWritten ==> Ranges(emitted + [combined]) == Coalesce(visited)
      invariant combined.virtualAddress == combined.physicalAddress && IdentityMapped(emitted)
      invariant Visited(all, combined.End(), visited) && combined.End() < ADDRESS_LIMIT
      invariant !more ==> forall i | 0 <= i < |all| :: all[i].start < combined.End()
      decreases more, ADDRESS_LIMIT - combined.End()
    {
      var rangeEnd := combined.End();
      var virtRangeEnd := combined.virtualAddress + combined.numPhysicalPages * PHYSICAL_PAGE_SIZE;
      var next, k := GetNextEfiMapEntry(ds, rangeEnd);
      if next.None? {
        AllBelow(ds, rangeEnd);
        more := false;
      } else {
        var e := next.value;
        LowestEntry(ds, rangeEnd, k);
        VisitNext(all, rangeEnd, visited, k);
        CoalesceAdd(visited, e.AsRange());
        RangesAdd(emitted, combined, e);
        visited := visited + [e.AsRange()];
        if e.physicalAddress == rangeEnd && e.virtualAddress == virtRangeEnd &&
           e.attributes == combined.attributes && anyRangeWritten {
          combined := combined.(numPhysicalPages := combined.numPhysicalPages + e.numPhysicalPages);
        } else {
          if anyRangeWritten {
            emitted := emitted + [combined];
          } else {
            FirstRange(e);
          }
          combined := e;
          anyRangeWritten := true;
        }
      }
    }
    VisitAll(all, combined.End(), visited);
    VisitedCoalesced(all, combined.End(), visited);
    if anyRangeWritten {
      emitted := emitted + [combined];
    } else {
      NoRanges();
    }
  }

  lemma AllBelow(ds: seq<MemoryDescriptor>, high: nat)
    requires forall i | 0 <= i < |ds| :: ds[i].physicalStart < high
    ensures forall i | 0 <= i < |ds| :: DescriptorRanges(ds)[i].start < high
  {
  }

  lemma LowestEntry(ds: seq<MemoryDescriptor>, high: nat, k: nat)
    requires WellFormed(ds) && Lowest(DescriptorRanges(ds), high, k)
    ensures var e := EntryOf(ds[k]);
            && e.AsRange() == DescriptorRanges(ds)[k] && e.virtualAddress == e.physicalAddress
            && high <= e.physicalAddress < e.End() < ADDRESS_LIMIT
  {
    PagesKept(ds, k);
    assert DescriptorRanges(ds)[k].start < DescriptorRanges(ds)[k].end;
  }

  lemma FirstRange(e: InitialMemMapEntry)
    ensures Ranges([] + [e]) == Coalesce([] + [e.AsRange()])
  {
    assert Coalesce([e.AsRange()]) == Add(Coalesce([e.AsRange()][..0]), e.AsRange());
  }

  lemma NoRanges()
    ensures Ranges([]) == Coalesce([])
  {
  }

  lemma VisitedCoalesced(all: seq<Range<Attributes>>, high: nat, visited: seq<Range<Attributes>>)
    requires Visited(all, high, visited) && SameCover(visited, all)
    ensures Canonical(Coalesce(visited)) && SameCover(Coalesce(visited), all)
    ensures Whole(all, PHYSICAL_PAGE_SIZE) ==> Whole(Coalesce(visited), PHYSICAL_PAGE_SIZE)
  {
    hide At, Canonical, Coalesce;
    CoalesceCanonical(visited);
    if Whole(all, PHYSICAL_PAGE_SIZE) {
      CoalesceWhole(visited, PHYSICAL_PAGE_SIZE);
    }
    assert forall a: nat, k :: At(Coalesce(visited), a, k) <==> At(visited, a, k);
  }
}
