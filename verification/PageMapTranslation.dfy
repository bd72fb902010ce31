/** What the finished page maps translate, and that the memory that the kernel uses next is among it. */
module PageMapTranslation {
  import opened Wrappers
  import opened Paging
  import opened UefiMemoryMap
  import opened RangeLists
  import opened MappedRegions
  import opened PageMapCoverage
  import opened PageMapState
  import opened PageMapBuilder
  import opened PageMapSetup
  import opened PhysicalMemory
  import EfiMapIteration
  import InitialMemMap
  import CarvedMap
  import Availability
  import FirmwareAttributes

  /** Physical memory holds a finished map of the given kind. */
  ghost predicate Finished(memory: nat -> nat, pageMap: PageMapBuffer, kind: MapKind, ds: seq<MemoryDescriptor>,
                           framebuffer: Option<Region>)
    reads pageMap, pageMap.words
  {
    Complete(pageMap, PagesOfRegions(Regions(kind, ds, framebuffer))) && Holds(memory, pageMap.View())
  }

  /** A finished map translates to themselves exactly the addresses on the pages of the memory that it has
      to translate, and of the framebuffer. */
  lemma TranslatesExactlyWanted(memory: nat -> nat, pageMap: PageMapBuffer, kind: MapKind, ds: seq<MemoryDescriptor>,
                                framebuffer: Option<Region>, va: nat)
    requires Finished(memory, pageMap, kind, ds, framebuffer) && va < Span(pageMap.levels)
    ensures Walk(memory, pageMap.levels, pageMap.base, va) ==
            if Wanted(kind, ds, framebuffer, va) then Translation.Mapped(va, true) else Fault
  {
    hide Walk, Complete, Wanted, PagesOfRegions, Regions, Holds, Span;
    IdentityMap(memory, pageMap, PagesOfRegions(Regions(kind, ds, framebuffer)), va);
    CoveredIffWanted(kind, ds, framebuffer, va);
  }

  /** Memory that the firmware does not need at run time is in the initial map if and only if the kernel's
      own map gives it a use, persistent memory apart. */
  lemma InitialWantsUsed(d: MemoryDescriptor)
    ensures NeededAtRuntime(d) ==> Includes(Initial, d)
    ensures !NeededAtRuntime(d) ==>
              (Includes(Initial, d) <==> EfiMapIteration.ToUsage(d.memoryType) != NoUsage && d.memoryType != EfiPersistentMemory)
  {
  }

  /** The transitional map has to translate what the initial one has to, less the conventional memory that
      the firmware does not need at run time. */
  lemma TransitionalWantsLess(d: MemoryDescriptor)
    ensures Includes(Transitional, d) <==>
            Includes(Initial, d) && !(d.memoryType == EfiConventionalMemory && !NeededAtRuntime(d))
  {
  }

  /** So whatever the transitional map translates, the initial one translates alike. */
  lemma TransitionalWithinInitial(memory: nat -> nat, transitional: PageMapBuffer, memory1: nat -> nat, initial: PageMapBuffer,
                                  ds: seq<MemoryDescriptor>, framebuffer: Option<Region>, va: nat)
    requires Finished(memory, transitional, Transitional, ds, None) && Finished(memory1, initial, Initial, ds, framebuffer)
    requires va < Span(transitional.levels) && va < Span(initial.levels)
    requires Walk(memory, transitional.levels, transitional.base, va) != Fault
    ensures Walk(memory1, initial.levels, initial.base, va) == Walk(memory, transitional.levels, transitional.base, va)
  {
    hide Walk, Finished, Includes, OnPageOf, Span;
    TranslatesExactlyWanted(memory, transitional, Transitional, ds, None, va);
    TranslatesExactlyWanted(memory1, initial, Initial, ds, framebuffer, va);
    forall d ensures Includes(Transitional, d) ==> Includes(Initial, d) {
      TransitionalWantsLess(d);
    }
  }

  // ----- The memory that the kernel uses next -----

  lemma UsableMemoryIsTranslated(memory: nat -> nat, pageMap: PageMapBuffer, ds: seq<MemoryDescriptor>,
                                 framebuffer: Option<Region>, attributes: Attributes, va: nat)
    requires Finished(memory, pageMap, Initial, ds, framebuffer)
    requires AllWithin(Regions(Initial, ds, framebuffer), AddressLimit(pageMap.levels)) && 2 <= pageMap.levels <= 5
    requires At(EfiMapIteration.DescriptorRanges(ds), va, attributes)
    requires attributes.memoryType == Usable && attributes.usage == MappedUsage
    ensures Walk(memory, pageMap.levels, pageMap.base, va) == Translation.Mapped(va, true)
  {
    hide Walk, Finished, Regions, AllWithin, Span, At;
    Availability.DescriptorIsAt(ds, va, attributes);
    var d :| d in ds && d.physicalStart <= va < d.End() && EfiMapIteration.AttributesOf(d) == attributes;
    assert Includes(Initial, d) && OnPageOf(d, va);
    WantedWithin(ds, framebuffer, d, pageMap.levels);
    TranslatesExactlyWanted(memory, pageMap, Initial, ds, framebuffer, va);
  }

  /** Every address of a usable mapped region that the iteration over the firmware's map emits is translated
      to itself by the initial page map. */
  lemma UsableIsTranslated(memory: nat -> nat, pageMap: PageMapBuffer, ds: seq<MemoryDescriptor>, framebuffer: Option<Region>,
                           es: seq<InitialMemMapEntry>, e: InitialMemMapEntry, va: nat)
    requires Finished(memory, pageMap, Initial, ds, framebuffer)
    requires AllWithin(Regions(Initial, ds, framebuffer), AddressLimit(pageMap.levels)) && 2 <= pageMap.levels <= 5
    requires EfiMapIteration.IsIteration(ds, es) && e in es && InitialMemMap.UsableMapped(e)
    requires e.physicalAddress <= va < e.physicalAddress + 4096 * e.numPhysicalPages
    ensures Walk(memory, pageMap.levels, pageMap.base, va) == Translation.Mapped(va, true)
  {
    hide Walk, Finished, EfiMapIteration.IsIteration, Regions, AllWithin, Span, At;
    FirmwareAttributes.EntryGives(ds, es, e, va);
    UsableMemoryIsTranslated(memory, pageMap, ds, framebuffer, e.attributes, va);
  }

  /** So the pages in which the first memory map is stored can be written to at their own addresses. */
  lemma InitialMapIsTranslated(memory: nat -> nat, pageMap: PageMapBuffer, ds: seq<MemoryDescriptor>,
                               framebuffer: Option<Region>, es: seq<InitialMemMapEntry>, k: nat,
                               m: seq<InitialMemMapEntry>, va: nat)
    requires Finished(memory, pageMap, Initial, ds, framebuffer)
    requires AllWithin(Regions(Initial, ds, framebuffer), AddressLimit(pageMap.levels)) && 2 <= pageMap.levels <= 5
    requires EfiMapIteration.IsIteration(ds, es) && InitialMemMap.IsCarved(es, k, m) && k < |es|
    requires es[k].physicalAddress <= va < CarvedMap.MapEnd(es, k)
    ensures Walk(memory, pageMap.levels, pageMap.base, va) == Translation.Mapped(va, true)
  {
    hide Walk, Finished, EfiMapIteration.IsIteration, Regions, AllWithin, Span, At;
    CarvedMap.MapFits(es, k, m);
    UsableIsTranslated(memory, pageMap, ds, framebuffer, es, es[k], va);
  }

  /** And so can the buffer found for the physical memory structures. */
  lemma StructuresAreTranslated(memory: nat -> nat, pageMap: PageMapBuffer, ds: seq<MemoryDescriptor>,
                                framebuffer: Option<Region>, es: seq<InitialMemMapEntry>, k: nat,
                                m: seq<InitialMemMapEntry>, address: nat, size: nat, va: nat)
    requires Finished(memory, pageMap, Initial, ds, framebuffer)
    requires AllWithin(Regions(Initial, ds, framebuffer), AddressLimit(pageMap.levels)) && 2 <= pageMap.levels <= 5
    requires EfiMapIteration.IsIteration(ds, es) && InitialMemMap.IsCarved(es, k, m)
    requires Availability.HasRoom(m, address, size) && address <= va < address + size
    ensures Walk(memory, pageMap.levels, pageMap.base, va) == Translation.Mapped(va, true)
  {
    hide Walk, Finished, EfiMapIteration.IsIteration, InitialMemMap.IsCarved, Regions, AllWithin, Span, At;
    var e :| e in m && InitialMemMap.UsableMapped(e) && e.physicalAddress == address && size <= e.numPhysicalPages * 4096;
    var i :| 0 <= i < |m| && m[i] == e;
    CarvedMap.EntryMeans(m, i, va);
    HasHome(es, k, m);
    CarvedMap.CarvedAttributes(ds, es, k, m, va, e.attributes);
    UsableMemoryIsTranslated(memory, pageMap, ds, framebuffer, e.attributes, va);
  }

  lemma HasHome(es: seq<InitialMemMapEntry>, k: nat, m: seq<InitialMemMapEntry>)
    requires InitialMemMap.IsCarved(es, k, m)
    ensures k < |es|
  {
  }

  lemma WantedWithin(ds: seq<MemoryDescriptor>, framebuffer: Option<Region>, d: MemoryDescriptor, levels: nat)
    requires 2 <= levels <= 5 && d in ds && Includes(Initial, d)
    requires AllWithin(Regions(Initial, ds, framebuffer), AddressLimit(levels))
    ensures d.End() <= Span(levels)
  {
    hide Includes, DescriptorRegions, Span;
    DescriptorRegionsAre(Initial, ds, RegionOf(d));
    assert RegionOf(d) in Regions(Initial, ds, framebuffer);
  }
}
