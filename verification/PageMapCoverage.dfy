/** Which memory a page map has to cover, in terms of the firmware's descriptors. */
module PageMapCoverage {
  import opened Wrappers
  import opened Paging
  import opened UefiMemoryMap
  import opened MappedRegions

  /** The firmware asks for the memory to stay mapped at run time: the highest attribute bit. */
  predicate NeededAtRuntime(d: MemoryDescriptor) { d.attribute >= 0x8000_0000_0000_0000 }

  /** What is in the memory: the kernel and its loader, the firmware's services, or nothing yet. */
  predicate InUseOrFree(d: MemoryDescriptor) {
    d.memoryType in {EfiLoaderCode, EfiLoaderData, EfiBootServicesCode, EfiBootServicesData,
                     EfiRuntimeServicesCode, EfiRuntimeServicesData, EfiConventionalMemory}
  }

  /** What a map of each kind has to translate. The transitional one leaves out what nothing uses yet. */
  predicate Includes(kind: MapKind, d: MemoryDescriptor) {
    NeededAtRuntime(d) ||
    (InUseOrFree(d) && (kind == Transitional ==> d.memoryType != EfiConventionalMemory))
  }

  /** Some byte of the descriptor lies in the page of address `va`. */
  ghost predicate OnPageOf(d: MemoryDescriptor, va: nat) {
    exists a :: d.physicalStart <= a < d.physicalStart + 4096 * d.numberOfPages && a / 4096 == va / 4096
  }

  ghost predicate FramebufferOnPageOf(framebuffer: Option<Region>, va: nat) {
    framebuffer.Some? && exists a :: framebuffer.value.base <= a < framebuffer.value.last && a / 4096 == va / 4096
  }

  /** A byte of the page lies in the region. */
  ghost predicate Touches(r: Region, p: nat) {
    exists a :: r.base <= a < r.last && a / PAGE_SIZE == p
  }

  /** A page is covered exactly when one of the regions touches it. */
  lemma {:induction false} CoveredMeaning(rs: seq<Region>, p: nat)
    ensures p in PagesOfRegions(rs) <==> exists r :: r in rs && Touches(r, p)
  {
    hide Touches, PagesOf;
    if rs != [] {
      var n := |rs| - 1;
      CoveredMeaning(rs[..n], p);
      TouchesMeaning(rs[n], p);
      assert rs == rs[..n] + [rs[n]];
    }
  }

  lemma TouchesMeaning(r: Region, p: nat)
    ensures p in PagesOf(r.base, r.last) <==> Touches(r, p)
  {
    PagesOfMeaning(r.base, r.last, p);
  }

  /** Address `va` lies on a page of memory that the map has to translate, or of the framebuffer. */
  ghost predicate Wanted(kind: MapKind, ds: seq<MemoryDescriptor>, framebuffer: Option<Region>, va: nat) {
    (exists d :: d in ds && Includes(kind, d) && OnPageOf(d, va)) || FramebufferOnPageOf(framebuffer, va)
  }

  lemma TopBit(a: bv64)
    ensures a & EFI_MEMORY_RUNTIME == EFI_MEMORY_RUNTIME <==> a >= 0x8000_0000_0000_0000
  {
  }

  lemma IncludedIff(kind: MapKind, d: MemoryDescriptor)
    ensures ShouldInclude(kind, d) <==> Includes(kind, d)
  {
    TopBit(d.attribute);
  }

  lemma {:induction false} DescriptorRegionsAre(kind: MapKind, ds: seq<MemoryDescriptor>, r: Region)
    ensures r in DescriptorRegions(kind, ds) <==> exists d :: d in ds && Includes(kind, d) && RegionOf(d) == r
  {
    hide Includes, ShouldInclude, RegionOf;
    if ds != [] {
      var n := |ds| - 1;
      DescriptorRegionsAre(kind, ds[..n], r);
      IncludedIff(kind, ds[n]);
      assert ds == ds[..n] + [ds[n]];
    }
  }

  lemma TouchesIsOnPage(d: MemoryDescriptor, va: nat)
    ensures Touches(RegionOf(d), va / PAGE_SIZE) <==> OnPageOf(d, va)
  {
  }

  /** The pages that a map covers are those of the descriptors that it has to translate, and the framebuffer's. */
  lemma CoveredIffWanted(kind: MapKind, ds: seq<MemoryDescriptor>, framebuffer: Option<Region>, va: nat)
    ensures va / PAGE_SIZE in PagesOfRegions(Regions(kind, ds, framebuffer)) <==> Wanted(kind, ds, framebuffer, va)
  {
    hide PagesOfRegions, Includes, OnPageOf, RegionOf, DescriptorRegions, Touches;
    var p, rs := va / PAGE_SIZE, Regions(kind, ds, framebuffer);
    CoveredMeaning(rs, p);
    FramebufferTouches(framebuffer, va);
    if d :| d in ds && Includes(kind, d) && OnPageOf(d, va) {
      DescriptorRegionsAre(kind, ds, RegionOf(d));
      TouchesIsOnPage(d, va);
      assert RegionOf(d) in rs;
    }
    if FramebufferOnPageOf(framebuffer, va) { assert framebuffer.value in rs; }
    if r :| r in rs && Touches(r, p) {
      if r in DescriptorRegions(kind, ds) {
        DescriptorRegionsAre(kind, ds, r);
        var d :| d in ds && Includes(kind, d) && RegionOf(d) == r;
        TouchesIsOnPage(d, va);
      }
    }
  }

  lemma FramebufferTouches(framebuffer: Option<Region>, va: nat)
    ensures FramebufferOnPageOf(framebuffer, va) <==> framebuffer.Some? && Touches(framebuffer.value, va / PAGE_SIZE)
  {
  }

  lemma CoveredAreWanted(kind: MapKind, ds: seq<MemoryDescriptor>, framebuffer: Option<Region>)
    ensures forall va: nat ::
              va / PAGE_SIZE in PagesOfRegions(Regions(kind, ds, framebuffer)) <==> Wanted(kind, ds, framebuffer, va)
  {
    hide PagesOfRegions, Wanted, Regions;
    forall va: nat
      ensures va / PAGE_SIZE in PagesOfRegions(Regions(kind, ds, framebuffer)) <==> Wanted(kind, ds, framebuffer, va)
    {
      CoveredIffWanted(kind, ds, framebuffer, va);
    }
  }
}
