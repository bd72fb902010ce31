/** What the kernel's maps say of the firmware's memory types and attributes, bit by bit. */
module FirmwareAttributes {
  import opened RangeLists
  import opened UefiMemoryMap
  import opened MemoryUnits
  import opened PhysicalMemory
  import opened EfiMapIteration
  import opened InitialMemMap
  import opened CarvedMap
  import opened Availability

  // ----- Flags -----

  /** Attribute `bit` of the UEFI Specification and flag `flag` of the kernel mean the same. */
  predicate SameMeaning(bit: bv64, flag: bv64) {
    || (bit == 0x1 && flag == 0x1)                        // uncacheable
    || (bit == 0x2 && flag == 0x2)                        // write combining
    || (bit == 0x4 && flag == 0x4)                        // write through
    || (bit == 0x8 && flag == 0x8)                        // write back
    || (bit == 0x10 && flag == 0x10)                      // uncacheable, exported
    || (bit == 0x1000 && flag == 0x20)                    // write protected
    || (bit == 0x2000 && flag == 0x40)                    // read protected
    || (bit == 0x4000 && flag == 0x80)                    // execute protected
    || (bit == 0x8000 && flag == 0x100)                   // non-volatile
    || (bit == 0x1_0000 && flag == 0x200)                 // more reliable
    || (bit == 0x2_0000 && flag == 0x400)                 // read-only
    || (bit == 0x4_0000 && flag == 0x800)                 // specific purpose
    || (bit == 0x8_0000 && flag == 0x1000)                // cryptographic protection
    || (bit == 0x8000_0000_0000_0000 && flag == 0x2000)   // needed at run time
    || (bit == 0x4000_0000_0000_0000 && flag == 0x4000)   // the field below is valid
  }

  /** The bits that belong to the instruction set architecture, the same on both sides. */
  const ISA_FIELD: bv64 := 0x0FFF_F000_0000_0000

  predicate IsSet(x: bv64, bit: bv64) { x & bit != 0 }

  lemma FirstQuarter(a: bv64)
    ensures SingleFlags(a) & 0xC000 == 0
  {
  }

  lemma SecondQuarter(a: bv64)
    ensures SingleFlags(a) & 0xFFFF_0000 == 0
  {
  }

  lemma ThirdQuarter(a: bv64)
    ensures SingleFlags(a) & 0xFFFF_0000_0000 == 0
  {
  }

  lemma LastQuarter(a: bv64)
    ensures SingleFlags(a) & 0xFFFF_0000_0000_0000 == 0
  {
  }

  lemma Quarters(x: bv64)
    requires x & 0xC000 == 0 && x & 0xFFFF_0000 == 0 && x & 0xFFFF_0000_0000 == 0 && x & 0xFFFF_0000_0000_0000 == 0
    ensures x & !0x3FFF == 0
  {
  }

  lemma SingleFlagsBelow(a: bv64)
    ensures SingleFlags(a) & !0x3FFF == 0
  {
    hide SingleFlags;
    FirstQuarter(a);
    SecondQuarter(a);
    ThirdQuarter(a);
    LastQuarter(a);
    Quarters(SingleFlags(a));
  }

  /** Where the flags meet the field. */
  lemma Joined(a: bv64, single: bv64, flags: bv64)
    requires single & !0x3FFF == 0
    requires flags == single | (if a & 0x4000_0000_0000_0000 == 0x4000_0000_0000_0000 then 0x4000 | (a & ISA_FIELD) else 0)
    ensures flags & 0x3FFF == single
    ensures flags & 0x4000 != 0 <==> a & 0x4000_0000_0000_0000 != 0
    ensures flags & ISA_FIELD == if a & 0x4000_0000_0000_0000 != 0 then a & ISA_FIELD else 0
    ensures flags & !(0x7FFF | ISA_FIELD) == 0
  {
  }

  lemma ToFlagsJoined(a: bv64)
    ensures ToFlags(a) == SingleFlags(a) | (if a & 0x4000_0000_0000_0000 == 0x4000_0000_0000_0000
                                            then 0x4000 | (a & ISA_FIELD) else 0)
  {
    hide SingleFlags;
  }

  lemma MaskedFlag(flags: bv64, single: bv64, bit: bv64, flag: bv64)
    requires flags & 0x3FFF == single && SameMeaning(bit, flag) && flag != 0x4000
    ensures IsSet(flags, flag) <==> IsSet(single, flag)
  {
    BelowValid(bit, flag);
    SameBits(flags, flag);
  }

  lemma SameBits(flags: bv64, flag: bv64)
    requires flag & 0x3FFF == flag
    ensures flags & flag == (flags & 0x3FFF) & flag
  {
  }

  lemma BelowValid(bit: bv64, flag: bv64)
    requires SameMeaning(bit, flag) && flag != 0x4000
    ensures flag & 0x3FFF == flag
  {
  }

  lemma CacheFlags(a: bv64, bit: bv64, flag: bv64)
    requires SameMeaning(bit, flag) && (flag == 0x1 || flag == 0x2 || flag == 0x4)
    ensures IsSet(SingleFlags(a), flag) <==> IsSet(a, bit)
  {
    if flag == 0x1 { assert SingleFlags(a) & 0x1 != 0 <==> a & 0x1 != 0; }
    if flag == 0x2 { assert SingleFlags(a) & 0x2 != 0 <==> a & 0x2 != 0; }
    if flag == 0x4 { assert SingleFlags(a) & 0x4 != 0 <==> a & 0x4 != 0; }
  }

  lemma CacheMoreFlags(a: bv64, bit: bv64, flag: bv64)
    requires SameMeaning(bit, flag) && (flag == 0x8 || flag == 0x10)
    ensures IsSet(SingleFlags(a), flag) <==> IsSet(a, bit)
  {
    if flag == 0x8 { assert SingleFlags(a) & 0x8 != 0 <==> a & 0x8 != 0; }
    if flag == 0x10 { assert SingleFlags(a) & 0x10 != 0 <==> a & 0x10 != 0; }
  }

  lemma ProtectionFlags(a: bv64, bit: bv64, flag: bv64)
    requires SameMeaning(bit, flag) && (flag == 0x20 || flag == 0x40 || flag == 0x80)
    ensures IsSet(SingleFlags(a), flag) <==> IsSet(a, bit)
  {
    if flag == 0x20 { assert SingleFlags(a) & 0x20 != 0 <==> a & 0x1000 != 0; }
    if flag == 0x40 { assert SingleFlags(a) & 0x40 != 0 <==> a & 0x2000 != 0; }
    if flag == 0x80 { assert SingleFlags(a) & 0x80 != 0 <==> a & 0x4000 != 0; }
  }

  lemma StorageFlags(a: bv64, bit: bv64, flag: bv64)
    requires SameMeaning(bit, flag) && (flag == 0x100 || flag == 0x200 || flag == 0x400)
    ensures IsSet(SingleFlags(a), flag) <==> IsSet(a, bit)
  {
    if flag == 0x100 { assert SingleFlags(a) & 0x100 != 0 <==> a & 0x8000 != 0; }
    if flag == 0x200 { assert SingleFlags(a) & 0x200 != 0 <==> a & 0x1_0000 != 0; }
    if flag == 0x400 { assert SingleFlags(a) & 0x400 != 0 <==> a & 0x2_0000 != 0; }
  }

  lemma PurposeFlags(a: bv64, bit: bv64, flag: bv64)
    requires SameMeaning(bit, flag) && (flag == 0x800 || flag == 0x1000 || flag == 0x2000)
    ensures IsSet(SingleFlags(a), flag) <==> IsSet(a, bit)
  {
    if flag == 0x800 { assert SingleFlags(a) & 0x800 != 0 <==> a & 0x4_0000 != 0; }
    if flag == 0x1000 { assert SingleFlags(a) & 0x1000 != 0 <==> a & 0x8_0000 != 0; }
    if flag == 0x2000 { assert SingleFlags(a) & 0x2000 != 0 <==> a & 0x8000_0000_0000_0000 != 0; }
  }

  lemma SingleFlagIff(a: bv64, bit: bv64, flag: bv64)
    requires SameMeaning(bit, flag) && flag != 0x4000
    ensures IsSet(SingleFlags(a), flag) <==> IsSet(a, bit)
  {
    hide SingleFlags, IsSet;
    if flag == 0x1 || flag == 0x2 || flag == 0x4 {
      CacheFlags(a, bit, flag);
    } else if flag == 0x8 || flag == 0x10 {
      CacheMoreFlags(a, bit, flag);
    } else if flag == 0x20 || flag == 0x40 || flag == 0x80 {
      ProtectionFlags(a, bit, flag);
    } else if flag == 0x100 || flag == 0x200 || flag == 0x400 {
      StorageFlags(a, bit, flag);
    } else {
      PurposeFlags(a, bit, flag);
    }
  }

  lemma FlagsSplit(a: bv64)
    ensures ToFlags(a) & 0x3FFF == SingleFlags(a)
    ensures IsSet(ToFlags(a), 0x4000) <==> IsSet(a, 0x4000_0000_0000_0000)
  {
    hide ToFlags, SingleFlags;
    ToFlagsJoined(a);
    SingleFlagsBelow(a);
    Joined(a, SingleFlags(a), ToFlags(a));
  }

  lemma LowerFlagIff(a: bv64, bit: bv64, flag: bv64)
    requires SameMeaning(bit, flag) && flag != 0x4000
    ensures IsSet(ToFlags(a), flag) <==> IsSet(a, bit)
  {
    hide ToFlags, SingleFlags, SameMeaning, IsSet;
    FlagsSplit(a);
    SingleFlagIff(a, bit, flag);
    MaskedFlag(ToFlags(a), SingleFlags(a), bit, flag);
  }

  lemma ValidBit(bit: bv64)
    requires SameMeaning(bit, 0x4000)
    ensures bit == 0x4000_0000_0000_0000
  {
  }

  /** A flag is set if and only if its attribute is. */
  lemma FlagIffAttribute(a: bv64, bit: bv64, flag: bv64)
    requires SameMeaning(bit, flag)
    ensures IsSet(ToFlags(a), flag) <==> IsSet(a, bit)
  {
    hide ToFlags, SingleFlags, SameMeaning, IsSet;
    if flag == 0x4000 {
      ValidBit(bit);
      FlagsSplit(a);
    } else {
      LowerFlagIff(a, bit, flag);
    }
  }

  /** The field is copied if the firmware calls it valid, and is zero otherwise; and no bit is set beyond the
      fifteen flags and the field. */
  lemma FieldIfValid(a: bv64)
    ensures ToFlags(a) & ISA_FIELD == if a & 0x4000_0000_0000_0000 != 0 then a & ISA_FIELD else 0
    ensures ToFlags(a) & !(0x7FFF | ISA_FIELD) == 0
  {
    hide ToFlags, SingleFlags;
    ToFlagsJoined(a);
    SingleFlagsBelow(a);
    Joined(a, SingleFlags(a), ToFlags(a));
  }

  /** The five caching attributes keep their places. */
  lemma CachingKept(a: bv64)
    ensures ToFlags(a) & 0x1F == a & 0x1F
  {
    hide ToFlags, SingleFlags;
    FlagIffAttribute(a, 0x1, 0x1);
    FlagIffAttribute(a, 0x2, 0x2);
    FlagIffAttribute(a, 0x4, 0x4);
    FlagIffAttribute(a, 0x8, 0x8);
    FlagIffAttribute(a, 0x10, 0x10);
    FiveBits(ToFlags(a), a);
  }

  lemma FiveBits(x: bv64, y: bv64)
    requires x & 0x1 != 0 <==> y & 0x1 != 0
    requires x & 0x2 != 0 <==> y & 0x2 != 0
    requires x & 0x4 != 0 <==> y & 0x4 != 0
    requires x & 0x8 != 0 <==> y & 0x8 != 0
    requires x & 0x10 != 0 <==> y & 0x10 != 0
    ensures x & 0x1F == y & 0x1F
  {
  }

  /** `flags` say exactly what the firmware's attributes `a` say. */
  ghost predicate FlagsTell(a: bv64, flags: bv64) {
    && (forall bit, flag | SameMeaning(bit, flag) :: IsSet(flags, flag) <==> IsSet(a, bit))
    && flags & ISA_FIELD == (if a & 0x4000_0000_0000_0000 != 0 then a & ISA_FIELD else 0)
    && flags & !(0x7FFF | ISA_FIELD) == 0
  }

  lemma ToFlagsTell(a: bv64)
    ensures FlagsTell(a, ToFlags(a))
  {
    hide ToFlags, SameMeaning, IsSet;
    FieldIfValid(a);
    forall bit, flag | SameMeaning(bit, flag)
      ensures IsSet(ToFlags(a), flag) <==> IsSet(a, bit)
    {
      FlagIffAttribute(a, bit, flag);
    }
  }

  // ----- Types and uses -----

  /** Every type of the firmware but those that are merely reserved keeps a type of its own, except that
      the memory of the loader is usable like conventional memory. */
  predicate TypeTells(t: EfiMemoryType, k: MemoryType) {
    && (k == Usable <==> t in {EfiConventionalMemory, EfiLoaderCode, EfiLoaderData})
    && (k == UsablePersistent <==> t == EfiPersistentMemory)
    && (k == Unusable <==> t == EfiUnusableMemory)
    && (k == Unaccepted <==> t == EfiUnacceptedMemoryType)
    && (k == AcpiReclaim <==> t == EfiACPIReclaimMemory)
    && (k == AcpiNvs <==> t == EfiACPIMemoryNVS)
    && (k == EfiBootServicesCodeMemory <==> t == EfiBootServicesCode)
    && (k == EfiBootServicesDataMemory <==> t == EfiBootServicesData)
    && (k == EfiRuntimeServicesCodeMemory <==> t == EfiRuntimeServicesCode)
    && (k == EfiRuntimeServicesDataMemory <==> t == EfiRuntimeServicesData)
    && k != MaxType
  }

  predicate UsageTells(t: EfiMemoryType, u: Usage) {
    && (u == KernelCode <==> t == EfiLoaderCode)
    && (u == KernelData <==> t == EfiLoaderData)
    && (u == MappedUsage <==> t in {EfiConventionalMemory, EfiPersistentMemory, EfiBootServicesCode, EfiBootServicesData,
                                    EfiRuntimeServicesCode, EfiRuntimeServicesData})
    && u in {NoUsage, MappedUsage, KernelCode, KernelData}
  }

  lemma ConversionsTell(t: EfiMemoryType)
    ensures TypeTells(t, ToMemoryType(t)) && UsageTells(t, ToUsage(t))
  {
  }

  // ----- In the kernel's maps -----

  /** The bytes of a descriptor, from its fields. */
  predicate Holds(d: MemoryDescriptor, a: nat) {
    d.physicalStart <= a < d.physicalStart + d.numberOfPages * 4096
  }

  /** An address has the attributes of the one descriptor that holds it. */
  lemma AttributesAtAddress(ds: seq<MemoryDescriptor>, d: MemoryDescriptor, a: nat, attributes: Attributes)
    requires WellFormed(ds) && d in ds && Holds(d, a)
    ensures At(DescriptorRanges(ds), a, attributes) <==> attributes == AttributesOf(d)
  {
    hide At, AttributesOf;
    DescriptorIsAt(ds, a, attributes);
    if c :| c in ds && c.physicalStart <= a < c.End() && AttributesOf(c) == attributes {
      SameDescriptor(ds, c, d, a);
    }
  }

  lemma SameDescriptor(ds: seq<MemoryDescriptor>, c: MemoryDescriptor, d: MemoryDescriptor, a: nat)
    requires WellFormed(ds) && c in ds && d in ds && Holds(c, a) && Holds(d, a)
    ensures c == d
  {
    hide AttributesOf;
    var i :| 0 <= i < |ds| && ds[i] == c;
    var j :| 0 <= j < |ds| && ds[j] == d;
    PagesKept(ds, i);
    PagesKept(ds, j);
  }

  lemma DescriptorTells(d: MemoryDescriptor)
    ensures FlagsTell(d.attribute, AttributesOf(d).flags)
    ensures TypeTells(d.memoryType, AttributesOf(d).memoryType) && UsageTells(d.memoryType, AttributesOf(d).usage)
  {
    hide FlagsTell, TypeTells, UsageTells, ToFlags, ToMemoryType, ToUsage;
    ToFlagsTell(d.attribute);
    ConversionsTell(d.memoryType);
  }

  /** Wherever the firmware describes memory, the iteration has one entry, which says of type, use and every
      attribute what the descriptor says; elsewhere it has none. */
  lemma IterationTells(ds: seq<MemoryDescriptor>, es: seq<InitialMemMapEntry>, a: nat)
    requires WellFormed(ds) && IsIteration(ds, es)
    ensures (exists d :: d in ds && Holds(d, a)) <==> (exists e :: e in es && e.AsRange().Has(a))
    ensures forall d, e | d in ds && Holds(d, a) && e in es && e.AsRange().Has(a) ::
              && FlagsTell(d.attribute, e.attributes.flags)
              && TypeTells(d.memoryType, e.attributes.memoryType) && UsageTells(d.memoryType, e.attributes.usage)
  {
    hide WellFormed, FlagsTell, TypeTells, UsageTells, AttributesOf;
    forall e | e in es && e.AsRange().Has(a)
      ensures At(DescriptorRanges(ds), a, e.attributes)
    {
      EntryGives(ds, es, e, a);
    }
    if d :| d in ds && Holds(d, a) {
      AttributesAtAddress(ds, d, a, AttributesOf(d));
      var e := EntryFor(ds, es, a, AttributesOf(d));
    }
    if e :| e in es && e.AsRange().Has(a) {
      DescriptorIsAt(ds, a, e.attributes);
    }
    forall d, e | d in ds && Holds(d, a) && e in es && e.AsRange().Has(a)
      ensures FlagsTell(d.attribute, e.attributes.flags)
      ensures TypeTells(d.memoryType, e.attributes.memoryType) && UsageTells(d.memoryType, e.attributes.usage)
    {
      AttributesAtAddress(ds, d, a, e.attributes);
      DescriptorTells(d);
    }
  }

  lemma EntryGives(ds: seq<MemoryDescriptor>, es: seq<InitialMemMapEntry>, e: InitialMemMapEntry, a: nat)
    requires IsIteration(ds, es) && e in es && e.AsRange().Has(a)
    ensures At(DescriptorRanges(ds), a, e.attributes)
  {
    hide At;
    var i :| 0 <= i < |es| && es[i] == e;
    EntryMeans(es, i, a);
    assert At(Ranges(es), a, e.attributes) <==> At(DescriptorRanges(ds), a, e.attributes);
  }

  lemma EntryFor(ds: seq<MemoryDescriptor>, es: seq<InitialMemMapEntry>, a: nat, attributes: Attributes)
    returns (e: InitialMemMapEntry)
    requires IsIteration(ds, es) && At(DescriptorRanges(ds), a, attributes)
    ensures e in es && e.AsRange().Has(a)
  {
    hide At;
    assert At(Ranges(es), a, attributes) <==> At(DescriptorRanges(ds), a, attributes);
    var i := EntryAt(es, a, attributes);
    e := es[i];
  }

  /** So does the finished initial map, except that its own pages are in use as the map. */
  lemma InitialMapTells(ds: seq<MemoryDescriptor>, es: seq<InitialMemMapEntry>, k: nat, m: seq<InitialMemMapEntry>,
                        d: MemoryDescriptor, e: InitialMemMapEntry, a: nat)
    requires WellFormed(ds) && IsIteration(ds, es) && IsCarved(es, k, m)
    requires d in ds && Holds(d, a) && e in m && e.AsRange().Has(a)
    ensures FlagsTell(d.attribute, e.attributes.flags) && TypeTells(d.memoryType, e.attributes.memoryType)
    ensures if k < |es| && es[k].physicalAddress <= a < MapEnd(es, k) then e.attributes.usage == InitialMemMapUsage
            else UsageTells(d.memoryType, e.attributes.usage)
  {
    assert k < |es|;
    hide WellFormed, IsIteration, IsCarved, FlagsTell, TypeTells, UsageTells, AttributesOf, At;
    var i :| 0 <= i < |m| && m[i] == e;
    EntryMeans(m, i, a);
    CarvedAttributes(ds, es, k, m, a, e.attributes);
    DescriptorTells(d);
    if es[k].physicalAddress <= a < MapEnd(es, k) {
      MapFits(es, k, m);
      EntryGives(ds, es, es[k], a);
      AttributesAtAddress(ds, d, a, es[k].attributes);
    } else {
      AttributesAtAddress(ds, d, a, e.attributes);
    }
  }

  /** And so, of type and attributes, does the physical memory map. */
  lemma PhysicalMapTells(ds: seq<MemoryDescriptor>, es: seq<InitialMemMapEntry>, a: nat)
    requires WellFormed(ds) && IsIteration(ds, es)
    ensures var map_ := Coalesce(PhysicalRanges(es));
            && ((exists d :: d in ds && Holds(d, a)) <==> (exists r :: r in map_ && r.Has(a)))
            && forall d, r | d in ds && Holds(d, a) && r in map_ && r.Has(a) ::
                 FlagsTell(d.attribute, r.kind.flags) && TypeTells(d.memoryType, r.kind.memoryType)
  {
    hide FlagsTell, TypeTells, UsageTells, WellFormed, IsIteration, Coalesce;
    IterationTells(ds, es, a);
    forall r | r in Coalesce(PhysicalRanges(es)) && r.Has(a)
      ensures exists e :: e in es && e.AsRange().Has(a) && KindOf(e) == r.kind
    {
      var e := MergedFrom(ds, es, r, a);
    }
    if e :| e in es && e.AsRange().Has(a) {
      var r := MergedInto(ds, es, e, a);
    }
  }

  lemma MergedFrom(ds: seq<MemoryDescriptor>, es: seq<InitialMemMapEntry>, r: Range<Kind>, a: nat)
    returns (e: InitialMemMapEntry)
    requires IsIteration(ds, es) && r in Coalesce(PhysicalRanges(es)) && r.Has(a)
    ensures e in es && e.AsRange().Has(a) && KindOf(e) == r.kind
  {
    hide Coalesce, Ascending;
    PhysicalAscending(es);
    CoalesceCanonical(PhysicalRanges(es));
    assert At(Coalesce(PhysicalRanges(es)), a, r.kind);
    var i :| 0 <= i < |es| && PhysicalRanges(es)[i].Has(a) && PhysicalRanges(es)[i].kind == r.kind;
    e := es[i];
  }

  lemma MergedInto(ds: seq<MemoryDescriptor>, es: seq<InitialMemMapEntry>, e: InitialMemMapEntry, a: nat)
    returns (r: Range<Kind>)
    requires IsIteration(ds, es) && e in es && e.AsRange().Has(a)
    ensures r in Coalesce(PhysicalRanges(es)) && r.Has(a)
  {
    hide Coalesce, Ascending;
    PhysicalAscending(es);
    CoalesceCanonical(PhysicalRanges(es));
    var i :| 0 <= i < |es| && es[i] == e;
    assert PhysicalRanges(es)[i].Has(a) && At(PhysicalRanges(es), a, KindOf(e));
    assert At(Coalesce(PhysicalRanges(es)), a, KindOf(e));
    var j :| 0 <= j < |Coalesce(PhysicalRanges(es))| && Coalesce(PhysicalRanges(es))[j].Has(a);
    r := Coalesce(PhysicalRanges(es))[j];
  }
}
