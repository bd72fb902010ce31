/** Physical memory as the kernel describes it: types, uses, and the entries of its first memory map. */
module PhysicalMemory {
  import opened RangeLists
  import opened MemoryUnits

  /** Bytes that one entry of the initial memory map occupies. */
  const INITIAL_ENTRY_SIZE: nat := 40

  datatype MemoryType =
    | Unusable
    | FirmwareReserved
    | Unaccepted
    | Usable
    | UsablePersistent
    | AcpiReclaim
    | AcpiNvs
    | EfiBootServicesCodeMemory
    | EfiBootServicesDataMemory
    | EfiRuntimeServicesCodeMemory
    | EfiRuntimeServicesDataMemory
    | MaxType

  datatype Usage =
    | NoUsage
    | MappedUsage
    | KernelCode
    | KernelData
    | BootCode
    | BootData
    | InitialMemMapUsage

  type MemoryFlags = bv64

  datatype Attributes = Attributes(memoryType: MemoryType, usage: Usage, flags: MemoryFlags)

  /** What a range of physical memory is, whatever it is being used for. */
  datatype Kind = Kind(memoryType: MemoryType, flags: MemoryFlags)

  datatype InitialMemMapEntry = InitialMemMapEntry(
    attributes: Attributes,
    physicalAddress: nat,
    virtualAddress: nat,
    numPhysicalPages: nat)
  {
    function End(): nat { physicalAddress + numPhysicalPages * PHYSICAL_PAGE_SIZE }

    function AsRange(): Range<Attributes> { Range(physicalAddress, End(), attributes) }

    function AsPhysicalRange(): Range<Kind> {
      Range(physicalAddress, End(), Kind(attributes.memoryType, attributes.flags))
    }
  }

  function Ranges(es: seq<InitialMemMapEntry>): (rs: seq<Range<Attributes>>)
    ensures |rs| == |es|
  {
    seq(|es|, i requires 0 <= i < |es| => es[i].AsRange())
  }

  function PhysicalRanges(es: seq<InitialMemMapEntry>): (rs: seq<Range<Kind>>)
    ensures |rs| == |es|
  {
    seq(|es|, i requires 0 <= i < |es| => es[i].AsPhysicalRange())
  }

  /** Every entry is mapped at its own address. */
  ghost predicate IdentityMapped(es: seq<InitialMemMapEntry>) {
    forall i | 0 <= i < |es| :: es[i].virtualAddress == es[i].physicalAddress
  }

  function TotalPages(es: seq<InitialMemMapEntry>): nat {
    if es == [] then 0 else TotalPages(es[..|es| - 1]) + es[|es| - 1].numPhysicalPages
  }

  lemma {:induction false} TotalPagesAppend(es: seq<InitialMemMapEntry>, fs: seq<InitialMemMapEntry>)
    ensures TotalPages(es + fs) == TotalPages(es) + TotalPages(fs)
  {
    if fs == [] {
      assert es + fs == es;
    } else {
      var n := |fs| - 1;
      TotalPagesAppend(es, fs[..n]);
      assert (es + fs)[..|es + fs| - 1] == es + fs[..n];
    }
  }
}
