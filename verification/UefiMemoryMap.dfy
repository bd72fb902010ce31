/** The memory map that UEFI firmware hands over (section 7.2 of the UEFI Specification 2.10). */
module UefiMemoryMap {
  const EFI_PAGE_SIZE: nat := 4096

  /** Memory types; values that the specification does not name are `EfiOtherMemoryType`. */
  datatype EfiMemoryType =
    | EfiReservedMemoryType
    | EfiLoaderCode
    | EfiLoaderData
    | EfiBootServicesCode
    | EfiBootServicesData
    | EfiRuntimeServicesCode
    | EfiRuntimeServicesData
    | EfiConventionalMemory
    | EfiUnusableMemory
    | EfiACPIReclaimMemory
    | EfiACPIMemoryNVS
    | EfiMemoryMappedIO
    | EfiMemoryMappedIOPortSpace
    | EfiPalCode
    | EfiPersistentMemory
    | EfiUnacceptedMemoryType
    | EfiOtherMemoryType(value: nat)

  const EFI_MEMORY_RUNTIME: bv64 := 0x8000_0000_0000_0000

  datatype MemoryDescriptor = MemoryDescriptor(
    memoryType: EfiMemoryType,
    physicalStart: nat,
    numberOfPages: nat,
    attribute: bv64)
  {
    function End(): nat { physicalStart + numberOfPages * EFI_PAGE_SIZE }
  }

  /** The bytes from `base` up to but not including `last`. */
  datatype Region = Region(base: nat, last: nat)
}
