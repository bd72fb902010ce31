/** The unit in which the kernel hands out physical memory, and the limits of its addresses. */
module MemoryUnits {
  const PHYSICAL_PAGE_SIZE: nat := 4096

  /** 2^64, the first number that a 64-bit integer cannot hold. */
  const ADDRESS_LIMIT: nat := 0x1_0000_0000_0000_0000
}
