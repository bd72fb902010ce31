/** The translation a processor performs with 4-level or 5-level paging
    (section 4.5 of the Intel 64 and IA-32 Architectures Software Developer's Manual, Volume 3A). */
module Paging {
  import opened Intervals

  const PAGE_SIZE: nat := 4096

  /** Bytes of one table of any level. */
  const TABLE_SIZE: nat := 4096

  /** Physical addresses have at most 52 bits. */
  const PHYSICAL_LIMIT: nat := 0x10_0000_0000_0000

  /** Bytes that one table of the given level manages; level 0 is a single page. */
  function Span(level: nat): (r: nat)
    requires level <= 5
    ensures r > 0
  {
    match level
    case 0 => 0x1000
    case 1 => 0x20_0000
    case 2 => 0x4000_0000
    case 3 => 0x80_0000_0000
    case 4 => 0x1_0000_0000_0000
    case 5 => 0x200_0000_0000_0000
  }

  /** The 9-bit index that a virtual address selects in a table of the given level. */
  function EntryIndex(level: nat, va: nat): (r: nat)
    requires 1 <= level <= 5
    ensures r < 512
  {
    (va / Span(level - 1)) % 512
  }

  predicate Present(entry: nat) { entry % 2 == 1 }

  predicate Writable(entry: nat) { (entry / 2) % 2 == 1 }

  predicate PageSizeBit(entry: nat) { (entry / 128) % 2 == 1 }

  /** The address field of an entry: bits 51 down to the log of `unit`. */
  function FrameAddress(entry: nat, unit: nat): nat
    requires unit > 0
  {
    ((entry % PHYSICAL_LIMIT) / unit) * unit
  }

  datatype Translation =
    | Fault
    | Mapped(address: nat, writable: bool)

  /** Walks the paging structures in physical memory, from the table at address `table`. */
  function Walk(memory: nat -> nat, level: nat, table: nat, va: nat): Translation
    requires 1 <= level <= 5
    decreases level
  {
    var entry := memory(table + 8 * EntryIndex(level, va));
    if !Present(entry) then Fault
    else if level == 1 then Mapped(FrameAddress(entry, PAGE_SIZE) + va % PAGE_SIZE, Writable(entry))
    else if PageSizeBit(entry) then
      if level <= 3 then Mapped(FrameAddress(entry, Span(level - 1)) + va % Span(level - 1), Writable(entry))
      else Fault
    else
      match Walk(memory, level - 1, FrameAddress(entry, PAGE_SIZE), va)
      case Fault => Fault
      case Mapped(address, writable) => Mapped(address, writable && Writable(entry))
  }

  /** Number of the level-`level` table that a page falls under; level 0 is the page itself. */
  function Prefix(level: nat, page: nat): (r: nat)
    decreases level
  {
    if level == 0 then page else Prefix(level - 1, page) / 512
  }

  /** Number of the level-`level` table that manages an address. */
  function TableIndex(level: nat, a: nat): nat
    requires level <= 5
  {
    a / Span(level)
  }

  lemma SpanStep(level: nat, a: nat)
    requires level < 5
    ensures a / Span(level + 1) == a / Span(level) / 512
  {
    match level
    case 0 =>
    case 1 =>
    case 2 =>
    case 3 =>
    case 4 =>
  }

  /** Dividing an address by a table's span gives the table's number. */
  lemma {:induction false} SpanPrefix(level: nat, a: nat)
    requires level <= 5
    ensures a / Span(level) == Prefix(level, a / PAGE_SIZE)
  {
    if level != 0 {
      SpanPrefix(level - 1, a);
      SpanStep(level - 1, a);
    }
  }

  lemma IndexIsPrefix(level: nat, a: nat)
    requires level <= 5
    ensures TableIndex(level, a) == Prefix(level, a / PAGE_SIZE)
  {
    SpanPrefix(level, a);
  }

  lemma {:induction false} PrefixMonotone(level: nat, p: nat, q: nat)
    requires p <= q
    ensures Prefix(level, p) <= Prefix(level, q)
  {
    if level != 0 {
      PrefixMonotone(level - 1, p, q);
    }
  }

  /** The pages that the bytes `[start, end)` touch. */
  function PagesOf(start: nat, end: nat): (r: set<nat>)
    ensures forall p: nat :: p in r <==> start < end && start / PAGE_SIZE <= p <= (end - 1) / PAGE_SIZE
  {
    if start < end then Interval(start / PAGE_SIZE, (end - 1) / PAGE_SIZE + 1) else {}
  }

  /** A page is touched by a byte range exactly when one of its bytes lies in it. */
  lemma PagesOfMeaning(start: nat, end: nat, p: nat)
    ensures p in PagesOf(start, end) <==> exists a :: start <= a < end && a / PAGE_SIZE == p
  {
    if p in PagesOf(start, end) {
      var a := if start / PAGE_SIZE == p then start else p * PAGE_SIZE;
      assert start <= a < end && a / PAGE_SIZE == p;
    }
  }
}
