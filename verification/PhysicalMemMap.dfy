/** Merging the initial map's entries into ranges of one type and flags, and the flat physical map
    made of those ranges: a counting pass, then a filling pass over a buffer of the counted size. */
module PhysicalMemMap {
  import opened RangeLists
  import opened MemoryUnits
  import opened PhysicalMemory

  /** Bytes that one range of the flat map occupies. */
  const PHYSICAL_RANGE_SIZE: nat := 32

  /** Hands each merged range to the callback, in order; `combined` lists them. */
  method IterateCombinedPhysRanges(es: seq<InitialMemMapEntry>) returns (combined: seq<Range<Kind>>)
    ensures combined == Coalesce(PhysicalRanges(es))
  {
    hide Coalesce, Add, PhysicalRanges;
    ghost var rs := PhysicalRanges(es);
    combined := [];
    var i: nat := 0;
    CoalesceNone(rs);
    while i < |es|
      invariant i <= |es| && combined == Coalesce(rs[..i])
      invariant i < |es| ==> Separate(combined, rs[i])
    {
      var start := es[i].physicalAddress;
      var numPages := es[i].numPhysicalPages;
      var memType := es[i].attributes.memoryType;
      var memFlags := es[i].attributes.flags;
      var rangeEnd: nat := start + numPages * PHYSICAL_PAGE_SIZE;
      StartRange(es, i, combined);
      while i + 1 < |es| && es[i + 1].attributes.memoryType == memType && es[i + 1].attributes.flags == memFlags &&
            es[i + 1].physicalAddress == rangeEnd
        invariant i < |es|
        invariant rangeEnd == start + numPages * PHYSICAL_PAGE_SIZE
        invariant combined + [Range(start, rangeEnd, Kind(memType, memFlags))] == Coalesce(rs[..i + 1])
      {
        ExtendRange(es, i + 1, combined, start, rangeEnd);
        numPages := numPages + es[i + 1].numPhysicalPages;
        rangeEnd := rangeEnd + es[i + 1].numPhysicalPages * PHYSICAL_PAGE_SIZE;
        i := i + 1;
      }
      combined := combined + [Range(start, start + numPages * PHYSICAL_PAGE_SIZE, Kind(memType, memFlags))];
      EntryRange(es, i);
      if i + 1 < |es| { EntryRange(es, i + 1); }
      i := i + 1;
    }
    assert rs[..|es|] == rs;
  }

  /** The next range does not merge with the last one. */
  predicate Separate(combined: seq<Range<Kind>>, next: Range<Kind>) {
    combined == [] || combined[|combined| - 1].end != next.start || combined[|combined| - 1].kind != next.kind
  }

  lemma CoalesceNone(rs: seq<Range<Kind>>)
    ensures Coalesce(rs[..0]) == []
  {
  }

  lemma EntryRange(es: seq<InitialMemMapEntry>, i: nat)
    requires i < |es|
    ensures PhysicalRanges(es)[i] == es[i].AsPhysicalRange()
  {
  }

  lemma StartRange(es: seq<InitialMemMapEntry>, i: nat, combined: seq<Range<Kind>>)
    requires i < |es| && combined == Coalesce(PhysicalRanges(es)[..i]) && Separate(combined, PhysicalRanges(es)[i])
    ensures combined + [es[i].AsPhysicalRange()] == Coalesce(PhysicalRanges(es)[..i + 1])
  {
    assert PhysicalRanges(es)[..i + 1][..i] == PhysicalRanges(es)[..i];
  }

  lemma ExtendRange(es: seq<InitialMemMapEntry>, i: nat, combined: seq<Range<Kind>>, start: nat, end: nat)
    requires i < |es| && es[i].physicalAddress == end
    requires var kind := Kind(es[i].attributes.memoryType, es[i].attributes.flags);
             combined + [Range(start, end, kind)] == Coalesce(PhysicalRanges(es)[..i])
    ensures combined + [Range(start, es[i].End(), Kind(es[i].attributes.memoryType, es[i].attributes.flags))]
            == Coalesce(PhysicalRanges(es)[..i + 1])
  {
    var rs := PhysicalRanges(es);
    assert rs[..i + 1][..i] == rs[..i];
    assert rs[i] == es[i].AsPhysicalRange();
    var before := Coalesce(rs[..i]);
    assert before[..|before| - 1] == combined;
  }

  // ----- The flat map -----

  /** The counting pass. */
  method GetPhysicalMemMapSize(es: seq<InitialMemMapEntry>) returns (bufferSize: nat)
    ensures bufferSize == |Coalesce(PhysicalRanges(es))| * 32
  {
    var numEntries := 0;
    var combined := IterateCombinedPhysRanges(es);
    for i := 0 to |combined|
      invariant numEntries == i
    {
      numEntries := numEntries + 1;
    }
    bufferSize := numEntries * PHYSICAL_RANGE_SIZE;
  }

  /** The flat map being filled: as many ranges as the buffer holds. */
  class PhysMemMapFill {
    const entries: array<Range<Kind>>
    const bufferSize: nat
    var currentIndex: nat
    var success: bool

    predicate Valid()
      reads this
    {
      entries.Length == bufferSize / PHYSICAL_RANGE_SIZE && currentIndex <= entries.Length
    }

    function Contents(): seq<Range<Kind>>
      requires Valid()
      reads this, entries
    {
      entries[..currentIndex]
    }

    constructor (entries: array<Range<Kind>>, bufferSize: nat)
      requires entries.Length == bufferSize / PHYSICAL_RANGE_SIZE
      ensures Valid() && success && Contents() == [] && this.entries == entries && this.bufferSize == bufferSize
    {
      this.entries, this.bufferSize := entries, bufferSize;
      currentIndex, success := 0, true;
    }

    /** The callback of the filling pass. */
    method FillMemMapEntry(r: Range<Kind>)
      requires Valid()
      modifies this`currentIndex, this`success, entries
      ensures Valid()
      ensures old(|Contents()|) < entries.Length ==> Contents() == old(Contents()) + [r] && success == old(success)
      ensures old(|Contents()|) == entries.Length ==> Contents() == old(Contents()) && !success
    {
      var currentSize := (currentIndex + 1) * PHYSICAL_RANGE_SIZE;
      if currentSize > bufferSize {
        success := false;
        return;
      }
      entries[currentIndex] := r;
      currentIndex := currentIndex + 1;
    }
  }

  /** Fills a buffer with the merged ranges: it succeeds exactly when they fit, and holds the first of
      them in any case. */
  method CreatePhysicalMemMap(es: seq<InitialMemMapEntry>, buffer: array<Range<Kind>>, bufferSize: nat)
    returns (fill: PhysMemMapFill)
    requires buffer.Length == bufferSize / PHYSICAL_RANGE_SIZE
    modifies buffer
    ensures fresh(fill) && fill.Valid() && fill.entries == buffer
    ensures var rs := Coalesce(PhysicalRanges(es));
            && (fill.success <==> |rs| * PHYSICAL_RANGE_SIZE <= bufferSize)
            && fill.Contents() == (if fill.success then rs else rs[..buffer.Length])
  {
    fill := new PhysMemMapFill(buffer, bufferSize);
    var combined := IterateCombinedPhysRanges(es);
    for i := 0 to |combined|
      invariant fill.Valid() && fresh(fill) && fill.entries == buffer && fill.bufferSize == bufferSize
      invariant fill.success <==> i <= buffer.Length
      invariant fill.Contents() == combined[..if i <= buffer.Length then i else buffer.Length]
    {
      fill.FillMemMapEntry(combined[i]);
    }
  }
}
