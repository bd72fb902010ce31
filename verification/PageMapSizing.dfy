/** The pass that computes how large a buffer the page map needs: it visits the covered regions in
    ascending order and counts, for each level, the tables that each region adds. */
module PageMapSizing {
  import opened MemoryUnits
  import opened Wrappers
  import opened Intervals
  import opened Paging
  import opened UefiMemoryMap
  import opened MappedRegions
  import opened PageMapState

  // ----- Counting tables -----

  /** The numbers of the tables of one level under which the pages fall. */
  ghost function Prefixes(level: nat, pages: set<nat>): set<nat> {
    set p | p in pages :: Prefix(level, p)
  }

  /** How many tables of one level the pages fall under. */
  ghost function TableCount(level: nat, pages: set<nat>): nat {
    |Prefixes(level, pages)|
  }

  lemma PrefixesUnion(level: nat, a: set<nat>, b: set<nat>)
    ensures Prefixes(level, a + b) == Prefixes(level, a) + Prefixes(level, b)
  {
  }

  lemma PrefixBounds(level: nat, start: nat, end: nat, p: nat)
    requires level <= 5 && p in PagesOf(start, end)
    ensures TableIndex(level, start) <= Prefix(level, p) <= TableIndex(level, end - 1)
  {
    hide TableIndex, Prefix;
    IndexIsPrefix(level, start);
    IndexIsPrefix(level, end - 1);
    PrefixMonotone(level, start / PAGE_SIZE, p);
    PrefixMonotone(level, p, (end - 1) / PAGE_SIZE);
  }

  lemma PageOfPrefix(level: nat, start: nat, end: nat, q: nat) returns (p: nat)
    requires level <= 5 && start < end && TableIndex(level, start) <= q <= TableIndex(level, end - 1)
    ensures p in PagesOf(start, end) && Prefix(level, p) == q
  {
    hide TableIndex, Prefix;
    IndexIsPrefix(level, start);
    IndexIsPrefix(level, end - 1);
    p := PageUnder(level, start / PAGE_SIZE, (end - 1) / PAGE_SIZE, q);
  }

  /** The tables of one level that a range of bytes falls under are consecutive. */
  lemma PrefixesOfRange(level: nat, start: nat, end: nat)
    requires level <= 5 && start < end
    ensures Prefixes(level, PagesOf(start, end)) == Interval(TableIndex(level, start), TableIndex(level, end - 1) + 1)
  {
    hide TableIndex, Prefix, PagesOf, Interval;
    var pages, qs := PagesOf(start, end), Interval(TableIndex(level, start), TableIndex(level, end - 1) + 1);
    forall q | q in Prefixes(level, pages)
      ensures q in qs
    {
      var p :| p in pages && q == Prefix(level, p);
      PrefixBounds(level, start, end, p);
    }
    forall q | q in qs
      ensures q in Prefixes(level, pages)
    {
      var p := PageOfPrefix(level, start, end, q);
    }
  }

  /** Between two pages lies one for every table number in between. */
  lemma {:induction false} PageUnder(level: nat, first: nat, last: nat, q: nat) returns (p: nat)
    requires Prefix(level, first) <= q <= Prefix(level, last)
    requires first <= last
    ensures first <= p <= last && Prefix(level, p) == q
  {
    if level == 0 {
      p := q;
    } else {
      var a, b := Prefix(level - 1, first), Prefix(level - 1, last);
      PrefixMonotone(level - 1, first, last);
      var r := if a / 512 == q then a else q * 512;
      assert a <= r <= b && r / 512 == q;
      p := PageUnder(level - 1, first, last, r);
    }
  }

  /** Adding the numbers `first..last` to numbers that go up to `top <= first`, or to none. */
  lemma IntervalGrowth(qs: set<nat>, top: nat, first: nat, last: nat)
    requires first <= last
    requires qs != {} ==> top in qs && top <= first && forall q | q in qs :: q <= top
    ensures |qs + Interval(first, last + 1)| == |qs| + (last - first) + (if qs == {} || top < first then 1 else 0)
  {
    hide Interval;
    if qs == {} {
      assert qs + Interval(first, last + 1) == Interval(first, last + 1);
    } else if top < first {
      DisjointCount(qs, Interval(first, last + 1));
    } else {
      assert qs + Interval(first, last + 1) == qs + Interval(first + 1, last + 1);
      DisjointCount(qs, Interval(first + 1, last + 1));
    }
  }

  lemma DisjointCount(a: set<nat>, b: set<nat>)
    requires a !! b
    ensures |a + b| == |a| + |b|
  {
  }

  /** The last of the pages is the one of the address before `high`. */
  ghost predicate UpTo(pages: set<nat>, high: nat) {
    pages != {} ==> high > 0 && (high - 1) / PAGE_SIZE in pages && forall p | p in pages :: p <= (high - 1) / PAGE_SIZE
  }

  lemma UpToPositive(pages: set<nat>, high: nat)
    requires UpTo(pages, high)
    ensures pages != {} ==> high > 0
  {
  }

  /** The highest table number of the pages below `high`. */
  lemma TopPrefix(level: nat, pages: set<nat>, high: nat)
    requires level <= 5 && pages != {} && UpTo(pages, high)
    ensures high > 0 && TableIndex(level, high - 1) in Prefixes(level, pages)
    ensures forall q | q in Prefixes(level, pages) :: q <= TableIndex(level, high - 1)
  {
    hide TableIndex, Prefix;
    IndexIsPrefix(level, high - 1);
    forall q | q in Prefixes(level, pages)
      ensures q <= TableIndex(level, high - 1)
    {
      var p :| p in pages && q == Prefix(level, p);
      PrefixMonotone(level, p, (high - 1) / PAGE_SIZE);
    }
  }

  lemma IndexIsQuotient(level: nat, a: nat)
    requires level <= 5
    ensures a / Span(level) == TableIndex(level, a)
  {
  }

  lemma SpanMonotone(level: nat, a: nat, b: nat)
    requires level <= 5 && a <= b
    ensures TableIndex(level, a) <= TableIndex(level, b)
  {
    hide TableIndex, Prefix;
    IndexIsPrefix(level, a);
    IndexIsPrefix(level, b);
    PrefixMonotone(level, a / PAGE_SIZE, b / PAGE_SIZE);
  }

  /** A region adds the tables from that of its first byte to that of its last. */
  lemma GrownPrefixes(level: nat, pages: set<nat>, start: nat, end: nat)
    requires level <= 5 && start < end
    ensures var first, last := TableIndex(level, start), TableIndex(level, end - 1);
            && first <= last
            && Prefixes(level, pages + PagesOf(start, end)) == Prefixes(level, pages) + Interval(first, last + 1)
  {
    hide TableIndex, Prefix, Prefixes, PagesOf, Interval;
    PrefixesUnion(level, pages, PagesOf(start, end));
    PrefixesOfRange(level, start, end);
    SpanMonotone(level, start, end - 1);
  }

  lemma TopBelow(level: nat, pages: set<nat>, high: nat, start: nat)
    requires level <= 5 && pages != {} && UpTo(pages, high) && high <= start
    ensures high > 0 && TableIndex(level, high - 1) in Prefixes(level, pages)
    ensures TableIndex(level, high - 1) <= TableIndex(level, start)
    ensures forall q | q in Prefixes(level, pages) :: q <= TableIndex(level, high - 1)
  {
    hide TableIndex, Prefix, Prefixes, UpTo;
    TopPrefix(level, pages, high);
    SpanMonotone(level, high - 1, start);
  }

  /** How many tables of one level a region adds to those of the pages below it. */
  lemma CountStep(level: nat, pages: set<nat>, high: nat, start: nat, end: nat)
    requires level <= 5 && high <= start < end && UpTo(pages, high)
    ensures var first, last := TableIndex(level, start), TableIndex(level, end - 1);
            TableCount(level, pages + PagesOf(start, end)) ==
              TableCount(level, pages) + (last - first)
              + (if pages == {} || TableIndex(level, high - 1) < first then 1 else 0)
  {
    hide TableIndex, Prefix, Prefixes, PagesOf, Interval, UpTo;
    UpToPositive(pages, high);
    var first, last := TableIndex(level, start), TableIndex(level, end - 1);
    GrownPrefixes(level, pages, start, end);
    if pages == {} {
      NoPrefixes(level);
      IntervalGrowth({}, 0, first, last);
    } else {
      SomePrefixes(level, pages);
      TopBelow(level, pages, high, start);
      IntervalGrowth(Prefixes(level, pages), TableIndex(level, high - 1), first, last);
    }
  }

  lemma NoPrefixes(level: nat)
    ensures Prefixes(level, {}) == {}
  {
  }

  /** The tables of one level. */
  ghost function KeysAt(level: nat, qs: set<nat>): set<Key> {
    set q | q in qs :: Key(level, q)
  }

  /** The tables of the levels up to `level` are those of the levels below and those of `level`. */
  lemma NeededLevel(level: nat, pages: set<nat>)
    requires level > 0
    ensures Needed(level, pages) == Needed(level - 1, pages) + KeysAt(level, Prefixes(level, pages))
  {
    hide Prefix;
    forall k | k in Needed(level, pages)
      ensures k in Needed(level - 1, pages) + KeysAt(level, Prefixes(level, pages))
    {
      var p :| p in pages && k == TableFor(k.level, p);
      assert k.level == level ==> k.prefix in Prefixes(level, pages);
    }
    forall k | k in KeysAt(level, Prefixes(level, pages))
      ensures k in Needed(level, pages)
    {
      var p :| p in pages && k.prefix == Prefix(level, p);
      assert k == TableFor(level, p);
    }
  }

  lemma NeededCount(level: nat, pages: set<nat>)
    requires level > 0
    ensures |Needed(level, pages)| == |Needed(level - 1, pages)| + TableCount(level, pages)
  {
    NeededLevel(level, pages);
    SameCount(level, Prefixes(level, pages), KeysAt(level, Prefixes(level, pages)));
    hide Prefix, Prefixes;
    assert Needed(level - 1, pages) !! KeysAt(level, Prefixes(level, pages));
  }

  lemma {:induction false} SameCount(level: nat, qs: set<nat>, keys: set<Key>)
    requires keys == KeysAt(level, qs)
    ensures |keys| == |qs|
  {
    if qs != {} {
      var q :| q in qs;
      SameCount(level, qs - {q}, keys - {Key(level, q)});
    }
  }

  // ----- The pass -----

  /** Finds the region that the sizing pass visits next. */
  method FindNextMemoryRange(min: nat, kind: MapKind, ds: seq<MemoryDescriptor>, framebuffer: Option<Region>)
    returns (found: Option<Region>)
    ensures found == NextRegion(DescriptorRegions(kind, ds), framebuffer, min)
  {
    found := None;
    for i := 0 to |ds|
      invariant found == LowestFrom(DescriptorRegions(kind, ds[..i]), min)
    {
      LowestStep(kind, ds, i, min);
      if ShouldInclude(kind, ds[i]) {
        var mapMin := ds[i].physicalStart;
        if mapMin >= min && (found.None? || mapMin < found.value.base) {
          found := Some(Region(mapMin, mapMin + ds[i].numberOfPages * EFI_PAGE_SIZE));
        }
      }
    }
    assert ds[..|ds|] == ds;
    if framebuffer.Some? && framebuffer.value.base >= min &&
       (found.None? || framebuffer.value.base < found.value.last) {
      found := framebuffer;
    }
  }

  /** How one more descriptor changes the lowest region found. */
  lemma LowestStep(kind: MapKind, ds: seq<MemoryDescriptor>, i: nat, min: nat)
    requires i < |ds|
    ensures var best := LowestFrom(DescriptorRegions(kind, ds[..i]), min);
            var r := RegionOf(ds[i]);
            LowestFrom(DescriptorRegions(kind, ds[..i + 1]), min) ==
            if ShouldInclude(kind, ds[i]) && r.base >= min && (best.None? || r.base < best.value.base) then Some(r) else best
  {
    assert ds[..i + 1][..i] == ds[..i];
    var rs := DescriptorRegions(kind, ds[..i]);
    assert (rs + [RegionOf(ds[i])])[..|rs|] == rs;
    assert rs + [] == rs;
  }

  /** The counters after the pages below `high` have been dealt with; index `i` is level `i + 1`. */
  ghost predicate Counted(counts: seq<nat>, highest: seq<nat>, pages: set<nat>, high: nat) {
    && |counts| == |highest| <= 4
    && UpTo(pages, high)
    && forall i | 0 <= i < |counts| :: LevelCounted(counts, highest, pages, high, i)
  }

  ghost predicate LevelCounted(counts: seq<nat>, highest: seq<nat>, pages: set<nat>, high: nat, i: nat)
    requires |counts| == |highest| <= 4 && i < |counts|
    requires pages != {} ==> high > 0
  {
    && counts[i] == TableCount(i + 1, pages)
    && (pages != {} ==> highest[i] == TableIndex(i + 1, high - 1))
  }

  lemma SomePrefixes(level: nat, pages: set<nat>)
    ensures pages != {} <==> TableCount(level, pages) != 0
  {
    if pages != {} {
      var p :| p in pages;
      assert Prefix(level, p) in Prefixes(level, pages);
    } else {
      assert Prefixes(level, pages) == {};
    }
  }

  /** Adds the tables of one region to the counters of every level. */
  method CountRangeTables(counts: array<nat>, highest: array<nat>, r: Region,
                          ghost pages: set<nat>, ghost high: nat)
    requires counts != highest && Counted(counts[..], highest[..], pages, high)
    requires high <= r.base < r.last
    modifies counts, highest
    ensures Counted(counts[..], highest[..], pages + PagesOf(r.base, r.last), r.last)
  {
    hide TableIndex, TableCount, LevelCounted, PagesOf, Span, UpTo;
    UpToPositive(pages, high);
    ghost var more := pages + PagesOf(r.base, r.last);
    ghost var counts0, highest0 := counts[..], highest[..];
    for i := 0 to counts.Length
      invariant forall j | 0 <= j < i :: counts[j] == TableCount(j + 1, more)
      invariant forall j | 0 <= j < i :: highest[j] == TableIndex(j + 1, r.last - 1)
      invariant forall j | i <= j < counts.Length :: counts[j] == counts0[j] && highest[j] == highest0[j]
    {
      assert LevelCounted(counts0, highest0, pages, high, i);
      LevelStep(counts0, highest0, pages, high, i, r);
      var managed := Span(i + 1);
      IndexIsQuotient(i + 1, r.base);
      IndexIsQuotient(i + 1, r.last - 1);
      var startIndex := r.base / managed;
      var endIndex := (r.last - 1) / managed;
      var rangeTables := endIndex - startIndex;
      if highest[i] < startIndex || counts[i] == 0 {
        rangeTables := rangeTables + 1;
      }
      highest[i] := endIndex;
      counts[i] := counts[i] + rangeTables;
    }
    AllLevelsStep(counts[..], highest[..], pages, high, r);
  }

  lemma LevelStep(counts: seq<nat>, highest: seq<nat>, pages: set<nat>, high: nat, i: nat, r: Region)
    requires Counted(counts, highest, pages, high) && i < |counts|
    requires high <= r.base < r.last
    ensures TableIndex(i + 1, r.base) <= TableIndex(i + 1, r.last - 1)
    ensures TableCount(i + 1, pages + PagesOf(r.base, r.last)) ==
            counts[i] + TableIndex(i + 1, r.last - 1) - TableIndex(i + 1, r.base)
            + (if highest[i] < TableIndex(i + 1, r.base) || counts[i] == 0 then 1 else 0)
  {
    hide TableIndex, TableCount, PagesOf, UpTo;
    UpToPositive(pages, high);
    assert LevelCounted(counts, highest, pages, high, i);
    hide Counted;
    SomePrefixes(i + 1, pages);
    CountStep(i + 1, pages, high, r.base, r.last);
    SpanMonotone(i + 1, r.base, r.last - 1);
  }

  lemma AllLevelsStep(counts: seq<nat>, highest: seq<nat>, pages: set<nat>, high: nat, r: Region)
    requires |counts| == |highest| <= 4 && high <= r.base < r.last
    requires UpTo(pages, high)
    requires forall j | 0 <= j < |counts| :: counts[j] == TableCount(j + 1, pages + PagesOf(r.base, r.last))
    requires forall j | 0 <= j < |counts| :: highest[j] == TableIndex(j + 1, r.last - 1)
    ensures Counted(counts, highest, pages + PagesOf(r.base, r.last), r.last)
  {
    hide TableCount, TableIndex, UpTo, PagesOf;
    UpToStep(pages, high, r);
    forall i | 0 <= i < |counts|
      ensures LevelCounted(counts, highest, pages + PagesOf(r.base, r.last), r.last, i)
    {
    }
  }

  lemma UpToStep(pages: set<nat>, high: nat, r: Region)
    requires high <= r.base < r.last && UpTo(pages, high)
    ensures UpTo(pages + PagesOf(r.base, r.last), r.last)
  {
    var last := (r.last - 1) / PAGE_SIZE;
    assert last in PagesOf(r.base, r.last);
    forall p | p in pages + PagesOf(r.base, r.last)
      ensures p <= last
    {
      if p in pages { PageMonotone(high - 1, r.last - 1); }
    }
  }

  lemma PageMonotone(a: nat, b: nat)
    requires a <= b
    ensures a / PAGE_SIZE <= b / PAGE_SIZE
  {
  }

  /** Sums the counters of levels 1 to `n`. */
  function Sum(counts: seq<nat>): nat {
    if counts == [] then 0 else Sum(counts[..|counts| - 1]) + counts[|counts| - 1]
  }

  lemma {:induction false} SumIsNeeded(counts: seq<nat>, pages: set<nat>)
    requires forall i | 0 <= i < |counts| :: counts[i] == TableCount(i + 1, pages)
    ensures Sum(counts) == |Needed(|counts|, pages)|
  {
    hide TableCount, Needed;
    if counts == [] {
      NeededNone(pages);
    } else {
      SumIsNeeded(counts[..|counts| - 1], pages);
      NeededCount(|counts|, pages);
    }
  }

  /** The size of the buffer that a page map with a root table of level `levels` needs: one table for
      the root, and one for each table of a lower level that some covered page falls under. */
  method CalculatePageMapSize(levels: nat, kind: MapKind, ds: seq<MemoryDescriptor>, framebuffer: Option<Region>)
    returns (size: nat)
    requires 2 <= levels <= 5
    requires Disjoint(Regions(kind, ds, framebuffer)) && ScanEnds(DescriptorRegions(kind, ds), framebuffer)
    requires AllWithin(Regions(kind, ds, framebuffer), ADDRESS_LIMIT - 1)
    ensures size == TABLE_SIZE *
                    (1 + |Needed(levels - 1, PagesOfRegions(Regions(kind, ds, framebuffer)))|)
  {
    hide Disjoint, NonEmpty, Counted, Needed, PagesOfRegions, DescriptorRegions, NextRegion, PagesBelow, ScanEnds, Filled;
    ghost var filled := Filled(DescriptorRegions(kind, ds));
    ghost var rs := Filled(Regions(kind, ds, framebuffer));
    FilledScan(DescriptorRegions(kind, ds), framebuffer, 0);
    FilledPages(Regions(kind, ds, framebuffer));
    FilledDisjoint(Regions(kind, ds, framebuffer));
    WithinFilled(Regions(kind, ds, framebuffer), ADDRESS_LIMIT - 1);
    var counts := new nat[levels - 1](_ => 0);
    var highest := new nat[levels - 1](_ => 0);
    var high: nat := 0;
    PagesBelowNone(rs);
    NothingCounted(counts[..], highest[..]);
    var more := true;
    while more
      invariant high < ADDRESS_LIMIT && Split(rs, high)
      invariant Counted(counts[..], highest[..], PagesBelow(rs, high), high)
      invariant !more ==> IsLowest(rs, high, None)
      decreases more, ADDRESS_LIMIT - high
    {
      var next := FindNextMemoryRange(high, kind, ds, framebuffer);
      FilledScan(DescriptorRegions(kind, ds), framebuffer, high);
      DisjointNextIsLowest(filled, framebuffer, high);
      if next.None? {
        more := false;
      } else {
        var r := next.value;
        WithinLimit(rs, ADDRESS_LIMIT - 1, r);
        ScanStep(rs, high, r);
        CountRangeTables(counts, highest, r, PagesBelow(rs, high), high);
        high := r.last;
      }
    }
    PagesBelowAll(rs, high);
    CountedAll(counts[..], highest[..], PagesOfRegions(rs), high);
    var numAllTables := SumOf(counts);
    numAllTables := numAllTables + 1;
    size := numAllTables * TABLE_SIZE;
  }

  method SumOf(counts: array<nat>) returns (sum: nat)
    ensures sum == Sum(counts[..])
  {
    sum := 0;
    for i := 0 to counts.Length
      invariant sum == Sum(counts[..i])
    {
      assert counts[..i + 1][..i] == counts[..i];
      sum := sum + counts[i];
    }
    assert counts[..counts.Length] == counts[..];
  }

  lemma WithinFilled(rs: seq<Region>, limit: nat)
    requires AllWithin(rs, limit)
    ensures AllWithin(Filled(rs), limit)
  {
    FilledPages(rs);
    forall i | 0 <= i < |Filled(rs)| ensures Filled(rs)[i].last <= limit { assert Filled(rs)[i] in rs; }
  }

  lemma WithinLimit(rs: seq<Region>, limit: nat, r: Region)
    requires AllWithin(rs, limit) && r in rs && NonEmpty(rs)
    ensures r.base < r.last <= limit
  {
  }

  lemma NothingCounted(counts: seq<nat>, highest: seq<nat>)
    requires |counts| == |highest| <= 4
    requires forall i | 0 <= i < |counts| :: counts[i] == 0
    ensures Counted(counts, highest, {}, 0)
  {
    forall i | 0 <= i < |counts|
      ensures LevelCounted(counts, highest, {}, 0, i)
    {
      SomePrefixes(i + 1, {});
    }
  }

  lemma CountedAll(counts: seq<nat>, highest: seq<nat>, pages: set<nat>, high: nat)
    requires Counted(counts, highest, pages, high)
    ensures Sum(counts) == |Needed(|counts|, pages)|
  {
    forall i | 0 <= i < |counts|
      ensures counts[i] == TableCount(i + 1, pages)
    {
      assert LevelCounted(counts, highest, pages, high, i);
    }
    SumIsNeeded(counts, pages);
  }
}
