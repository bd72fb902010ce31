/** What the finished initial map says of memory, compared with what the firmware said. */
module CarvedMap {
  import opened RangeLists
  import opened UefiMemoryMap
  import opened MemoryUnits
  import opened PhysicalMemory
  import opened EfiMapIteration
  import opened InitialMemMap

  // ----- Splitting one range in two -----

  /** The ranges with range `k` split at `mid`. */
  function SplitAt<K>(rs: seq<Range<K>>, k: nat, mid: nat): seq<Range<K>>
    requires k < |rs|
  {
    rs[..k] + [Range(rs[k].start, mid, rs[k].kind), Range(mid, rs[k].end, rs[k].kind)] + rs[k + 1..]
  }

  lemma SplitLength<K>(rs: seq<Range<K>>, k: nat, mid: nat)
    requires k < |rs|
    ensures |SplitAt(rs, k, mid)| == |rs| + 1
  {
  }

  lemma SplitEntry<K>(rs: seq<Range<K>>, k: nat, mid: nat, i: nat)
    requires k < |rs| && i < |SplitAt(rs, k, mid)|
    ensures i < k ==> SplitAt(rs, k, mid)[i] == rs[i]
    ensures i == k ==> SplitAt(rs, k, mid)[i] == Range(rs[k].start, mid, rs[k].kind)
    ensures i == k + 1 ==> SplitAt(rs, k, mid)[i] == Range(mid, rs[k].end, rs[k].kind)
    ensures i > k + 1 ==> i <= |rs| && SplitAt(rs, k, mid)[i] == rs[i - 1]
  {
  }

  lemma SplitAscending<K>(rs: seq<Range<K>>, k: nat, mid: nat)
    requires Ascending(rs) && k < |rs| && rs[k].start < mid < rs[k].end
    ensures Ascending(SplitAt(rs, k, mid))
  {
    hide SplitAt;
    var qs := SplitAt(rs, k, mid);
    SplitLength(rs, k, mid);
    forall i | 0 <= i < |qs|
      ensures qs[i].start < qs[i].end
    {
      SplitEntry(rs, k, mid, i);
    }
    forall i, j | 0 <= i < j < |qs|
      ensures qs[i].end <= qs[j].start
    {
      SplitEntry(rs, k, mid, i);
      SplitEntry(rs, k, mid, j);
    }
  }

  lemma SplitCover<K(!new)>(rs: seq<Range<K>>, k: nat, mid: nat)
    requires k < |rs| && rs[k].start <= mid <= rs[k].end
    ensures SameCover(SplitAt(rs, k, mid), rs)
  {
    var qs := SplitAt(rs, k, mid);
    forall a: nat, kind
      ensures At(qs, a, kind) <==> At(rs, a, kind)
    {
      if At(rs, a, kind) {
        var i :| 0 <= i < |rs| && rs[i].Has(a) && rs[i].kind == kind;
        var j := if i < k then i else if i == k && a < mid then k else i + 1;
        assert qs[j].Has(a) && qs[j].kind == kind;
      }
      if At(qs, a, kind) {
        var j :| 0 <= j < |qs| && qs[j].Has(a) && qs[j].kind == kind;
        var i := if j <= k then j else j - 1;
        assert rs[i].Has(a) && rs[i].kind == kind;
      }
    }
  }

  // ----- The carved map -----

  /** Pages that the map takes. */
  function MapPages(es: seq<InitialMemMapEntry>): nat { PagesFor(RequiredSize(es)) }

  /** The address at which the region that holds the map goes on after it. */
  function MapEnd(es: seq<InitialMemMapEntry>, k: nat): nat
    requires k < |es|
  {
    es[k].physicalAddress + MapPages(es) * PHYSICAL_PAGE_SIZE
  }

  /** The map's entries fit in the pages set aside for them, which begin the region that holds it. */
  lemma MapFits(es: seq<InitialMemMapEntry>, k: nat, m: seq<InitialMemMapEntry>)
    requires IsCarved(es, k, m)
    ensures |m| * INITIAL_ENTRY_SIZE <= MapPages(es) * PHYSICAL_PAGE_SIZE
    ensures 0 < MapPages(es) <= es[k].numPhysicalPages
  {
  }

  /** No page is reserved that the entries, of 40 bytes each, do not need. */
  lemma MapPagesLeast(es: seq<InitialMemMapEntry>)
    ensures (MapPages(es) - 1) * 4096 < (|es| + 1) * 40 <= MapPages(es) * 4096
  {
    hide PagesFor;
    PagesForLeast(RequiredSize(es), MapPages(es));
    SomePage(RequiredSize(es));
    PagesForLeast(RequiredSize(es), MapPages(es) - 1);
  }

  /** Whether the region that holds the map has pages left over. */
  predicate HasRest(es: seq<InitialMemMapEntry>, k: nat)
    requires k < |es|
  {
    es[k].numPhysicalPages != MapPages(es)
  }

  /** The entries of the carved map, one by one. */
  lemma CarvedEntries(es: seq<InitialMemMapEntry>, k: nat, m: seq<InitialMemMapEntry>)
    requires IsCarved(es, k, m)
    ensures |m| == |es| + (if HasRest(es, k) then 1 else 0)
    ensures forall i | 0 <= i < k :: m[i] == es[i]
    ensures m[k] == es[k].(attributes := es[k].attributes.(usage := InitialMemMapUsage), numPhysicalPages := MapPages(es))
    ensures HasRest(es, k) ==>
              m[k + 1].attributes == es[k].attributes && m[k + 1].physicalAddress == MapEnd(es, k) && m[k + 1].End() == es[k].End()
    ensures HasRest(es, k) ==> forall i | k + 2 <= i < |m| :: m[i] == es[i - 1]
    ensures !HasRest(es, k) ==> forall i | k + 1 <= i < |m| :: m[i] == es[i]
  {
  }

  ghost predicate Untagged(es: seq<InitialMemMapEntry>) {
    forall i | 0 <= i < |es| :: es[i].attributes.usage != InitialMemMapUsage
  }

  /** The firmware's map never uses the tag of the initial map. */
  lemma IterationUntagged(ds: seq<MemoryDescriptor>, es: seq<InitialMemMapEntry>)
    requires IsIteration(ds, es)
    ensures Untagged(es)
  {
    forall i | 0 <= i < |es|
      ensures es[i].attributes.usage != InitialMemMapUsage
    {
      var r := Ranges(es)[i];
      assert r.start < r.end && r.Has(r.start);
      assert At(Ranges(es), r.start, r.kind);
      assert At(DescriptorRanges(ds), r.start, r.kind);
    }
  }

  /** Exactly one entry is tagged as the map, and it covers precisely the map's pages. */
  lemma OneTagged(ds: seq<MemoryDescriptor>, es: seq<InitialMemMapEntry>, k: nat, m: seq<InitialMemMapEntry>)
    requires IsIteration(ds, es) && IsCarved(es, k, m)
    ensures forall i | 0 <= i < |m| :: m[i].attributes.usage == InitialMemMapUsage <==> i == k
    ensures m[k].physicalAddress == es[k].physicalAddress && m[k].End() == MapEnd(es, k)
    ensures m[k].attributes.memoryType == Usable
  {
    IterationUntagged(ds, es);
    CarvedEntries(es, k, m);
  }

  /** Carving conserves pages. */
  lemma PagesConserved(es: seq<InitialMemMapEntry>, k: nat, m: seq<InitialMemMapEntry>)
    requires IsCarved(es, k, m)
    ensures TotalPages(m) == TotalPages(es)
  {
    hide TotalPages, Home, CarveOne, RequiredSize, PagesFor;
    TotalOfThree(es[..k], CarveOne(es[k], es[k].physicalAddress, MapPages(es)), es[k + 1..]);
    TotalOfThree(es[..k], [es[k]], es[k + 1..]);
    assert es[..k] + [es[k]] + es[k + 1..] == es;
    TotalOfOne(es[k]);
    TotalOfPart(es[k], es[k].physicalAddress, MapPages(es));
  }

  lemma TotalOfThree(a: seq<InitialMemMapEntry>, b: seq<InitialMemMapEntry>, c: seq<InitialMemMapEntry>)
    ensures TotalPages(a + b + c) == TotalPages(a) + TotalPages(b) + TotalPages(c)
  {
    TotalPagesAppend(a + b, c);
    TotalPagesAppend(a, b);
  }

  lemma TotalOfOne(e: InitialMemMapEntry)
    ensures TotalPages([e]) == e.numPhysicalPages
  {
    assert [e][..0] == [];
  }

  lemma TotalOfPart(e: InitialMemMapEntry, address: nat, pages: nat)
    requires pages <= e.numPhysicalPages
    ensures TotalPages(CarveOne(e, address, pages)) == e.numPhysicalPages
  {
    var part := CarveOne(e, address, pages);
    if |part| == 1 {
      TotalOfOne(part[0]);
    } else {
      assert part == [part[0]] + [part[1]];
      TotalPagesAppend([part[0]], [part[1]]);
      TotalOfOne(part[0]);
      TotalOfOne(part[1]);
    }
  }

  /** Of type and flags the carved map says what the iteration said, split or not. */
  lemma CarvedPhysicalRanges(es: seq<InitialMemMapEntry>, k: nat, m: seq<InitialMemMapEntry>)
    requires IsCarved(es, k, m)
    ensures HasRest(es, k) ==> PhysicalRanges(m) == SplitAt(PhysicalRanges(es), k, MapEnd(es, k))
    ensures !HasRest(es, k) ==> PhysicalRanges(m) == PhysicalRanges(es)
  {
    CarvedEntries(es, k, m);
    if HasRest(es, k) {
      var rs := PhysicalRanges(es);
      var qs := SplitAt(rs, k, MapEnd(es, k));
      forall i | 0 <= i < |m|
        ensures PhysicalRanges(m)[i] == qs[i]
      {
        assert PhysicalRanges(m)[i] == m[i].AsPhysicalRange();
        if i >= k + 2 { assert qs[i] == rs[i - 1]; }
      }
    }
  }

  lemma PhysicalAscending(es: seq<InitialMemMapEntry>)
    requires Ascending(Ranges(es))
    ensures Ascending(PhysicalRanges(es))
  {
    var rs, qs := Ranges(es), PhysicalRanges(es);
    forall i | 0 <= i < |qs|
      ensures qs[i].start == rs[i].start && qs[i].end == rs[i].end
    {
    }
  }

  /** Carving keeps the map ascending and keeps the type and flags of every address; so merging the
      carved map on type and flags undoes the split. */
  lemma CarvingHeals(ds: seq<MemoryDescriptor>, es: seq<InitialMemMapEntry>, k: nat, m: seq<InitialMemMapEntry>)
    requires IsIteration(ds, es) && IsCarved(es, k, m)
    ensures Ascending(PhysicalRanges(m))
    ensures SameCover(PhysicalRanges(m), PhysicalRanges(es))
    ensures Coalesce(PhysicalRanges(m)) == Coalesce(PhysicalRanges(es))
  {
    hide CarveOne, At;
    PhysicalAscending(es);
    MapFits(es, k, m);
    CarvedPhysicalRanges(es, k, m);
    if HasRest(es, k) {
      assert PhysicalRanges(es)[k] == es[k].AsPhysicalRange();
      SplitAscending(PhysicalRanges(es), k, MapEnd(es, k));
      SplitCover(PhysicalRanges(es), k, MapEnd(es, k));
    }
    CoalesceSame(PhysicalRanges(m), PhysicalRanges(es));
  }

  /** Outside the map's own pages, the carved map keeps every attribute that the firmware's map gives;
      on those pages it says usable memory, in use as the map. */
  lemma CarvedAttributes(ds: seq<MemoryDescriptor>, es: seq<InitialMemMapEntry>, k: nat, m: seq<InitialMemMapEntry>,
                         a: nat, attributes: Attributes)
    requires IsIteration(ds, es) && IsCarved(es, k, m)
    ensures At(Ranges(m), a, attributes) <==>
            if es[k].physicalAddress <= a < MapEnd(es, k)
            then attributes == es[k].attributes.(usage := InitialMemMapUsage)
            else At(DescriptorRanges(ds), a, attributes)
  {
    assert At(Ranges(es), a, attributes) <==> At(DescriptorRanges(ds), a, attributes);
    MapFits(es, k, m);
    CarvedAt(es, k, m, a, attributes);
  }

  lemma CarvedAt(es: seq<InitialMemMapEntry>, k: nat, m: seq<InitialMemMapEntry>, a: nat, attributes: Attributes)
    requires Ascending(Ranges(es)) && IsCarved(es, k, m)
    ensures At(Ranges(m), a, attributes) <==>
            if es[k].physicalAddress <= a < MapEnd(es, k)
            then attributes == es[k].attributes.(usage := InitialMemMapUsage)
            else At(Ranges(es), a, attributes)
  {
    assert k < |es| && k < |m|;
    hide IsCarved, Ascending, CarveOne;
    if At(Ranges(m), a, attributes) {
      var i := EntryAt(m, a, attributes);
      FromCarved(es, k, m, i, a);
      if i != k {
        EntryMeans(es, Origin(es, k, i), a);
      }
    }
    if es[k].physicalAddress <= a < MapEnd(es, k) {
      CarvedEntries(es, k, m);
      EntryMeans(m, k, a);
    } else if At(Ranges(es), a, attributes) {
      var j := EntryAt(es, a, attributes);
      var i := ToCarved(es, k, m, j, a);
      EntryMeans(m, i, a);
    }
  }

  lemma EntryAt(es: seq<InitialMemMapEntry>, a: nat, attributes: Attributes) returns (i: nat)
    requires At(Ranges(es), a, attributes)
    ensures i < |es| && es[i].AsRange().Has(a) && es[i].attributes == attributes
  {
    i :| 0 <= i < |es| && Ranges(es)[i].Has(a) && Ranges(es)[i].kind == attributes;
  }

  lemma EntryMeans(es: seq<InitialMemMapEntry>, i: nat, a: nat)
    requires i < |es| && es[i].AsRange().Has(a)
    ensures At(Ranges(es), a, es[i].attributes)
  {
    assert Ranges(es)[i] == es[i].AsRange();
  }

  /** The emitted region that entry `i` of the carved map describes. */
  function Origin(es: seq<InitialMemMapEntry>, k: nat, i: nat): nat
    requires k < |es|
  {
    if i <= k || !HasRest(es, k) then i else i - 1
  }

  /** An address of a carved entry lies in the region it came from, and in the map's own pages
      exactly when the entry is the map's. */
  lemma FromCarved(es: seq<InitialMemMapEntry>, k: nat, m: seq<InitialMemMapEntry>, i: nat, a: nat)
    requires Ascending(Ranges(es)) && IsCarved(es, k, m) && i < |m| && m[i].AsRange().Has(a)
    ensures var j := Origin(es, k, i);
            && j < |es| && es[j].AsRange().Has(a)
            && (i != k ==> es[j].attributes == m[i].attributes)
            && (i == k <==> es[k].physicalAddress <= a < MapEnd(es, k))
  {
    assert k < |es|;
    hide IsCarved, Ascending;
    CarvedEntries(es, k, m);
    MapFits(es, k, m);
    var j := Origin(es, k, i);
    if es[k].physicalAddress <= a < MapEnd(es, k) {
      OnlyIn(es, k, a);
    }
  }

  /** An address outside the map's own pages is described by an entry with the attributes it had. */
  lemma ToCarved(es: seq<InitialMemMapEntry>, k: nat, m: seq<InitialMemMapEntry>, j: nat, a: nat) returns (i: nat)
    requires IsCarved(es, k, m) && j < |es| && es[j].AsRange().Has(a)
    requires !(es[k].physicalAddress <= a < MapEnd(es, k))
    ensures i < |m| && m[i].AsRange().Has(a) && m[i].attributes == es[j].attributes
  {
    assert k < |es|;
    hide IsCarved;
    CarvedEntries(es, k, m);
    MapFits(es, k, m);
    i := if j < k || !HasRest(es, k) then j else j + 1;
  }

  lemma OnlyIn(es: seq<InitialMemMapEntry>, k: nat, a: nat)
    requires Ascending(Ranges(es)) && k < |es| && es[k].AsRange().Has(a)
    ensures forall i | 0 <= i < |es| && es[i].AsRange().Has(a) :: i == k
  {
    forall i | 0 <= i < |es| && es[i].AsRange().Has(a)
      ensures i == k
    {
      assert Ranges(es)[i] == es[i].AsRange() && Ranges(es)[k] == es[k].AsRange();
    }
  }
}
