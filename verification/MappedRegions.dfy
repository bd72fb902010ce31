/** Which regions of memory the early page maps cover, and in which order the sizing pass meets them. */
module MappedRegions {
  import opened Wrappers
  import opened MemoryUnits
  import opened Paging
  import opened UefiMemoryMap

  /** The page map that the kernel starts with, or the one used only to switch to 5-level paging. */
  datatype MapKind = Initial | Transitional

  predicate ShouldInclude(kind: MapKind, d: MemoryDescriptor) {
    match d.memoryType
    case EfiLoaderCode | EfiLoaderData | EfiRuntimeServicesCode | EfiRuntimeServicesData
       | EfiBootServicesCode | EfiBootServicesData => true
    case EfiConventionalMemory => kind == Initial || d.attribute & EFI_MEMORY_RUNTIME == EFI_MEMORY_RUNTIME
    case _ => d.attribute & EFI_MEMORY_RUNTIME == EFI_MEMORY_RUNTIME
  }

  function RegionOf(d: MemoryDescriptor): Region { Region(d.physicalStart, d.End()) }

  /** The regions of the included descriptors, in the firmware's order. */
  function DescriptorRegions(kind: MapKind, ds: seq<MemoryDescriptor>): seq<Region> {
    if ds == [] then []
    else
      var n := |ds| - 1;
      DescriptorRegions(kind, ds[..n]) + (if ShouldInclude(kind, ds[n]) then [RegionOf(ds[n])] else [])
  }

  /** Everything a page map covers: the included descriptors, then the framebuffer if there is one. */
  function Regions(kind: MapKind, ds: seq<MemoryDescriptor>, framebuffer: Option<Region>): seq<Region> {
    Together(DescriptorRegions(kind, ds), framebuffer)
  }

  function Together(rs: seq<Region>, framebuffer: Option<Region>): seq<Region> {
    rs + (if framebuffer.Some? then [framebuffer.value] else [])
  }

  /** The pages that the regions touch. */
  ghost function PagesOfRegions(rs: seq<Region>): set<nat> {
    if rs == [] then {}
    else PagesOfRegions(rs[..|rs| - 1]) + PagesOf(rs[|rs| - 1].base, rs[|rs| - 1].last)
  }

  ghost predicate AllWithin(rs: seq<Region>, limit: nat) {
    forall i | 0 <= i < |rs| :: rs[i].last <= limit
  }

  ghost predicate NonEmpty(rs: seq<Region>) {
    forall i | 0 <= i < |rs| :: rs[i].base < rs[i].last
  }

  ghost predicate Apart(a: Region, b: Region) { a.last <= b.base || b.last <= a.base }

  ghost predicate Disjoint(rs: seq<Region>) {
    forall i, j | 0 <= i < j < |rs| :: Apart(rs[i], rs[j])
  }

  // ----- Finding the next region -----

  /** The first of the lowest regions that begin at or above an address. */
  function LowestFrom(rs: seq<Region>, min: nat): Option<Region> {
    if rs == [] then None
    else
      var best := LowestFrom(rs[..|rs| - 1], min);
      var r := rs[|rs| - 1];
      if r.base >= min && (best.None? || r.base < best.value.base) then Some(r) else best
  }

  /** The region the scan takes next: the framebuffer wins over the lowest descriptor when it begins
      below that descriptor's end. */
  function NextRegion(rs: seq<Region>, framebuffer: Option<Region>, min: nat): Option<Region> {
    var best := LowestFrom(rs, min);
    if framebuffer.Some? && framebuffer.value.base >= min &&
       (best.None? || framebuffer.value.base < best.value.last)
    then framebuffer
    else best
  }

  /** `found` is a region that begins at or above `min`, and no other such region begins lower. */
  ghost predicate IsLowest(rs: seq<Region>, min: nat, found: Option<Region>) {
    match found
    case None => forall r | r in rs :: r.base < min
    case Some(b) => b in rs && b.base >= min && forall r | r in rs && r.base >= min :: b.base <= r.base
  }

  lemma {:induction false} LowestFromIsLowest(rs: seq<Region>, min: nat)
    ensures IsLowest(rs, min, LowestFrom(rs, min))
  {
    if rs != [] {
      LowestFromIsLowest(rs[..|rs| - 1], min);
      assert rs == rs[..|rs| - 1] + [rs[|rs| - 1]];
    }
  }

  /** The framebuffer begins inside the lowest included descriptor at or above `min`. */
  predicate FramebufferInside(rs: seq<Region>, framebuffer: Option<Region>, min: nat) {
    var best := LowestFrom(rs, min);
    framebuffer.Some? && best.Some? && best.value.base < framebuffer.value.base < best.value.last
  }

  /** The scan takes the lowest remaining region exactly when the framebuffer does not begin inside
      the lowest remaining descriptor. */
  lemma NextRegionIsLowestIff(rs: seq<Region>, framebuffer: Option<Region>, min: nat)
    requires forall r | r in rs :: r.base <= r.last
    ensures IsLowest(Together(rs, framebuffer), min, NextRegion(rs, framebuffer, min))
            <==> !FramebufferInside(rs, framebuffer, min)
  {
    LowestFromIsLowest(rs, min);
    var all := Together(rs, framebuffer);
    assert forall r :: r in all <==> r in rs || (framebuffer.Some? && r == framebuffer.value);
  }

  /** A framebuffer in the middle of a loader region makes the scan skip that region's beginning. */
  lemma OverlapExample()
    ensures var rs := [Region(0x1000, 0x9000)];
            var framebuffer := Some(Region(0x4000, 0x5000));
            NextRegion(rs, framebuffer, 0) == framebuffer &&
            !IsLowest(rs + [framebuffer.value], 0, NextRegion(rs, framebuffer, 0))
  {
    var rs := [Region(0x1000, 0x9000)];
    assert rs[..0] == [];
    assert LowestFrom(rs, 0) == Some(rs[0]);
    NextRegionIsLowestIff(rs, Some(Region(0x4000, 0x5000)), 0);
  }

  lemma DisjointNextIsLowest(rs: seq<Region>, framebuffer: Option<Region>, min: nat)
    requires var all := Together(rs, framebuffer);
             Disjoint(all) && NonEmpty(all)
    ensures IsLowest(Together(rs, framebuffer), min, NextRegion(rs, framebuffer, min))
  {
    var all := Together(rs, framebuffer);
    LowestFromIsLowest(rs, min);
    forall r | r in rs
      ensures r.base <= r.last
    {
      var i :| 0 <= i < |rs| && rs[i] == r;
      assert all[i] == r;
    }
    NextRegionIsLowestIff(rs, framebuffer, min);
    if framebuffer.Some? && LowestFrom(rs, min).Some? {
      var best := LowestFrom(rs, min).value;
      var i :| 0 <= i < |rs| && rs[i] == best;
      assert all[i] == best && all[|rs|] == framebuffer.value;
      assert Apart(all[i], all[|rs|]);
    }
  }

  // ----- Regions of no bytes -----

  /** The scan comes to its end: the framebuffer is not empty, and every empty descriptor hides behind an
      earlier one with the same base. */
  ghost predicate ScanEnds(rs: seq<Region>, framebuffer: Option<Region>) {
    && (framebuffer.Some? ==> framebuffer.value.base < framebuffer.value.last)
    && EmptyHidden(rs)
  }

  ghost predicate EmptyHidden(rs: seq<Region>) {
    forall i | 0 <= i < |rs| && rs[i].base >= rs[i].last :: exists j :: 0 <= j < i && rs[j].base == rs[i].base
  }

  /** The first descriptor at the address where the search begins is what the search finds. */
  lemma {:induction false} FirstAtBase(rs: seq<Region>, i: nat)
    requires i < |rs| && forall j | 0 <= j < i :: rs[j].base != rs[i].base
    ensures LowestFrom(rs, rs[i].base) == Some(rs[i])
    decreases |rs|
  {
    var n := |rs| - 1;
    LowestFromIsLowest(rs[..n], rs[i].base);
    if i < n {
      FirstAtBase(rs[..n], i);
    } else if LowestFrom(rs[..n], rs[i].base).Some? {
      var r := LowestFrom(rs[..n], rs[i].base).value;
      var j :| 0 <= j < n && rs[..n][j] == r;
      assert rs[j].base != rs[i].base;
    }
  }

  /** An empty descriptor that is the first at its base is found again from its own end. */
  lemma EmptyIsFoundAgain(rs: seq<Region>, framebuffer: Option<Region>, i: nat)
    requires i < |rs| && rs[i].base == rs[i].last && forall j | 0 <= j < i :: rs[j].base != rs[i].base
    ensures NextRegion(rs, framebuffer, rs[i].last) == Some(rs[i])
  {
    FirstAtBase(rs, i);
  }

  /** A step of the scan moves on if and only if the region taken is not empty or begins further up. */
  lemma StepMovesOnIff(rs: seq<Region>, framebuffer: Option<Region>, high: nat)
    requires NextRegion(rs, framebuffer, high).Some?
    requires var next := NextRegion(rs, framebuffer, high).value; next.base <= next.last
    ensures
      var next := NextRegion(rs, framebuffer, high).value;
      next.last > high <==> next.base < next.last || next.base > high
  {
    LowestFromIsLowest(rs, high);
  }

  /** Where the scan is after `n` steps, if it has not ended. */
  function HighAfter(rs: seq<Region>, framebuffer: Option<Region>, n: nat): Option<nat> {
    if n == 0 then Some(0)
    else
      match HighAfter(rs, framebuffer, n - 1)
      case None => None
      case Some(high) =>
        match NextRegion(rs, framebuffer, high)
        case None => None
        case Some(next) => Some(next.last)
  }

  /** Otherwise it never ends: for regions that do not overlap, the scan does not get past an empty
      framebuffer, or past an empty descriptor that is the first at its base. */
  lemma {:induction false} ScanNeverEnds(rs: seq<Region>, framebuffer: Option<Region>, n: nat)
    requires var all := Together(rs, framebuffer);
             Disjoint(all) && forall r | r in all :: r.base <= r.last
    requires !ScanEnds(rs, framebuffer)
    ensures HighAfter(rs, framebuffer, n).Some?
  {
    if framebuffer.Some? && framebuffer.value.base >= framebuffer.value.last {
      assert framebuffer.value in rs + [framebuffer.value];
      StuckAtFramebuffer(rs, framebuffer.value, n);
    } else {
      var i :| 0 <= i < |rs| && rs[i].base >= rs[i].last && forall j | 0 <= j < i :: rs[j].base != rs[i].base;
      StuckAtDescriptor(rs, framebuffer, i, n);
    }
  }

  lemma {:induction false} StuckAtFramebuffer(rs: seq<Region>, f: Region, n: nat)
    requires f.base == f.last
    ensures HighAfter(rs, Some(f), n).Some? && HighAfter(rs, Some(f), n).value <= f.base
  {
    if n > 0 { StuckAtFramebuffer(rs, f, n - 1); }
  }

  lemma {:induction false} StuckAtDescriptor(rs: seq<Region>, framebuffer: Option<Region>, i: nat, n: nat)
    requires var all := Together(rs, framebuffer);
             Disjoint(all) && forall r | r in all :: r.base <= r.last
    requires i < |rs| && rs[i].base >= rs[i].last && forall j | 0 <= j < i :: rs[j].base != rs[i].base
    ensures HighAfter(rs, framebuffer, n).Some? && HighAfter(rs, framebuffer, n).value <= rs[i].base
  {
    if n > 0 {
      StuckAtDescriptor(rs, framebuffer, i, n - 1);
      StuckStep(rs, framebuffer, i, HighAfter(rs, framebuffer, n - 1).value);
    }
  }

  lemma StuckStep(rs: seq<Region>, framebuffer: Option<Region>, i: nat, high: nat)
    requires var all := Together(rs, framebuffer);
             Disjoint(all) && forall r | r in all :: r.base <= r.last
    requires i < |rs| && rs[i].base >= rs[i].last && forall j | 0 <= j < i :: rs[j].base != rs[i].base
    requires high <= rs[i].base
    ensures NextRegion(rs, framebuffer, high).Some? && NextRegion(rs, framebuffer, high).value.last <= rs[i].base
  {
    var all := Together(rs, framebuffer);
    assert rs[i] == all[i] && all[i] in all;
    LowestFromIsLowest(rs, high);
    assert rs[i] in rs;
    var best := LowestFrom(rs, high).value;
    var k :| 0 <= k < |rs| && rs[k] == best;
    assert all[k] == best && all[k] in all;
    if k != i { assert Apart(all[if k < i then k else i], all[if k < i then i else k]); }
    if best.base == rs[i].base { LowestTie(rs, high, i); }
    if framebuffer.Some? {
      assert all[|rs|] == framebuffer.value && all[|rs|] in all && Apart(all[i], all[|rs|]);
    }
  }

  /** Of several descriptors at the lowest base the search finds the first. */
  lemma {:induction false} LowestTie(rs: seq<Region>, min: nat, i: nat)
    requires i < |rs| && rs[i].base >= min && forall j | 0 <= j < i :: rs[j].base != rs[i].base
    requires LowestFrom(rs, min).Some? && LowestFrom(rs, min).value.base == rs[i].base
    ensures LowestFrom(rs, min) == Some(rs[i])
    decreases |rs|
  {
    var n := |rs| - 1;
    LowestFromIsLowest(rs[..n], min);
    if i < n {
      assert rs[..n][i] in rs[..n];
      LowestFromIsLowest(rs, min);
      LowestTie(rs[..n], min, i);
    } else if LowestFrom(rs[..n], min).Some? {
      var r := LowestFrom(rs[..n], min).value;
      var j :| 0 <= j < n && rs[..n][j] == r;
      assert rs[j].base != rs[i].base;
    }
  }

  // ----- The end of the address space -----

  /** A region as the scan sees it: where it ends is a 64-bit number. */
  function Seen(r: Region): Region { Region(r.base, r.last % ADDRESS_LIMIT) }

  function AllSeen(rs: seq<Region>): seq<Region> { seq(|rs|, i requires 0 <= i < |rs| => Seen(rs[i])) }

  function SeenIfAny(framebuffer: Option<Region>): Option<Region> {
    if framebuffer.Some? then Some(Seen(framebuffer.value)) else None
  }

  /** Regions of the 64-bit address space that do not overlap. They may be empty or reach to its very end. */
  ghost predicate Addressed(all: seq<Region>) {
    && Disjoint(all)
    && forall r | r in all :: r.base <= r.last <= ADDRESS_LIMIT && r.base < ADDRESS_LIMIT
  }

  ghost predicate EndsBelowLimit(all: seq<Region>) {
    forall r | r in all :: r.last < ADDRESS_LIMIT
  }

  /** What the scan finds is one of the regions. */
  lemma NextIsSeen(rs: seq<Region>, framebuffer: Option<Region>, high: nat)
    returns (u: Region)
    requires NextRegion(AllSeen(rs), SeenIfAny(framebuffer), high).Some?
    ensures u in Together(rs, framebuffer) && NextRegion(AllSeen(rs), SeenIfAny(framebuffer), high).value == Seen(u)
  {
    LowestFromIsLowest(AllSeen(rs), high);
    if NextRegion(AllSeen(rs), SeenIfAny(framebuffer), high) == LowestFrom(AllSeen(rs), high) {
      var k :| 0 <= k < |rs| && AllSeen(rs)[k] == LowestFrom(AllSeen(rs), high).value;
      u := rs[k];
    } else {
      u := framebuffer.value;
    }
  }

  /** While the scan is not beyond a region, it finds another one. */
  lemma StillSomeNext(rs: seq<Region>, framebuffer: Option<Region>, t: Region, high: nat)
    requires t in Together(rs, framebuffer) && high <= t.base
    ensures NextRegion(AllSeen(rs), SeenIfAny(framebuffer), high).Some?
  {
    LowestFromIsLowest(AllSeen(rs), high);
    if t in rs {
      var k :| 0 <= k < |rs| && rs[k] == t;
      assert AllSeen(rs)[k] in AllSeen(rs) && AllSeen(rs)[k].base == t.base;
    }
  }

  /** The scan does not get past a region that reaches to the very end of the address space: from there it
      starts over at zero. */
  lemma {:induction false} StartsOver(rs: seq<Region>, framebuffer: Option<Region>, t: Region, n: nat)
    requires Addressed(Together(rs, framebuffer)) && t in Together(rs, framebuffer) && t.last == ADDRESS_LIMIT
    ensures HighAfter(AllSeen(rs), SeenIfAny(framebuffer), n).Some?
    ensures HighAfter(AllSeen(rs), SeenIfAny(framebuffer), n).value <= t.base
  {
    hide NextRegion, AllSeen, SeenIfAny, Together;
    if n > 0 {
      StartsOver(rs, framebuffer, t, n - 1);
      var high := HighAfter(AllSeen(rs), SeenIfAny(framebuffer), n - 1).value;
      StillSomeNext(rs, framebuffer, t, high);
      var u := NextIsSeen(rs, framebuffer, high);
      OtherEndsBefore(Together(rs, framebuffer), t, u);
    }
  }

  lemma OtherEndsBefore(all: seq<Region>, t: Region, u: Region)
    requires Addressed(all) && t in all && u in all && t.last == ADDRESS_LIMIT
    ensures Seen(u).last <= t.base
  {
    if u != t {
      var i :| 0 <= i < |all| && all[i] == t;
      var j :| 0 <= j < |all| && all[j] == u;
      assert if i < j then Apart(t, u) else Apart(u, t);
    }
  }

  lemma SeenAsTheyAre(rs: seq<Region>, framebuffer: Option<Region>)
    requires Addressed(Together(rs, framebuffer)) && EndsBelowLimit(Together(rs, framebuffer))
    ensures AllSeen(rs) == rs && SeenIfAny(framebuffer) == framebuffer
  {
    hide Disjoint;
    var all := Together(rs, framebuffer);
    forall i | 0 <= i < |rs|
      ensures AllSeen(rs)[i] == rs[i]
    {
      assert all[i] == rs[i] && all[i] in all;
    }
    assert framebuffer.Some? ==> framebuffer.value in all;
  }

  /** Otherwise every step takes the scan further up. */
  lemma {:induction false} EveryStepMovesOn(rs: seq<Region>, framebuffer: Option<Region>, n: nat)
    requires ScanEnds(rs, framebuffer) && EndsBelowLimit(Together(rs, framebuffer))
    ensures HighAfter(rs, framebuffer, n).Some? ==> n <= HighAfter(rs, framebuffer, n).value <= ADDRESS_LIMIT
  {
    hide NextRegion, ScanEnds;
    if n > 0 {
      EveryStepMovesOn(rs, framebuffer, n - 1);
      if HighAfter(rs, framebuffer, n).Some? {
        FilledStepMovesOn(rs, framebuffer, HighAfter(rs, framebuffer, n - 1).value);
      }
    }
  }

  lemma StepsToEnd(rs: seq<Region>, framebuffer: Option<Region>) returns (n: nat)
    requires ScanEnds(rs, framebuffer) && EndsBelowLimit(Together(rs, framebuffer))
    ensures HighAfter(rs, framebuffer, n).None?
  {
    hide HighAfter, ScanEnds;
    n := ADDRESS_LIMIT + 1;
    EveryStepMovesOn(rs, framebuffer, n);
  }

  lemma FilledStepMovesOn(rs: seq<Region>, framebuffer: Option<Region>, high: nat)
    requires ScanEnds(rs, framebuffer) && EndsBelowLimit(Together(rs, framebuffer))
    requires NextRegion(rs, framebuffer, high).Some?
    ensures high < NextRegion(rs, framebuffer, high).value.last < ADDRESS_LIMIT
  {
    hide LowestFrom, Filled;
    FilledScan(rs, framebuffer, high);
    FilledPages(rs);
    LowestFromIsLowest(Filled(rs), high);
    assert forall r | r in rs :: r in Together(rs, framebuffer);
    assert framebuffer.Some? ==> framebuffer.value in Together(rs, framebuffer);
    assert NextRegion(Filled(rs), framebuffer, high) in {framebuffer, LowestFrom(Filled(rs), high)};
  }

  /** For regions that do not overlap, the scan comes to its end if and only if none of them reaches to the
      very end of the address space, the framebuffer is not empty, and every empty descriptor hides behind an
      earlier one with the same base. */
  lemma ScanEndsIff(rs: seq<Region>, framebuffer: Option<Region>)
    requires Addressed(Together(rs, framebuffer))
    ensures (exists n: nat :: HighAfter(AllSeen(rs), SeenIfAny(framebuffer), n).None?)
            <==> EndsBelowLimit(Together(rs, framebuffer)) && ScanEnds(rs, framebuffer)
  {
    hide HighAfter, ScanEnds, AllSeen, SeenIfAny, Together;
    var all := Together(rs, framebuffer);
    if !EndsBelowLimit(all) {
      var t :| t in all && t.last >= ADDRESS_LIMIT;
      forall n: nat ensures HighAfter(AllSeen(rs), SeenIfAny(framebuffer), n).Some? {
        StartsOver(rs, framebuffer, t, n);
      }
    } else {
      SeenAsTheyAre(rs, framebuffer);
      if ScanEnds(rs, framebuffer) {
        var n := StepsToEnd(rs, framebuffer);
        assert HighAfter(AllSeen(rs), SeenIfAny(framebuffer), n).None?;
      } else {
        forall n: nat ensures HighAfter(AllSeen(rs), SeenIfAny(framebuffer), n).Some? {
          ScanNeverEnds(rs, framebuffer, n);
        }
      }
    }
  }

  /** The regions that are not empty. */
  function Filled(rs: seq<Region>): seq<Region> {
    if rs == [] then []
    else
      var r := rs[|rs| - 1];
      Filled(rs[..|rs| - 1]) + (if r.base < r.last then [r] else [])
  }

  /** A descriptor whose base an earlier one has is never what the search finds. */
  lemma HiddenIsIgnored(rs: seq<Region>, r: Region, min: nat, j: nat)
    requires j < |rs| && rs[j].base == r.base
    ensures LowestFrom(rs + [r], min) == LowestFrom(rs, min)
  {
    LowestFromIsLowest(rs, min);
    assert (rs + [r])[..|rs|] == rs && rs[j] in rs;
  }

  lemma LowestInNone(min: nat)
    ensures LowestFrom([], min) == None
  {
  }

  lemma LowestAppend(rs: seq<Region>, r: Region, min: nat)
    ensures var best := LowestFrom(rs, min);
            LowestFrom(rs + [r], min) == if r.base >= min && (best.None? || r.base < best.value.base) then Some(r) else best
  {
    assert (rs + [r])[..|rs|] == rs;
  }

  /** When empty descriptors hide behind others, the search finds what it would find without them. */
  lemma {:induction false} LowestFilled(rs: seq<Region>, min: nat)
    requires EmptyHidden(rs)
    ensures LowestFrom(Filled(rs), min) == LowestFrom(rs, min)
  {
    hide LowestFrom;
    if rs != [] {
      var n := |rs| - 1;
      var r, init := rs[n], Filled(rs[..n]);
      LowestFilled(rs[..n], min);
      assert rs == rs[..n] + [r];
      if r.base < r.last {
        LowestAppend(init, r, min);
        LowestAppend(rs[..n], r, min);
      } else {
        var j: nat :| j < n && rs[j].base == r.base;
        HiddenIsIgnored(rs[..n], r, min, j);
        assert init + [] == init;
      }
    }
  }

  lemma {:induction false} FilledPages(rs: seq<Region>)
    ensures NonEmpty(Filled(rs)) && PagesOfRegions(Filled(rs)) == PagesOfRegions(rs)
    ensures forall r | r in Filled(rs) :: r in rs
  {
    if rs != [] {
      var r, init := rs[|rs| - 1], Filled(rs[..|rs| - 1]);
      FilledPages(rs[..|rs| - 1]);
      assert (init + [r])[..|init|] == init && init + [] == init;
    }
  }

  lemma {:induction false} FilledDisjoint(rs: seq<Region>)
    requires Disjoint(rs)
    ensures Disjoint(Filled(rs))
  {
    if rs != [] {
      var n := |rs| - 1;
      var init := Filled(rs[..n]);
      FilledDisjoint(rs[..n]);
      FilledPages(rs[..n]);
      forall k | 0 <= k < |init| ensures Apart(init[k], rs[n]) {
        assert init[k] in init;
        var j :| 0 <= j < n && rs[..n][j] == init[k];
        assert Apart(rs[j], rs[n]);
      }
    }
  }

  /** Leaving the empty regions out changes neither what the scan finds nor what is covered. */
  lemma FilledScan(rs: seq<Region>, framebuffer: Option<Region>, min: nat)
    requires ScanEnds(rs, framebuffer)
    ensures NextRegion(Filled(rs), framebuffer, min) == NextRegion(rs, framebuffer, min)
    ensures var f := if framebuffer.Some? then [framebuffer.value] else []; Filled(rs + f) == Filled(rs) + f
  {
    LowestFilled(rs, min);
    if framebuffer.Some? {
      assert (rs + [framebuffer.value])[..|rs|] == rs;
    } else {
      assert rs + [] == rs;
    }
  }

  // ----- What the scan has dealt with -----

  /** The pages of the regions that end at or below `high`. */
  ghost function PagesBelow(rs: seq<Region>, high: nat): set<nat> {
    if rs == [] then {}
    else
      var r := rs[|rs| - 1];
      PagesBelow(rs[..|rs| - 1], high) + (if r.last <= high then PagesOf(r.base, r.last) else {})
  }

  /** The scan has dealt with all of a region or with none of it. */
  ghost predicate Split(rs: seq<Region>, high: nat) {
    forall r | r in rs :: r.last <= high || high <= r.base
  }

  lemma {:induction false} PagesBelowAll(rs: seq<Region>, high: nat)
    requires forall r | r in rs :: r.last <= high
    ensures PagesBelow(rs, high) == PagesOfRegions(rs)
  {
    if rs != [] {
      PagesBelowAll(rs[..|rs| - 1], high);
    }
  }

  lemma {:induction false} PagesBelowNone(rs: seq<Region>)
    requires NonEmpty(rs)
    ensures PagesBelow(rs, 0) == {}
  {
    if rs != [] {
      PagesBelowNone(rs[..|rs| - 1]);
    }
  }

  /** Going on from `high` to the end of region `k`, when every other region lies below `high`
      or above that end, adds the pages of that region. */
  lemma {:induction false} PagesBelowNext(rs: seq<Region>, high: nat, k: nat)
    requires k < |rs| && NonEmpty(rs) && high <= rs[k].base
    requires forall i | 0 <= i < |rs| && i != k :: rs[i].last <= high || rs[k].last <= rs[i].base
    ensures PagesBelow(rs, rs[k].last) == PagesBelow(rs, high) + PagesOf(rs[k].base, rs[k].last)
  {
    var n := |rs| - 1;
    if k < n {
      PagesBelowNext(rs[..n], high, k);
    } else {
      PagesBelowSame(rs[..n], high, rs[n].last);
    }
  }

  lemma {:induction false} PagesBelowSame(rs: seq<Region>, low: nat, high: nat)
    requires low <= high && NonEmpty(rs)
    requires forall i | 0 <= i < |rs| :: rs[i].last <= low || high <= rs[i].base
    ensures PagesBelow(rs, high) == PagesBelow(rs, low)
  {
    if rs != [] {
      PagesBelowSame(rs[..|rs| - 1], low, high);
    }
  }

  /** The lowest region at or above `high` ends before the next one begins. */
  lemma ScanStep(rs: seq<Region>, high: nat, next: Region)
    requires Disjoint(rs) && NonEmpty(rs) && Split(rs, high)
    requires IsLowest(rs, high, Some(next))
    ensures high < next.last && Split(rs, next.last)
    ensures PagesBelow(rs, next.last) == PagesBelow(rs, high) + PagesOf(next.base, next.last)
  {
    var k :| 0 <= k < |rs| && rs[k] == next;
    forall i | 0 <= i < |rs| && i != k
      ensures rs[i].last <= high || rs[k].last <= rs[i].base
    {
      assert rs[i] in rs;
      assert if i < k then Apart(rs[i], rs[k]) else Apart(rs[k], rs[i]);
    }
    PagesBelowNext(rs, high, k);
  }
}
