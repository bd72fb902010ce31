/** The bytes that summarise how much of a block is available, as a function of which pages are. */
module TreeSummary {
  import opened Intervals
  import opened TreeGeometry

  const PAGE_AVAILABLE: nat := 128
  const PAGE_UNAVAILABLE: nat := 0

  /** The byte of a block from the bytes of its two halves: half of each, with the lowest bit set if
      it is set in either. */
  function Combine(state0: nat, state1: nat): nat {
    var sum := state0 / 2 + state1 / 2;
    if (state0 % 2 != 0 || state1 % 2 != 0) && sum % 2 == 0 then sum + 1 else sum
  }

  lemma CombineBounds(v0: nat, v1: nat)
    requires v0 <= 128 && v1 <= 128
    ensures Combine(v0, v1) <= 128
    ensures Combine(v0, v1) != 0 <==> v0 != 0 || v1 != 0
    ensures Combine(v0, v1) == 128 <==> v0 == 128 && v1 == 128
    ensures -2 <= 2 * Combine(v0, v1) - v0 - v1 <= 2
  {
  }

  lemma CombineEven(x0: nat, x1: nat)
    ensures Combine(2 * x0, 2 * x1) == x0 + x1
  {
  }

  /** The byte of block `g` at height `h`. */
  ghost function Summary(available: iset<nat>, h: nat, g: nat): (r: nat)
    ensures r <= 128
    decreases h
  {
    if h == 0 then if g in available then PAGE_AVAILABLE else PAGE_UNAVAILABLE
    else Combine(Summary(available, h - 1, 2 * g), Summary(available, h - 1, 2 * g + 1))
  }

  /** The number of available pages in block `g` at height `h`. */
  ghost function Count(available: iset<nat>, h: nat, g: nat): (r: nat)
    decreases h
  {
    if h == 0 then if g in available then 1 else 0
    else Count(available, h - 1, 2 * g) + Count(available, h - 1, 2 * g + 1)
  }

  /** Page `p` lies in block `g` at height `h`. */
  predicate InBlock(p: nat, h: nat, g: nat)
    decreases h
  {
    if h == 0 then p == g else InBlock(p, h - 1, 2 * g) || InBlock(p, h - 1, 2 * g + 1)
  }

  lemma {:induction false} InBlockMeans(p: nat, h: nat, g: nat)
    ensures InBlock(p, h, g) <==> g * Power2(h) <= p < (g + 1) * Power2(h)
  {
    if h > 0 {
      hide Power2;
      InBlockMeans(p, h - 1, 2 * g);
      InBlockMeans(p, h - 1, 2 * g + 1);
      Power2Step(h - 1);
      Halves(p, g, Power2(h - 1));
    }
  }

  /** Page `p` is one of the pages that block `g` at height `h` spans. */
  predicate Spans(h: nat, g: nat, p: nat) {
    g * Power2(h) <= p < (g + 1) * Power2(h)
  }

  /** The available pages of a block's full span. */
  ghost function AvailablePages(available: iset<nat>, h: nat, g: nat): set<nat> {
    set p | p in Interval(g * Power2(h), (g + 1) * Power2(h)) && p in available
  }

  lemma AvailablePagesMeans(available: iset<nat>, h: nat, g: nat, p: nat)
    ensures p in AvailablePages(available, h, g) <==> InBlock(p, h, g) && p in available
  {
    hide InBlock;
    InBlockMeans(p, h, g);
  }

  lemma HalvesApart(p: nat, h: nat, g: nat)
    ensures !(InBlock(p, h, 2 * g) && InBlock(p, h, 2 * g + 1))
  {
    hide InBlock, Power2;
    InBlockMeans(p, h, 2 * g);
    InBlockMeans(p, h, 2 * g + 1);
  }

  lemma AvailableHalves(available: iset<nat>, h: nat, g: nat, p: nat)
    requires h > 0
    ensures p in AvailablePages(available, h, g) <==>
              p in AvailablePages(available, h - 1, 2 * g) || p in AvailablePages(available, h - 1, 2 * g + 1)
    ensures !(p in AvailablePages(available, h - 1, 2 * g) && p in AvailablePages(available, h - 1, 2 * g + 1))
  {
    hide AvailablePages;
    AvailablePagesMeans(available, h, g, p);
    AvailablePagesMeans(available, h - 1, 2 * g, p);
    AvailablePagesMeans(available, h - 1, 2 * g + 1, p);
    HalvesApart(p, h - 1, g);
  }

  lemma JoinedCount(all: set<nat>, low: set<nat>, high: set<nat>)
    requires forall p: nat :: (p in all <==> p in low || p in high) && !(p in low && p in high)
    ensures |all| == |low| + |high|
  {
    assert all == low + high && low * high == {};
  }

  /** The recursive count is the number of available pages of the span. */
  lemma {:induction false} CountMeans(available: iset<nat>, h: nat, g: nat)
    ensures Count(available, h, g) == |AvailablePages(available, h, g)|
  {
    hide AvailablePages, InBlock, Power2;
    if h == 0 {
      OnePage(available, g);
    } else {
      CountMeans(available, h - 1, 2 * g);
      CountMeans(available, h - 1, 2 * g + 1);
      var all, low, high :=
        AvailablePages(available, h, g), AvailablePages(available, h - 1, 2 * g), AvailablePages(available, h - 1, 2 * g + 1);
      forall p: nat ensures (p in all <==> p in low || p in high) && !(p in low && p in high) {
        AvailableHalves(available, h, g, p);
      }
      JoinedCount(all, low, high);
    }
  }

  lemma OnePage(available: iset<nat>, g: nat)
    ensures |AvailablePages(available, 0, g)| == if g in available then 1 else 0
  {
    var all := AvailablePages(available, 0, g);
    forall p: nat ensures p in all <==> p == g && g in available { AvailablePagesMeans(available, 0, g, p); }
    hide AvailablePages;
    assert all == if g in available then {g} else {};
  }

  lemma Halves(p: nat, g: nat, b: nat)
    ensures g * (2 * b) <= p < (g + 1) * (2 * b)
            <==> (2 * g) * b <= p < (2 * g + 1) * b || (2 * g + 1) * b <= p < (2 * g + 1 + 1) * b
  {
    TimesDouble(g, b);
    TimesDouble(g + 1, b);
    assert (2 * g + 1) * b == (2 * g) * b + b;
    assert (2 * g + 1 + 1) * b == (2 * (g + 1)) * b;
  }

  lemma TimesDouble(x: nat, b: nat)
    ensures x * (2 * b) == (2 * x) * b == 2 * (x * b)
  {
  }

  ghost predicate SomeAvailable(available: iset<nat>, h: nat, g: nat) {
    exists p: nat :: InBlock(p, h, g) && p in available
  }

  ghost predicate AllAvailable(available: iset<nat>, h: nat, g: nat) {
    forall p: nat | InBlock(p, h, g) :: p in available
  }

  /** A block's byte is non-zero exactly when one of its pages is available. */
  lemma {:induction false} SummaryNonZero(available: iset<nat>, h: nat, g: nat)
    ensures Summary(available, h, g) != 0 <==> SomeAvailable(available, h, g)
  {
    if h == 0 {
      assert InBlock(g, 0, g);
    } else {
      hide Combine;
      SummaryNonZero(available, h - 1, 2 * g);
      SummaryNonZero(available, h - 1, 2 * g + 1);
      CombineBounds(Summary(available, h - 1, 2 * g), Summary(available, h - 1, 2 * g + 1));
      if SomeAvailable(available, h - 1, 2 * g) {
        var p :| InBlock(p, h - 1, 2 * g) && p in available;
        assert InBlock(p, h, g);
      }
      if SomeAvailable(available, h - 1, 2 * g + 1) {
        var p :| InBlock(p, h - 1, 2 * g + 1) && p in available;
        assert InBlock(p, h, g);
      }
    }
  }

  /** A block's byte says fully available exactly when all its pages are. */
  lemma {:induction false} SummaryFull(available: iset<nat>, h: nat, g: nat)
    ensures Summary(available, h, g) == 128 <==> AllAvailable(available, h, g)
  {
    if h == 0 {
      assert InBlock(g, 0, g);
    } else {
      hide Combine, AllAvailable;
      CombineBounds(Summary(available, h - 1, 2 * g), Summary(available, h - 1, 2 * g + 1));
      SummaryFull(available, h - 1, 2 * g);
      SummaryFull(available, h - 1, 2 * g + 1);
      HalvesAvailable(available, h, g);
    }
  }

  lemma HalvesAvailable(available: iset<nat>, h: nat, g: nat)
    requires h > 0
    ensures AllAvailable(available, h, g) <==>
            AllAvailable(available, h - 1, 2 * g) && AllAvailable(available, h - 1, 2 * g + 1)
  {
    if AllAvailable(available, h, g) {
      forall p: nat | InBlock(p, h - 1, 2 * g) || InBlock(p, h - 1, 2 * g + 1)
        ensures p in available
      {
        assert InBlock(p, h, g);
      }
    }
  }

  lemma SummaryStep(available: iset<nat>, h: nat, g: nat)
    requires h > 0
    ensures Summary(available, h, g) == Combine(Summary(available, h - 1, 2 * g), Summary(available, h - 1, 2 * g + 1))
    ensures Count(available, h, g) == Count(available, h - 1, 2 * g) + Count(available, h - 1, 2 * g + 1)
    ensures Summary(available, h - 1, 2 * g) <= 128 && Summary(available, h - 1, 2 * g + 1) <= 128
  {
  }

  lemma SummaryOfPage(available: iset<nat>, p: nat)
    ensures Summary(available, 0, p) == (if p in available then PAGE_AVAILABLE else PAGE_UNAVAILABLE)
    ensures Count(available, 0, p) == if p in available then 1 else 0
  {
  }

  /** Up to seven levels above the pages, a block's byte is the exact number of 128ths available. */
  lemma {:induction false} SummaryExact(available: iset<nat>, h: nat, g: nat)
    requires h <= 7
    ensures Exact(Summary(available, h, g), Count(available, h, g), h)
  {
    hide Combine, Power2, Exact, Summary, Count;
    if h > 0 {
      SummaryStep(available, h, g);
      SummaryExact(available, h - 1, 2 * g);
      SummaryExact(available, h - 1, 2 * g + 1);
      var c0, c1 := Count(available, h - 1, 2 * g), Count(available, h - 1, 2 * g + 1);
      ExactStep(Summary(available, h - 1, 2 * g), Summary(available, h - 1, 2 * g + 1), c0, c1, h);
    } else {
      SummaryOfPage(available, g);
      ExactPage(Summary(available, h, g), Count(available, h, g));
    }
  }

  /** A byte is the exact number of 128ths that are available in a block at height `h`. */
  ghost predicate Exact(shown: nat, count: nat, h: nat)
    requires h <= 7
  {
    shown == count * Power2(7 - h)
  }

  lemma ExactPage(shown: nat, count: nat)
    requires (shown == 0 && count == 0) || (shown == 128 && count == 1)
    ensures Exact(shown, count, 0)
  {
    assert Power2(7) == 128;
  }

  lemma Power2Step(h: nat)
    ensures Power2(h + 1) == 2 * Power2(h)
  {
  }

  lemma ExactStep(v0: nat, v1: nat, c0: nat, c1: nat, h: nat)
    requires 0 < h <= 7 && Exact(v0, c0, h - 1) && Exact(v1, c1, h - 1)
    ensures Exact(Combine(v0, v1), c0 + c1, h)
  {
    hide Combine, Power2;
    var b := Power2(7 - h);
    Power2Step(7 - h);
    TimesDouble(c0, b);
    TimesDouble(c1, b);
    CombineEven(c0 * b, c1 * b);
    assert (c0 + c1) * b == c0 * b + c1 * b;
  }

  /** Above that, each level adds at most one 128th of error. */
  lemma {:induction false} SummaryClose(available: iset<nat>, h: nat, g: nat)
    requires h >= 7
    ensures Close(Summary(available, h, g), Count(available, h, g), h)
    decreases h
  {
    hide Combine, Power2, Close, Summary, Count;
    if h == 7 {
      SummaryExact(available, 7, g);
      ExactIsClose(Summary(available, 7, g), Count(available, 7, g));
    } else {
      SummaryStep(available, h, g);
      SummaryClose(available, h - 1, 2 * g);
      SummaryClose(available, h - 1, 2 * g + 1);
      CloseStep(Summary(available, h - 1, 2 * g), Summary(available, h - 1, 2 * g + 1),
                Count(available, h - 1, 2 * g), Count(available, h - 1, 2 * g + 1), h);
    }
  }

  /** A byte is within `h - 7` of the 128ths that are available in a block at height `h`. */
  ghost predicate Close(shown: nat, count: nat, h: nat)
    requires h >= 7
  {
    -((h - 7) * Power2(h)) <= shown * Power2(h) - 128 * count <= (h - 7) * Power2(h)
  }

  lemma ExactIsClose(shown: nat, count: nat)
    requires Exact(shown, count, 7)
    ensures Close(shown, count, 7)
  {
    assert Power2(0) == 1 && Power2(7) == 128;
  }

  lemma CloseStep(v0: nat, v1: nat, c0: nat, c1: nat, h: nat)
    requires h > 7 && v0 <= 128 && v1 <= 128 && Close(v0, c0, h - 1) && Close(v1, c1, h - 1)
    ensures Close(Combine(v0, v1), c0 + c1, h)
  {
    hide Combine;
    var b, v := Power2(h - 1), Combine(v0, v1);
    CombineBounds(v0, v1);
    ScaledError(2 * v - v0 - v1, b);
    SplitError(v, v0, v1, b);
    TimesDouble(v, b);
    TimesDouble(h - 8, b);
    assert (h - 7) * (2 * b) == (h - 8) * (2 * b) + 2 * b;
  }

  lemma SplitError(v: nat, v0: nat, v1: nat, b: nat)
    ensures (2 * v) * b == (2 * v - v0 - v1) * b + v0 * b + v1 * b
  {
  }

  lemma ScaledError(d: int, b: nat)
    requires -2 <= d <= 2
    ensures -2 * b <= d * b <= 2 * b
  {
  }

  /** A block none of whose pages is available has the byte 0. */
  lemma SummaryOutside(available: iset<nat>, h: nat, g: nat)
    requires forall p: nat | InBlock(p, h, g) :: p !in available
    ensures Summary(available, h, g) == 0
  {
    SummaryNonZero(available, h, g);
  }

  /** Pages of a range lie only in the blocks that the range has at each height. */
  lemma {:induction false} BlockOfPage(start: nat, end: nat, h: nat, p: nat, g: nat)
    requires First(start, 0) <= p < Last(end, 0) && InBlock(p, h, g)
    ensures First(start, h) <= g < Last(end, h)
    decreases h
  {
    if h > 0 {
      if InBlock(p, h - 1, 2 * g) {
        BlockOfPage(start, end, h - 1, p, 2 * g);
      } else {
        BlockOfPage(start, end, h - 1, p, 2 * g + 1);
      }
    }
  }

  /** When only pages of a range are available, blocks outside the range have the byte 0. */
  lemma OutsideRange(available: iset<nat>, start: nat, end: nat, h: nat, g: nat)
    requires forall p: nat | p in available :: First(start, 0) <= p < Last(end, 0)
    requires g < First(start, h) || g >= Last(end, h)
    ensures Summary(available, h, g) == 0
  {
    forall p: nat | InBlock(p, h, g)
      ensures p !in available
    {
      if First(start, 0) <= p < Last(end, 0) {
        BlockOfPage(start, end, h, p, g);
      }
    }
    SummaryOutside(available, h, g);
  }
}
