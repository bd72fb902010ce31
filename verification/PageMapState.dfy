/** The abstract state of a page map under construction: which tables exist, where they lie,
    and which pages they map. The word-level representation is tied to it by `Consistent`. */
module PageMapState {
  import opened Division
  import opened Paging

  /** A table, named by its level and by the number of the span of addresses it manages. */
  datatype Key = Key(level: nat, prefix: nat)

  function ParentOf(k: Key): Key { Key(k.level + 1, k.prefix / 512) }

  function ChildOf(k: Key, i: nat): Key
    requires k.level > 0
  {
    Key(k.level - 1, k.prefix * 512 + i)
  }

  /** The table of a level that holds the translation of a page. */
  function TableFor(level: nat, page: nat): Key { Key(level, Prefix(level, page)) }

  /** The words of the buffer, its physical address, the level of the root table, the tables in
      the order in which they were taken from the buffer (512 words each), the position of each
      table in that order, and the pages mapped so far. */
  datatype State = State(words: seq<nat>, base: nat, levels: nat,
                         order: seq<Key>, tables: map<Key, nat>, pages: set<nat>)
  {
    function Root(): Key { Key(levels, 0) }

    ghost predicate KeyOk(k: Key) {
      && 1 <= k.level <= levels
      && k in tables
      && tables[k] < |order| && order[tables[k]] == k
      && (k.level == levels ==> k.prefix == 0)
      && (k.level < levels ==> ParentOf(k) in tables)
    }

    ghost predicate PageOk(p: nat) { TableFor(1, p) in tables && PAGE_SIZE * p < PHYSICAL_LIMIT }

    ghost predicate KeysOk() {
      && 2 <= levels <= 5
      && |order| == |tables.Keys|
      && Root() in tables
      && tables[Root()] == 0
      && (forall k {:trigger KeyOk(k)} | k in tables :: KeyOk(k))
      && (forall p {:trigger PageOk(p)} | p in pages :: PageOk(p))
    }

    predicate LayoutOk() {
      && base % PAGE_SIZE == 0
      && base + 8 * |words| <= PHYSICAL_LIMIT
      && 512 * |order| <= |words|
    }

    /** The word that entry `i` of table `k` must hold. */
    function Expected(k: Key, i: nat): nat
      requires k.level >= 1
    {
      if k.level == 1 then
        if k.prefix * 512 + i in pages then PAGE_SIZE * (k.prefix * 512 + i) + 3 else 0
      else if ChildOf(k, i) in tables then base + PAGE_SIZE * tables[ChildOf(k, i)] + 3
      else 0
    }

    ghost predicate EntryOk(k: Key, i: nat) {
      && k in tables
      && k.level >= 1
      && 512 * tables[k] + i < |words|
      && words[512 * tables[k] + i] == Expected(k, i)
    }

    ghost predicate Consistent() {
      && KeysOk()
      && LayoutOk()
      && (forall k, i {:trigger EntryOk(k, i)} | k in tables && 0 <= i < 512 :: EntryOk(k, i))
    }
  }

  // ----- What a mapped region needs -----

  /** The tables of levels 1 to `level` under which the given pages fall. */
  ghost function Needed(level: nat, pages: set<nat>): set<Key> {
    set l, p | 1 <= l <= level && p in pages :: TableFor(l, p)
  }

  lemma NeededNone(pages: set<nat>)
    ensures Needed(0, pages) == {}
  {
  }

  lemma NeededUnion(level: nat, a: set<nat>, b: set<nat>)
    ensures Needed(level, a + b) == Needed(level, a) + Needed(level, b)
  {
    forall k | k in Needed(level, a + b)
      ensures k in Needed(level, a) + Needed(level, b)
    {
      var p :| p in a + b && k == TableFor(k.level, p);
    }
  }

  /** Pages that all fall under one table of level `level` need that table and the smaller ones. */
  lemma NeededTop(level: nat, pages: set<nat>, q: nat)
    requires level >= 1 && pages != {}
    requires forall p | p in pages :: Prefix(level, p) == q
    ensures Needed(level, pages) == {Key(level, q)} + Needed(level - 1, pages)
  {
    var p :| p in pages;
    assert Key(level, q) == TableFor(level, p);
    forall k | k in Needed(level, pages)
      ensures k in {Key(level, q)} + Needed(level - 1, pages)
    {
      var p :| p in pages && k == TableFor(k.level, p);
    }
  }

  lemma CardinalityMonotone<T>(a: set<T>, b: set<T>)
    requires a <= b
    ensures |a| <= |b|
  {
    assert b == a + (b - a);
  }

  // ----- Steps of the construction -----

  /** A page or a table lies below a table only if that table exists. */
  lemma BelowExisting(s: State, k: Key, i: nat)
    requires s.KeysOk() && 1 <= k.level < s.levels && i < 512
    ensures k.level == 1 && k.prefix * 512 + i in s.pages ==> k in s.tables
    ensures k.level > 1 && ChildOf(k, i) in s.tables ==> k in s.tables
  {
    if k.level == 1 {
      if k.prefix * 512 + i in s.pages {
        assert s.PageOk(k.prefix * 512 + i);
        assert Prefix(1, k.prefix * 512 + i) == Prefix(0, k.prefix * 512 + i) / 512;
      }
    } else if ChildOf(k, i) in s.tables {
      assert s.KeyOk(ChildOf(k, i));
      assert ParentOf(ChildOf(k, i)) == k;
    }
  }

  /** Distinct entries of distinct tables occupy distinct words. */
  lemma SlotsDiffer(s: State, a: Key, i: nat, b: Key, j: nat)
    requires s.KeyOk(a) && s.KeyOk(b) && i < 512 && j < 512
    ensures 512 * s.tables[a] + i == 512 * s.tables[b] + j <==> a == b && i == j
  {
  }

  /** The words after taking a fresh zeroed table for `child` and linking it from its parent. */
  ghost predicate TableAdded(s: State, child: Key, words: seq<nat>)
    requires s.KeysOk()
  {
    && 1 <= child.level < s.levels && child !in s.tables && ParentOf(child) in s.tables
    && 512 * |s.order| + 512 <= |s.words| == |words|
    && var n := |s.order|;
       var slot := 512 * s.tables[ParentOf(child)] + child.prefix % 512;
       && slot < |words|
       && words[slot] == s.base + PAGE_SIZE * n + 3
       && (forall j | 512 * n <= j < 512 * n + 512 :: words[j] == 0)
       && (forall j | 0 <= j < 512 * n && j != slot :: words[j] == s.words[j])
  }

  function WithTable(s: State, child: Key, words: seq<nat>): State {
    s.(words := words, order := s.order + [child], tables := s.tables[child := |s.order|])
  }

  lemma AddTableKeys(s: State, child: Key, words: seq<nat>)
    requires s.KeysOk() && TableAdded(s, child, words)
    ensures WithTable(s, child, words).KeysOk()
  {
    var t := WithTable(s, child, words);
    assert t.tables.Keys == s.tables.Keys + {child};
    forall k | k in t.tables
      ensures t.KeyOk(k)
    {
      if k != child { assert s.KeyOk(k); }
    }
    forall p | p in t.pages
      ensures t.PageOk(p)
    {
      assert s.PageOk(p);
    }
  }

  /** The entries of a fresh table are all clear, as nothing lies below it yet. */
  lemma FreshTableEntry(s: State, child: Key, words: seq<nat>, i: nat)
    requires s.KeysOk() && TableAdded(s, child, words) && i < 512
    ensures WithTable(s, child, words).EntryOk(child, i)
  {
    BelowExisting(s, child, i);
  }

  /** An entry of an older table is as before, unless it is the one that now links the fresh table. */
  lemma OlderTableEntry(s: State, child: Key, words: seq<nat>, k: Key, i: nat)
    requires s.KeysOk() && s.LayoutOk() && TableAdded(s, child, words)
    requires k in s.tables && s.EntryOk(k, i) && i < 512
    ensures WithTable(s, child, words).EntryOk(k, i)
  {
    var parent := ParentOf(child);
    var t := WithTable(s, child, words);
    assert s.KeyOk(k) && s.KeyOk(parent);
    SlotsDiffer(s, k, i, parent, child.prefix % 512);
    if k == parent && i == child.prefix % 512 {
      assert ChildOf(k, i) == child;
      assert t.Expected(k, i) == s.base + PAGE_SIZE * |s.order| + 3;
    } else {
      if k.level > 1 {
        assert ParentOf(ChildOf(k, i)) == k;
        assert ChildOf(k, i) != child;
      }
      assert t.Expected(k, i) == s.Expected(k, i);
    }
  }

  /** Taking a fresh zeroed table for a missing child and linking it from its parent keeps consistency. */
  lemma AddTable(s: State, child: Key, words: seq<nat>)
    requires s.Consistent() && TableAdded(s, child, words)
    ensures WithTable(s, child, words).Consistent()
  {
    var t := WithTable(s, child, words);
    AddTableKeys(s, child, words);
    forall k, i | k in t.tables && 0 <= i < 512
      ensures t.EntryOk(k, i)
    {
      if k == child {
        FreshTableEntry(s, child, words, i);
      } else {
        assert s.EntryOk(k, i);
        OlderTableEntry(s, child, words, k, i);
      }
    }
  }

  /** The word in which the identity entry of a page is kept. */
  function PageSlot(s: State, page: nat): nat
    requires TableFor(1, page) in s.tables
  {
    512 * s.tables[TableFor(1, page)] + page % 512
  }

  lemma AddPageEntry(s: State, page: nat, words: seq<nat>, k: Key, i: nat)
    requires s.KeysOk() && s.LayoutOk() && TableFor(1, page) in s.tables
    requires PageSlot(s, page) < |s.words| && words == s.words[PageSlot(s, page) := PAGE_SIZE * page + 3]
    requires k in s.tables && i < 512 && s.EntryOk(k, i)
    ensures s.(words := words, pages := s.pages + {page}).EntryOk(k, i)
  {
    var table := TableFor(1, page);
    assert table == Key(1, page / 512);
    assert s.KeyOk(k) && s.KeyOk(table);
    SlotsDiffer(s, k, i, table, page % 512);
    SamePage(page, k.prefix, i);
  }

  /** A page is named by its table and its place in it. */
  lemma SamePage(page: nat, prefix: nat, i: nat)
    requires i < 512
    ensures prefix * 512 + i == page <==> prefix == page / 512 && i == page % 512
  {
  }

  /** Writing the identity entry of a page whose level 1 table exists keeps consistency. */
  lemma AddPage(s: State, page: nat, words: seq<nat>)
    requires s.Consistent()
    requires TableFor(1, page) in s.tables && PAGE_SIZE * page < PHYSICAL_LIMIT
    requires PageSlot(s, page) < |s.words| && words == s.words[PageSlot(s, page) := PAGE_SIZE * page + 3]
    ensures s.(words := words, pages := s.pages + {page}).Consistent()
  {
    var t := s.(words := words, pages := s.pages + {page});
    forall k | k in t.tables
      ensures t.KeyOk(k)
    {
      assert s.KeyOk(k);
    }
    forall p | p in t.pages
      ensures t.PageOk(p)
    {
      assert p != page ==> s.PageOk(p);
    }
    forall k, i | k in t.tables && 0 <= i < 512
      ensures t.EntryOk(k, i)
    {
      assert s.EntryOk(k, i);
      AddPageEntry(s, page, words, k, i);
    }
  }

  // ----- Meaning of a consistent page map -----

  /** Physical memory holds the words of the buffer at the buffer's address. */
  ghost predicate Holds(memory: nat -> nat, s: State) {
    forall j | 0 <= j < |s.words| :: memory(s.base + 8 * j) == s.words[j]
  }

  /** The address of a table of the buffer. */
  function AddressOf(s: State, k: Key): nat
    requires k in s.tables
  {
    s.base + PAGE_SIZE * s.tables[k]
  }

  lemma HoldsAt(memory: nat -> nat, s: State, n: nat, i: nat)
    requires Holds(memory, s) && 512 * n + i < |s.words|
    ensures memory(s.base + PAGE_SIZE * n + 8 * i) == s.words[512 * n + i]
  {
    assert memory(s.base + 8 * (512 * n + i)) == s.words[512 * n + i];
  }

  lemma IndexOfPrefix(level: nat, va: nat)
    requires 1 <= level <= 5
    ensures EntryIndex(level, va) == Prefix(level - 1, va / PAGE_SIZE) % 512
    ensures Prefix(level, va / PAGE_SIZE) * 512 + EntryIndex(level, va) == Prefix(level - 1, va / PAGE_SIZE)
  {
    SpanPrefix(level - 1, va);
  }

  /** The value of the entry that a walk reads from an existing table. */
  lemma WalkReads(memory: nat -> nat, s: State, level: nat, va: nat)
    requires s.Consistent() && Holds(memory, s)
    requires 1 <= level <= s.levels && TableFor(level, va / PAGE_SIZE) in s.tables
    ensures var k := TableFor(level, va / PAGE_SIZE);
            && memory(AddressOf(s, k) + 8 * EntryIndex(level, va)) ==
               (if level == 1 then
                  if va / PAGE_SIZE in s.pages then PAGE_SIZE * (va / PAGE_SIZE) + 3 else 0
                else
                  var child := TableFor(level - 1, va / PAGE_SIZE);
                  if child in s.tables then AddressOf(s, child) + 3 else 0)
  {
    hide EntryIndex, Holds;
    var k := TableFor(level, va / PAGE_SIZE);
    var i := EntryIndex(level, va);
    IndexOfPrefix(level, va);
    assert s.EntryOk(k, i);
    HoldsAt(memory, s, s.tables[k], i);
  }

  /** The flags of an entry for page number `m`. */
  lemma EntryBits(m: nat)
    ensures Present(4096 * m + 3) && Writable(4096 * m + 3) && !PageSizeBit(4096 * m + 3)
  {
    QuotientUnique(4096 * m + 3, 2, 2048 * m + 1, 1);
    QuotientUnique(2048 * m + 1, 2, 1024 * m, 1);
    QuotientUnique(4096 * m + 3, 128, 32 * m, 3);
    QuotientUnique(32 * m, 2, 16 * m, 0);
  }

  lemma EntryFrame(m: nat)
    requires 4096 * m < PHYSICAL_LIMIT
    ensures FrameAddress(4096 * m + 3, PAGE_SIZE) == 4096 * m
  {
    QuotientUnique(4096 * m + 3, PHYSICAL_LIMIT, 0, 4096 * m + 3);
    QuotientUnique(4096 * m + 3, PAGE_SIZE, m, 3);
  }

  /** Entries of the map are decoded as written: no large pages, and table addresses survive. */
  lemma EntryDecodes(a: nat)
    requires a % PAGE_SIZE == 0 && a < PHYSICAL_LIMIT
    ensures Present(a + 3) && Writable(a + 3) && !PageSizeBit(a + 3)
    ensures FrameAddress(a + 3, PAGE_SIZE) == a
  {
    hide Present, Writable, PageSizeBit, FrameAddress;
    assert a == 4096 * (a / 4096);
    EntryBits(a / 4096);
    EntryFrame(a / 4096);
  }

  lemma TableAddressOk(s: State, k: Key)
    requires s.KeysOk() && s.LayoutOk() && k in s.tables
    ensures AddressOf(s, k) % PAGE_SIZE == 0
    ensures s.base <= AddressOf(s, k) && AddressOf(s, k) + PAGE_SIZE <= s.base + 8 * |s.words|
  {
    assert s.KeyOk(k);
  }

  /** A walk through a clear entry faults. */
  lemma WalkClear(memory: nat -> nat, level: nat, table: nat, va: nat)
    requires 1 <= level <= 5
    requires memory(table + 8 * EntryIndex(level, va)) == 0
    ensures Walk(memory, level, table, va) == Fault
  {
  }

  /** A walk through an entry that holds a page-aligned address and the two low bits
      ends at that address, or goes on from there. */
  lemma WalkThrough(memory: nat -> nat, level: nat, table: nat, va: nat, a: nat)
    requires 1 <= level <= 5
    requires a % PAGE_SIZE == 0 && a < PHYSICAL_LIMIT
    requires memory(table + 8 * EntryIndex(level, va)) == a + 3
    ensures Walk(memory, level, table, va) ==
            if level == 1 then Mapped(a + va % PAGE_SIZE, true) else Walk(memory, level - 1, a, va)
  {
    EntryDecodes(a);
  }

  /** A walk that starts at any existing table translates exactly the mapped pages, to themselves. */
  lemma {:induction false} WalkFromTable(memory: nat -> nat, s: State, level: nat, va: nat)
    requires s.Consistent() && Holds(memory, s)
    requires 1 <= level <= s.levels && TableFor(level, va / PAGE_SIZE) in s.tables
    ensures Walk(memory, level, AddressOf(s, TableFor(level, va / PAGE_SIZE)), va) ==
            if va / PAGE_SIZE in s.pages then Mapped(va, true) else Fault
    decreases level
  {
    hide Walk, EntryIndex, Holds, Prefix;
    var page := va / PAGE_SIZE;
    var table := AddressOf(s, TableFor(level, page));
    WalkReads(memory, s, level, va);
    if level == 1 {
      if page in s.pages {
        assert s.PageOk(page);
        WalkThrough(memory, level, table, va, PAGE_SIZE * page);
      } else {
        WalkClear(memory, level, table, va);
      }
    } else if TableFor(level - 1, page) in s.tables {
      TableAddressOk(s, TableFor(level - 1, page));
      WalkThrough(memory, level, table, va, AddressOf(s, TableFor(level - 1, page)));
      WalkFromTable(memory, s, level - 1, va);
    } else {
      PageHasTables(s, page, level - 1);
      WalkClear(memory, level, table, va);
    }
  }

  /** Every mapped page has its table at every level. */
  lemma {:induction false} PageHasTables(s: State, page: nat, level: nat)
    requires s.KeysOk() && 1 <= level <= s.levels
    ensures page in s.pages ==> TableFor(level, page) in s.tables
  {
    if page !in s.pages {
    } else if level == 1 {
      assert s.PageOk(page);
    } else {
      PageHasTables(s, page, level - 1);
      assert s.KeyOk(TableFor(level - 1, page));
      assert ParentOf(TableFor(level - 1, page)) == TableFor(level, page);
    }
  }

  /** The processor's walk from the root of a consistent map sends every address of a mapped page
      to itself, writable, and faults on every other address of the translated space. */
  lemma IdentityExactly(memory: nat -> nat, s: State, va: nat)
    requires s.Consistent() && Holds(memory, s)
    requires va < Span(s.levels)
    ensures Walk(memory, s.levels, s.base, va) ==
            if va / PAGE_SIZE in s.pages then Mapped(va, true) else Fault
  {
    hide Walk, Prefix, Holds;
    SpanPrefix(s.levels, va);
    assert TableFor(s.levels, va / PAGE_SIZE) == s.Root();
    WalkFromTable(memory, s, s.levels, va);
  }
}
