/** The builder of the early identity page maps: it descends from the root table, takes zeroed
    tables from the buffer as it meets missing ones, and ORs identity entries into place. */
module PageMapBuilder {
  import opened WordOps
  import opened Intervals
  import opened Division
  import opened Paging
  import opened PageMapState

  const TABLE_WORDS: nat := 512

  /** The word with its twelve low bits cleared. */
  function PageAligned(word: nat): nat { (word / 4096) * 4096 }

  /** Tables begin on page boundaries. */
  lemma TableAligned(base: nat, table: nat)
    requires base % PAGE_SIZE == 0 && table % TABLE_WORDS == 0
    ensures (base + 8 * table) % 4 == 0 && PageAligned(base + 8 * table) == base + 8 * table
  {
    var m := base / PAGE_SIZE + table / TABLE_WORDS;
    assert base + 8 * table == 4096 * m;
    QuotientUnique(4096 * m, 4, 1024 * m, 0);
    QuotientUnique(4096 * m, 4096, m, 0);
  }

  /** The table offset that an entry written for table number `n` leads back to. */
  lemma EntryLeadsBack(base: nat, n: nat)
    requires base % PAGE_SIZE == 0
    ensures Present(base + PAGE_SIZE * n + 3)
    ensures (PageAligned(base + PAGE_SIZE * n + 3) - base) / 8 == TABLE_WORDS * n
  {
    hide Present;
    var m := base / PAGE_SIZE + n;
    assert base + PAGE_SIZE * n + 3 == 4096 * m + 3;
    EntryBits(m);
    QuotientUnique(4096 * m + 3, 4096, m, 3);
    QuotientUnique(8 * (TABLE_WORDS * n), 8, TABLE_WORDS * n, 0);
    assert PageAligned(4096 * m + 3) == base + PAGE_SIZE * n;
  }

  /** The parent's entry for the table under which `start` falls. */
  lemma SlotOfTable(level: nat, start: nat)
    requires level < 5
    ensures (start / Span(level)) % 512 == TableFor(level, start / PAGE_SIZE).prefix % 512
    ensures TableFor(level, start / PAGE_SIZE).level == level
    ensures ParentOf(TableFor(level, start / PAGE_SIZE)) == TableFor(level + 1, start / PAGE_SIZE)
  {
    SpanPrefix(level, start);
  }

  class PageMapBuffer {
    const base: nat
    const levels: nat
    const words: array<nat>
    /** The bump pointer: offset of the next free table, in words. */
    var next: nat

    ghost var order: seq<Key>
    ghost var tables: map<Key, nat>
    ghost var pages: set<nat>

    ghost function View(): State
      reads this, words
    {
      State(words[..], base, levels, order, tables, pages)
    }

    ghost predicate Valid()
      reads this, words
    {
      View().Consistent() && next == TABLE_WORDS * |order|
    }

    /** Zeroes a table of the buffer. */
    method ClearTable(at: nat)
      requires at + TABLE_WORDS <= words.Length
      modifies words
      ensures forall j | at <= j < at + TABLE_WORDS :: words[j] == 0
      ensures forall j | 0 <= j < words.Length && !(at <= j < at + TABLE_WORDS) :: words[j] == old(words[j])
    {
      for i := 0 to TABLE_WORDS
        invariant forall j | at <= j < at + i :: words[j] == 0
        invariant forall j | 0 <= j < words.Length && !(at <= j < at + i) :: words[j] == old(words[j])
      {
        words[at + i] := 0;
      }
    }

    /** Makes the whole buffer ready: an empty root table and nothing else. */
    constructor (base: nat, levels: nat, words: array<nat>)
      requires 2 <= levels <= 5
      requires base % PAGE_SIZE == 0 && base + 8 * words.Length <= PHYSICAL_LIMIT
      requires words.Length >= TABLE_WORDS
      modifies words
      ensures Valid()
      ensures this.base == base && this.levels == levels && this.words == words
      ensures tables.Keys == {Key(levels, 0)} && pages == {}
    {
      this.base, this.levels, this.words := base, levels, words;
      next := TABLE_WORDS;
      order := [Key(levels, 0)];
      tables := map[Key(levels, 0) := 0];
      pages := {};
      new;
      ClearTable(0);
      ghost var s := View();
      assert s.KeyOk(s.Root());
      forall k, i | k in s.tables && 0 <= i < 512
        ensures s.EntryOk(k, i)
      {
      }
    }

    lemma Bounds()
      requires Valid()
      ensures 2 <= levels <= 5 && base % PAGE_SIZE == 0
      ensures base + 8 * words.Length <= PHYSICAL_LIMIT
      ensures next == TABLE_WORDS * |tables.Keys| <= words.Length
    {
    }

    /** Where the parent's entry for a table lies, and what it holds. */
    lemma ParentEntry(child: Key)
      requires Valid()
      requires 1 <= child.level < levels && ParentOf(child) in tables
      ensures var slot := TABLE_WORDS * tables[ParentOf(child)] + child.prefix % 512;
              && slot < next <= words.Length
              && words[slot] == if child in tables then base + PAGE_SIZE * tables[child] + 3 else 0
    {
      var s := View();
      assert s.KeyOk(ParentOf(child));
      assert s.EntryOk(ParentOf(child), child.prefix % 512);
      assert ChildOf(ParentOf(child), child.prefix % 512) == child;
    }

    /** Zeroes the table at offset `table` and points the clear entry `slot` at it. */
    method LinkTable(slot: nat, table: nat)
      requires base % PAGE_SIZE == 0 && table % TABLE_WORDS == 0
      requires slot < table && table + TABLE_WORDS <= words.Length
      requires words[slot] == 0
      modifies words
      ensures words[slot] == base + 8 * table + 3
      ensures forall j | table <= j < table + TABLE_WORDS :: words[j] == 0
      ensures forall j | 0 <= j < table && j != slot :: words[j] == old(words[j])
    {
      hide BitOr, PageAligned;
      ClearTable(table);
      var address := base + 8 * table;
      TableAligned(base, table);
      BitOrZero(address);
      words[slot] := BitOr(words[slot], PageAligned(address));
      BitOrLowBits(address);
      words[slot] := BitOr(words[slot], 3);
    }

    /** Takes the next free table, zeroes it and points entry `slot` at it. */
    method TakeTable(slot: nat, ghost child: Key) returns (table: nat)
      requires Valid()
      requires 1 <= child.level < levels && ParentOf(child) in tables && child !in tables
      requires slot == TABLE_WORDS * tables[ParentOf(child)] + child.prefix % 512
      requires next + TABLE_WORDS <= words.Length
      modifies this, words
      ensures Valid() && pages == old(pages)
      ensures tables == old(tables)[child := |old(order)|]
      ensures table == TABLE_WORDS * tables[child]
    {
      hide State.KeyOk, State.EntryOk, State.PageOk, ParentOf;
      ghost var s := View();
      Bounds();
      ParentEntry(child);
      table := next;
      next := next + TABLE_WORDS;
      LinkTable(slot, table);
      ghost var w := words[..];
      TableAddedBy(s, child, w);
      AddTable(s, child, w);
      order := order + [child];
      tables := tables[child := |s.order|];
      assert View() == WithTable(s, child, w);
    }

    static lemma TableAddedBy(s: State, child: Key, w: seq<nat>)
      requires s.KeysOk() && 1 <= child.level < s.levels && ParentOf(child) in s.tables && child !in s.tables
      requires TABLE_WORDS * |s.order| + TABLE_WORDS <= |s.words| == |w|
      requires var table := TABLE_WORDS * |s.order|;
               var slot := TABLE_WORDS * s.tables[ParentOf(child)] + child.prefix % 512;
               && slot < table
               && w[slot] == s.base + 8 * table + 3
               && (forall j | table <= j < table + TABLE_WORDS :: w[j] == 0)
               && (forall j | 0 <= j < table && j != slot :: w[j] == s.words[j])
      ensures TableAdded(s, child, w)
    {
    }

    /** Finds the level-`level` table under which `start` falls, or takes a fresh one for it. */
    method GetOrCreateTable(level: nat, start: nat, parent: nat) returns (ok: bool, table: nat)
      requires Valid()
      requires 1 <= level < levels
      requires TableFor(level + 1, start / PAGE_SIZE) in tables
      requires parent == TABLE_WORDS * tables[TableFor(level + 1, start / PAGE_SIZE)]
      modifies this, words
      ensures Valid() && pages == old(pages)
      ensures ok <==> TABLE_WORDS * |old(tables).Keys + {TableFor(level, start / PAGE_SIZE)}| <= words.Length
      ensures tables.Keys == if ok then old(tables).Keys + {TableFor(level, start / PAGE_SIZE)} else old(tables).Keys
      ensures ok ==> table == TABLE_WORDS * tables[TableFor(level, start / PAGE_SIZE)]
      ensures Extends(old(tables), tables)
    {
      hide Valid, Span, TableFor, PageAligned, ParentOf;
      Bounds();
      ghost var child := TableFor(level, start / PAGE_SIZE);
      SlotOfTable(level, start);
      var slot := parent + (start / Span(level)) % 512;
      ParentEntry(child);
      var entry := words[slot];

      if !Present(entry) {
        assert child !in tables by {
          if child in tables { EntryLeadsBack(base, tables[child]); }
        }
        assert |old(tables).Keys + {child}| == |old(tables).Keys| + 1;
        if next + TABLE_WORDS > words.Length {
          return false, 0;
        }
        table := TakeTable(slot, child);
        ok := true;
      } else {
        assert old(tables).Keys + {child} == old(tables).Keys;
        EntryLeadsBack(base, tables[child]);
        table := (PageAligned(entry) - base) / 8;
        ok := true;
      }
    }

    /** What the entry of a page holds, when the page's level 1 table exists. */
    lemma PageEntry(page: nat)
      requires Valid() && TableFor(1, page) in tables
      ensures PageSlot(View(), page) == TABLE_WORDS * tables[TableFor(1, page)] + page % 512 < words.Length
      ensures words[PageSlot(View(), page)] == if page in pages then PAGE_SIZE * page + 3 else 0
    {
      var s := View();
      assert TableFor(1, page) == Key(1, Prefix(0, page) / 512);
      assert s.KeyOk(TableFor(1, page));
      assert s.EntryOk(TableFor(1, page), page % 512);
    }

    /** Maps one page of a level 1 table to itself; a page that is mapped already stays as it is. */
    method MapPage(entryAddress: nat, table: nat)
      requires Valid()
      requires entryAddress % PAGE_SIZE == 0 && entryAddress < PHYSICAL_LIMIT
      requires TableFor(1, entryAddress / PAGE_SIZE) in tables
      requires table == TABLE_WORDS * tables[TableFor(1, entryAddress / PAGE_SIZE)]
      modifies this`pages, words
      ensures Valid() && pages == old(pages) + {entryAddress / PAGE_SIZE}
    {
      hide Prefix, TableFor, State.Consistent, BitOr;
      ghost var s := View();
      ghost var page := entryAddress / PAGE_SIZE;
      var index := (entryAddress / PAGE_SIZE) % 512;
      PageEntry(page);
      BitOrLowBits(entryAddress);
      BitOrAgain(entryAddress);
      BitOrZero(entryAddress);
      words[table + index] := BitOr(words[table + index], entryAddress);
      words[table + index] := BitOr(words[table + index], 3);
      assert words[..] == s.words[PageSlot(s, page) := entryAddress + 3];
      AddPage(s, page, words[..]);
      pages := pages + {page};
      assert View() == s.(words := words[..], pages := s.pages + {page});
    }

    /** The pages of a byte range within one span all fall under one table. */
    static lemma SameTable(level: nat, start: nat, end: nat, page: nat)
      requires level <= 5 && start < end && (end - 1) / Span(level) == start / Span(level)
      requires start / PAGE_SIZE <= page <= (end - 1) / PAGE_SIZE
      ensures TableFor(level, page) == TableFor(level, start / PAGE_SIZE)
    {
      hide Span, Prefix;
      SpanPrefix(level, start);
      SpanPrefix(level, end - 1);
      PrefixMonotone(level, start / PAGE_SIZE, page);
      PrefixMonotone(level, page, (end - 1) / PAGE_SIZE);
    }

    /** Maps the pages of `[start, end)`, which all fall under one level 1 table. */
    method MapPages(start: nat, end: nat, table: nat)
      requires Valid()
      requires start < end <= PHYSICAL_LIMIT && (end - 1) / Span(1) == start / Span(1)
      requires TableFor(1, start / PAGE_SIZE) in tables
      requires table == TABLE_WORDS * tables[TableFor(1, start / PAGE_SIZE)]
      modifies this`pages, words
      ensures Valid() && pages == old(pages) + PagesOf(start, end)
    {
      hide Valid, Interval, Prefix, TableFor, PagesOf;
      var entryAddress := PageAligned(start);
      ghost var first, page := start / PAGE_SIZE, start / PAGE_SIZE;
      while entryAddress < end
        invariant entryAddress == PAGE_SIZE * page
        invariant first <= page <= (end - 1) / PAGE_SIZE + 1
        invariant Valid()
        invariant pages == old(pages) + Interval(first, page)
      {
        SameTable(1, start, end, page);
        MapPage(entryAddress, table);
        page := page + 1;
        entryAddress := entryAddress + PAGE_SIZE;
      }
    }

    /** A mapping step that began with `keys0` and `pages0` ended in the present state. */
    ghost predicate Done(ok: bool, keys0: set<Key>, pages0: set<nat>, need: set<Key>, more: set<nat>)
      reads this
    {
      Outcome(ok, words.Length / TABLE_WORDS, keys0, pages0, need, more, tables.Keys, pages)
    }

    /** Maps `[start, end)`, which lies under one table of level `level`, below `parent`. */
    method PrepareTable(level: nat, start: nat, end: nat, parent: nat) returns (ok: bool)
      requires Valid()
      requires 1 <= level < levels
      requires start < end <= PHYSICAL_LIMIT && (end - 1) / Span(level) == start / Span(level)
      requires TableFor(level + 1, start / PAGE_SIZE) in tables
      requires parent == TABLE_WORDS * tables[TableFor(level + 1, start / PAGE_SIZE)]
      modifies this, words
      ensures Valid()
      ensures Done(ok, old(tables).Keys, old(pages), Needed(level, PagesOf(start, end)), PagesOf(start, end))
      ensures Extends(old(tables), tables)
      decreases level, 0
    {
      hide Valid, Span, PagesOf, Prefix, TableFor, Needed, Outcome, Extends;
      ghost var top := TableFor(level, start / PAGE_SIZE);
      ghost var below := Needed(level - 1, PagesOf(start, end));
      Bounds();
      RangeNeeds(level, start, end);
      ghost var capacity, before := words.Length / TABLE_WORDS, tables.Keys;
      var made, table := GetOrCreateTable(level, start, parent);
      if !made {
        OutcomeNotMade(capacity, before, pages, top, below, PagesOf(start, end));
        return false;
      }
      ghost var tables1, keys := tables, before + {top};
      assert tables.Keys == keys;
      ok := FillTable(level, start, end, table);
      ExtendsThen(old(tables), tables1, tables, TableFor(level + 1, start / PAGE_SIZE));
      assert Outcome(ok, capacity, keys, old(pages), below, PagesOf(start, end), tables.Keys, pages);
      OutcomeMade(ok, capacity, before, old(pages), top, below, PagesOf(start, end), tables.Keys, pages);
    }

    /** Maps `[start, end)`, which lies under the level-`level` table at offset `table`. */
    method FillTable(level: nat, start: nat, end: nat, table: nat) returns (ok: bool)
      requires Valid()
      requires 1 <= level < levels
      requires start < end <= PHYSICAL_LIMIT && (end - 1) / Span(level) == start / Span(level)
      requires TableFor(level, start / PAGE_SIZE) in tables
      requires table == TABLE_WORDS * tables[TableFor(level, start / PAGE_SIZE)]
      modifies this, words
      ensures Valid()
      ensures Done(ok, old(tables).Keys, old(pages), Needed(level - 1, PagesOf(start, end)), PagesOf(start, end))
      ensures Extends(old(tables), tables)
      decreases level - 1, 2
    {
      hide Valid, Span, PagesOf, Prefix, TableFor, Needed, Outcome, Extends;
      if level == 1 {
        Bounds();
        ExtendsSelf(tables);
        NeededNone(PagesOf(start, end));
        MapPages(start, end, table);
        AllDone(words.Length / TABLE_WORDS, tables.Keys, old(pages), {}, PagesOf(start, end), tables.Keys, pages);
        ok := true;
      } else {
        ok := MapRange(level, start, end, table);
      }
    }

    /** Maps `[start, end)`, which lies under the table at offset `table`, one entry's span at a time. */
    method MapRange(level: nat, start: nat, end: nat, table: nat) returns (ok: bool)
      requires Valid()
      requires 2 <= level <= levels
      requires start < end <= PHYSICAL_LIMIT && (end - 1) / Span(level) == start / Span(level)
      requires TableFor(level, start / PAGE_SIZE) in tables
      requires table == TABLE_WORDS * tables[TableFor(level, start / PAGE_SIZE)]
      modifies this, words
      ensures Valid()
      ensures Done(ok, old(tables).Keys, old(pages), Needed(level - 1, PagesOf(start, end)), PagesOf(start, end))
      ensures Extends(old(tables), tables)
      decreases level - 1, 1
    {
      hide Valid, Span, PagesOf, Prefix, TableFor, Needed, NextPiece, Outcome, Extends;
      ghost var top := TableFor(level, start / PAGE_SIZE);
      Bounds();
      var managed := Span(level - 1);
      var alignedStart := (start / managed) * managed;
      var subStart := start;
      var subEnd := alignedStart + managed;
      subEnd := if subEnd < end then subEnd else end;
      ok := true;
      FirstPiece(level - 1, start, end);
      ExtendsSelf(tables);
      NothingDone(words.Length / TABLE_WORDS, level - 1, start, tables.Keys, pages);
      ghost var reached := start;
      while subStart < end
        invariant start <= reached <= end && reached == if subStart < end then subStart else end
        invariant subStart < end ==> NextPiece(level - 1, start, subStart, subEnd, end)
        invariant Valid()
        invariant Extends(old(tables), tables) && top in tables && tables[top] == old(tables)[top]
        invariant Done(true, old(tables).Keys, old(pages),
                       Needed(level - 1, PagesOf(start, reached)), PagesOf(start, reached))
        decreases end - subStart
      {
        PieceUnderOne(level - 1, start, subStart, subEnd, end);
        ghost var tables1, mapped := tables, pages;
        ok := PrepareTable(level - 1, subStart, subEnd, table);
        OutcomeThen(ok, words.Length / TABLE_WORDS, level - 1, old(tables).Keys, old(pages),
                    start, subStart, subEnd, end, tables1.Keys, mapped, tables.Keys, pages);
        ExtendsThen(old(tables), tables1, tables, top);
        if !ok {
          return;
        }
        ThenPiece(level - 1, start, subStart, subEnd, end);
        reached := subEnd;
        subStart := (subStart / managed + 1) * managed;
        subEnd := (subEnd / managed + 1) * managed;
        subEnd := if subEnd < end then subEnd else end;
      }
    }

    /** Maps `[start, end)` from the root table down; an empty range maps nothing. */
    method MapMemoryRange(start: nat, end: nat) returns (ok: bool)
      requires Valid()
      requires end <= PHYSICAL_LIMIT && end <= Span(levels)
      modifies this, words
      ensures Valid()
      ensures Done(ok, old(tables).Keys, old(pages), Needed(levels - 1, PagesOf(start, end)), PagesOf(start, end))
    {
      hide PageMapState.State.KeyOk, PageMapState.State.EntryOk, PageMapState.State.PageOk;
      if start < end {
        SpanPrefix(levels, start);
        assert TableFor(levels, start / PAGE_SIZE) == Key(levels, 0);
        ok := MapRange(levels, start, end, 0);
      } else {
        ok := true;
        assert PagesOf(start, end) == {};
        NeededNothing(levels - 1);
        AllDone(words.Length / TABLE_WORDS, tables.Keys, pages, {}, {}, tables.Keys, pages);
      }
    }
  }

  /** Every table of `before` is still there, in the same place. */
  ghost predicate Extends(before: map<Key, nat>, after: map<Key, nat>) {
    forall k | k in before :: k in after && after[k] == before[k]
  }

  lemma ExtendsSelf(a: map<Key, nat>)
    ensures Extends(a, a)
  {
  }

  lemma ExtendsThen(a: map<Key, nat>, b: map<Key, nat>, c: map<Key, nat>, k: Key)
    requires Extends(a, b) && Extends(b, c) && k in a
    ensures Extends(a, c) && k in c && c[k] == a[k]
  {
  }

  /** Making one table and then succeeding or failing below it is one step. */
  lemma OutcomeMade(ok: bool, capacity: nat, keys0: set<Key>, pages0: set<nat>, table: Key,
                    below: set<Key>, more: set<nat>, keys: set<Key>, pages: set<nat>)
    requires Outcome(ok, capacity, keys0 + {table}, pages0, below, more, keys, pages)
    ensures Outcome(ok, capacity, keys0, pages0, {table} + below, more, keys, pages)
  {
    assert keys0 + ({table} + below) == keys0 + {table} + below;
  }

  lemma OutcomeNotMade(capacity: nat, keys0: set<Key>, pages0: set<nat>, table: Key, below: set<Key>, more: set<nat>)
    requires |keys0 + {table}| > capacity
    ensures Outcome(false, capacity, keys0, pages0, {table} + below, more, keys0, pages0)
  {
    CardinalityMonotone(keys0 + {table}, keys0 + ({table} + below));
  }

  /** A step succeeded exactly when the tables it needs, with those there before, fit in the
      buffer; then it created those tables and mapped those pages. A failed step did part of that. */
  ghost predicate Outcome(ok: bool, capacity: nat, keys0: set<Key>, pages0: set<nat>,
                          need: set<Key>, more: set<nat>, keys: set<Key>, pages: set<nat>) {
    && (ok <==> |keys0 + need| <= capacity)
    && (ok ==> keys == keys0 + need && pages == pages0 + more)
    && keys0 <= keys <= keys0 + need
    && pages0 <= pages <= pages0 + more
  }

  lemma NothingDone(capacity: nat, level: nat, start: nat, keys: set<Key>, pages: set<nat>)
    requires |keys| <= capacity
    ensures Outcome(true, capacity, keys, pages, Needed(level, PagesOf(start, start)), PagesOf(start, start), keys, pages)
  {
    assert PagesOf(start, start) == {};
    NeededNothing(level);
    assert keys + {} == keys;
  }

  lemma NeededNothing(level: nat)
    ensures Needed(level, {}) == {}
  {
    assert forall k :: k !in Needed(level, {});
  }

  lemma AllDone(capacity: nat, keys0: set<Key>, pages0: set<nat>, need: set<Key>, more: set<nat>,
                keys: set<Key>, pages: set<nat>)
    requires |keys0| <= capacity && need == {}
    requires keys == keys0 && pages == pages0 + more
    ensures Outcome(true, capacity, keys0, pages0, need, more, keys, pages)
  {
    assert keys0 + need == keys0;
  }

  lemma PagesSplit(start: nat, mid: nat, end: nat)
    requires start <= mid <= end
    ensures PagesOf(start, end) == PagesOf(start, mid) + PagesOf(mid, end)
  {
  }

  /** Two steps that both succeed are one step that succeeds. */
  lemma OutcomeBoth(capacity: nat, keys0: set<Key>, pages0: set<nat>, need1: set<Key>, more1: set<nat>,
                    keys1: set<Key>, pages1: set<nat>, need2: set<Key>, more2: set<nat>,
                    keys: set<Key>, pages: set<nat>)
    requires Outcome(true, capacity, keys0, pages0, need1, more1, keys1, pages1)
    requires Outcome(true, capacity, keys1, pages1, need2, more2, keys, pages)
    ensures Outcome(true, capacity, keys0, pages0, need1 + need2, more1 + more2, keys, pages)
  {
    assert keys == keys0 + (need1 + need2);
    assert pages == pages0 + (more1 + more2);
  }

  /** A step that fails after one that succeeded makes any larger step fail. */
  lemma OutcomeFails(capacity: nat, keys0: set<Key>, pages0: set<nat>, need1: set<Key>, more1: set<nat>,
                     keys1: set<Key>, pages1: set<nat>, need2: set<Key>, more2: set<nat>,
                     keys: set<Key>, pages: set<nat>, need: set<Key>, more: set<nat>)
    requires Outcome(true, capacity, keys0, pages0, need1, more1, keys1, pages1)
    requires Outcome(false, capacity, keys1, pages1, need2, more2, keys, pages)
    requires need1 + need2 <= need && more1 + more2 <= more
    ensures Outcome(false, capacity, keys0, pages0, need, more, keys, pages)
  {
    CardinalityMonotone(keys1 + need2, keys0 + need);
  }

  /** A successful part of a range followed by the step for its next piece. */
  lemma OutcomeThen(ok: bool, capacity: nat, level: nat, keys0: set<Key>, pages0: set<nat>,
                    start: nat, mid: nat, next: nat, end: nat,
                    keys1: set<Key>, pages1: set<nat>, keys: set<Key>, pages: set<nat>)
    requires start <= mid <= next <= end
    requires Outcome(true, capacity, keys0, pages0, Needed(level, PagesOf(start, mid)), PagesOf(start, mid), keys1, pages1)
    requires Outcome(ok, capacity, keys1, pages1, Needed(level, PagesOf(mid, next)), PagesOf(mid, next), keys, pages)
    ensures ok ==> Outcome(true, capacity, keys0, pages0, Needed(level, PagesOf(start, next)), PagesOf(start, next), keys, pages)
    ensures !ok ==> Outcome(false, capacity, keys0, pages0, Needed(level, PagesOf(start, end)), PagesOf(start, end), keys, pages)
  {
    hide PagesOf, Needed, Outcome;
    PagesSplit(start, mid, next);
    PagesSplit(start, next, end);
    NeededUnion(level, PagesOf(start, mid), PagesOf(mid, next));
    NeededUnion(level, PagesOf(start, next), PagesOf(next, end));
    if ok {
      OutcomeBoth(capacity, keys0, pages0, Needed(level, PagesOf(start, mid)), PagesOf(start, mid), keys1, pages1,
                  Needed(level, PagesOf(mid, next)), PagesOf(mid, next), keys, pages);
    } else {
      OutcomeFails(capacity, keys0, pages0, Needed(level, PagesOf(start, mid)), PagesOf(start, mid), keys1, pages1,
                   Needed(level, PagesOf(mid, next)), PagesOf(mid, next), keys, pages,
                   Needed(level, PagesOf(start, end)), PagesOf(start, end));
    }
  }

  /** The next piece of `[start, end)` to map: it begins at `start` or on a boundary,
      and goes on to the next boundary or to the end. */
  predicate NextPiece(level: nat, start: nat, subStart: int, subEnd: int, end: nat)
    requires level <= 5
  {
    var managed := Span(level);
    && start <= subStart < subEnd <= end
    && (subEnd == end || subEnd == (subStart / managed + 1) * managed)
    && subEnd <= (subStart / managed + 1) * managed
  }

  lemma FirstPiece(level: nat, start: nat, end: nat)
    requires level <= 5 && start < end
    ensures var boundary := (start / Span(level)) * Span(level) + Span(level);
            NextPiece(level, start, start, if boundary < end then boundary else end, end)
  {
    match level case 0 => case 1 => case 2 => case 3 => case 4 => case 5 =>
  }

  lemma PieceUnderOne(level: nat, start: nat, subStart: int, subEnd: int, end: nat)
    requires level < 5 && NextPiece(level, start, subStart, subEnd, end)
    requires (end - 1) / Span(level + 1) == start / Span(level + 1)
    ensures start <= subStart < subEnd <= end
    ensures (subEnd - 1) / Span(level) == subStart / Span(level)
    ensures TableFor(level + 1, subStart / PAGE_SIZE) == TableFor(level + 1, start / PAGE_SIZE)
  {
    assert (subEnd - 1) / Span(level) == subStart / Span(level) by {
      match level case 0 => case 1 => case 2 => case 3 => case 4 =>
    }
    hide Span, TableFor, Prefix;
    PageMapBuffer.SameTable(level + 1, start, end, subStart / PAGE_SIZE);
  }

  /** Advancing both ends to their next boundaries gives the piece that follows. */
  lemma ThenPiece(level: nat, start: nat, subStart: int, subEnd: int, end: nat)
    requires level <= 5 && NextPiece(level, start, subStart, subEnd, end)
    ensures var managed := Span(level);
            var nextStart := (subStart / managed + 1) * managed;
            var boundary := (subEnd / managed + 1) * managed;
            && subStart < nextStart
            && (if nextStart < end
                then nextStart == subEnd &&
                     NextPiece(level, start, nextStart, if boundary < end then boundary else end, end)
                else subEnd == end)
  {
    match level case 0 => case 1 => case 2 => case 3 => case 4 => case 5 =>
  }

  /** What a range under one table needs: that table, and the tables below it. */
  lemma RangeNeeds(level: nat, start: nat, end: nat)
    requires 1 <= level <= 5 && start < end && (end - 1) / Span(level) == start / Span(level)
    ensures Needed(level, PagesOf(start, end)) ==
            {TableFor(level, start / PAGE_SIZE)} + Needed(level - 1, PagesOf(start, end))
  {
    forall p | p in PagesOf(start, end)
      ensures Prefix(level, p) == Prefix(level, start / PAGE_SIZE)
    {
      PageMapBuffer.SameTable(level, start, end, p);
    }
    assert start / PAGE_SIZE in PagesOf(start, end);
    NeededTop(level, PagesOf(start, end), Prefix(level, start / PAGE_SIZE));
  }
}
