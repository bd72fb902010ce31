/** The shape of a page map under construction: which tables the paging structures reach, and that
    growing a map never changes a translation it already had. */
module PageMapStructure {
  import opened Wrappers
  import opened Paging
  import opened PageMapState

  predicate IsPath(path: seq<nat>) {
    forall i | 0 <= i < |path| :: path[i] < 512
  }

  /** The table reached from the root by taking the given entries in turn. */
  function Follow(memory: nat -> nat, root: nat, path: seq<nat>): Option<nat> {
    if path == [] then Some(root)
    else
      var n := |path| - 1;
      match Follow(memory, root, path[..n])
      case None => None
      case Some(table) => TableBelow(memory(table + 8 * path[n]))
  }

  /** The table to which an entry leads. */
  function TableBelow(entry: nat): Option<nat> {
    if Present(entry) then Some(FrameAddress(entry, PAGE_SIZE)) else None
  }

  /** The table that a path of entries names. */
  function KeyOfPath(levels: nat, path: seq<nat>): (k: Key)
    requires |path| <= levels
    ensures k.level == levels - |path|
  {
    if path == [] then Key(levels, 0)
    else ChildOf(KeyOfPath(levels, path[..|path| - 1]), path[|path| - 1])
  }

  lemma {:induction false} KeyOfPathInjective(levels: nat, p: seq<nat>, q: seq<nat>)
    requires |p| <= levels && |q| <= levels && IsPath(p) && IsPath(q)
    requires KeyOfPath(levels, p) == KeyOfPath(levels, q)
    ensures p == q
  {
    assert |p| == |q|;
    if p != [] {
      var n := |p| - 1;
      var a, b := KeyOfPath(levels, p[..n]), KeyOfPath(levels, q[..n]);
      assert a.prefix * 512 + p[n] == b.prefix * 512 + q[n];
      KeyOfPathInjective(levels, p[..n], q[..n]);
      assert p == p[..n] + [p[n]] && q == q[..n] + [q[n]];
    }
  }

  lemma ReadEntry(memory: nat -> nat, s: State, k: Key, i: nat)
    requires s.Consistent() && Holds(memory, s) && k in s.tables && k.level > 1 && i < 512
    ensures memory(AddressOf(s, k) + 8 * i) ==
            if ChildOf(k, i) in s.tables then AddressOf(s, ChildOf(k, i)) + 3 else 0
  {
    hide Holds;
    assert s.EntryOk(k, i);
    HoldsAt(memory, s, s.tables[k], i);
  }

  /** A path leads to a table exactly when the table it names exists, and then to that table. */
  lemma {:induction false} FollowReaches(memory: nat -> nat, s: State, path: seq<nat>)
    requires s.Consistent() && Holds(memory, s)
    requires IsPath(path) && |path| < s.levels
    ensures var k := KeyOfPath(s.levels, path);
            Follow(memory, s.base, path) == if k in s.tables then Some(AddressOf(s, k)) else None
  {
    hide Holds, TableBelow, State.LayoutOk;
    if path != [] {
      var n := |path| - 1;
      FollowReaches(memory, s, path[..n]);
      var parent := KeyOfPath(s.levels, path[..n]);
      if parent in s.tables {
        ReadTable(memory, s, parent, path[n]);
      } else {
        BelowExisting(s, parent, path[n]);
      }
    }
  }

  lemma ReadTable(memory: nat -> nat, s: State, k: Key, i: nat)
    requires s.Consistent() && Holds(memory, s) && k in s.tables && k.level > 1 && i < 512
    ensures TableBelow(memory(AddressOf(s, k) + 8 * i)) ==
            if ChildOf(k, i) in s.tables then Some(AddressOf(s, ChildOf(k, i))) else None
  {
    hide Holds, FrameAddress, State.EntryOk;
    ReadEntry(memory, s, k, i);
    if ChildOf(k, i) in s.tables {
      TableAddressOk(s, ChildOf(k, i));
      EntryDecodes(AddressOf(s, ChildOf(k, i)));
    }
  }

  /** Every table that a path of entries reaches is page-aligned, lies within the tables taken so far,
      and is reached by that path alone. */
  lemma ReachedTables(memory: nat -> nat, s: State, p: seq<nat>, q: seq<nat>)
    requires s.Consistent() && Holds(memory, s)
    requires IsPath(p) && IsPath(q) && |p| < s.levels && |q| < s.levels
    requires Follow(memory, s.base, p).Some?
    ensures var table := Follow(memory, s.base, p).value;
            && table % PAGE_SIZE == 0
            && s.base <= table && table + PAGE_SIZE <= s.base + PAGE_SIZE * |s.order| <= s.base + 8 * |s.words|
            && (Follow(memory, s.base, q) == Some(table) <==> q == p)
  {
    hide Follow, Holds;
    hide AddressOf, State.LayoutOk, State.KeyOk, KeyOfPath;
    FollowReaches(memory, s, p);
    FollowReaches(memory, s, q);
    var k, l := KeyOfPath(s.levels, p), KeyOfPath(s.levels, q);
    TableWithin(s, k);
    if l in s.tables && AddressOf(s, l) == AddressOf(s, k) {
      OneAddress(s, k, l);
      KeyOfPathInjective(s.levels, p, q);
    }
  }

  lemma TableWithin(s: State, k: Key)
    requires s.KeysOk() && s.LayoutOk() && k in s.tables
    ensures AddressOf(s, k) % PAGE_SIZE == 0 && s.base <= AddressOf(s, k)
    ensures AddressOf(s, k) + PAGE_SIZE <= s.base + PAGE_SIZE * |s.order| <= s.base + 8 * |s.words|
  {
    TableAddressOk(s, k);
    assert s.KeyOk(k);
  }

  lemma OneAddress(s: State, k: Key, l: Key)
    requires s.KeysOk() && k in s.tables && l in s.tables && AddressOf(s, k) == AddressOf(s, l)
    ensures k == l
  {
    assert s.KeyOk(k) && s.KeyOk(l);
  }

  /** A map that has grown keeps every translation it had. */
  lemma GrowthPreserves(memory: nat -> nat, s: State, memory1: nat -> nat, s1: State, va: nat)
    requires s.Consistent() && Holds(memory, s) && s1.Consistent() && Holds(memory1, s1)
    requires s.base == s1.base && s.levels == s1.levels && s.pages <= s1.pages
    requires va < Span(s.levels)
    ensures Walk(memory, s.levels, s.base, va) == Fault
            || Walk(memory1, s1.levels, s1.base, va) == Walk(memory, s.levels, s.base, va)
  {
    hide Walk, Holds, State.Consistent;
    assert s.levels <= 5 && s1.levels <= 5 by { LevelsBound(s); }
    IdentityExactly(memory, s, va);
    IdentityExactly(memory1, s1, va);
  }

  lemma LevelsBound(s: State)
    requires s.Consistent()
    ensures 2 <= s.levels <= 5
  {
  }

  /** Below 2^48, maps of the same pages with 4 and with 5 levels translate alike. */
  lemma FourAndFiveAgree(memory4: nat -> nat, s4: State, memory5: nat -> nat, s5: State, va: nat)
    requires s4.Consistent() && Holds(memory4, s4) && s4.levels == 4
    requires s5.Consistent() && Holds(memory5, s5) && s5.levels == 5
    requires s4.pages == s5.pages && va < Span(4)
    ensures Walk(memory4, 4, s4.base, va) == Walk(memory5, 5, s5.base, va)
  {
    hide Walk, Holds, State.Consistent;
    IdentityExactly(memory4, s4, va);
    IdentityExactly(memory5, s5, va);
  }
}
