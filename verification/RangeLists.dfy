/** Ascending lists of address ranges, each of some kind, and the merging of neighbours. */
module RangeLists {

  /** The addresses from `start` up to but not including `end`. */
  datatype Range<+K> = Range(start: nat, end: nat, kind: K)
  {
    predicate Has(a: nat) { start <= a < end }
  }

  ghost predicate NonEmpty<K>(rs: seq<Range<K>>) {
    forall i | 0 <= i < |rs| :: rs[i].start < rs[i].end
  }

  /** Non-empty, in ascending order, without overlaps. */
  ghost predicate Ascending<K>(rs: seq<Range<K>>) {
    && NonEmpty(rs)
    && forall i, j | 0 <= i < j < |rs| :: rs[i].end <= rs[j].start
  }

  /** No two neighbours touch and are of one kind. */
  ghost predicate Maximal<K>(rs: seq<Range<K>>) {
    forall i | 0 < i < |rs| :: rs[i - 1].end != rs[i].start || rs[i - 1].kind != rs[i].kind
  }

  ghost predicate Canonical<K>(rs: seq<Range<K>>) { Ascending(rs) && Maximal(rs) }

  /** Address `a` lies in a range of kind `k`. */
  ghost predicate At<K>(rs: seq<Range<K>>, a: nat, k: K) {
    exists i :: 0 <= i < |rs| && rs[i].Has(a) && rs[i].kind == k
  }

  /** Two lists describe every address alike. */
  ghost predicate SameCover<K(!new)>(rs: seq<Range<K>>, qs: seq<Range<K>>) {
    forall a: nat, k :: At(rs, a, k) <==> At(qs, a, k)
  }

  /** A canonical list is determined by what it says of each address. */
  lemma {:induction false} CanonicalUnique<K(!new)>(rs: seq<Range<K>>, qs: seq<Range<K>>)
    requires Canonical(rs) && Canonical(qs) && SameCover(rs, qs)
    ensures rs == qs
    decreases |rs|
  {
    hide Canonical, SameCover;
    assert Ascending(rs) && Ascending(qs) by { CanonicalAscending(rs); CanonicalAscending(qs); }
    hide Ascending, At;
    if rs == [] || qs == [] {
      BothEmpty(rs, qs);
    } else {
      SameCoverSymmetric(rs, qs);
      FirstStart(rs, qs);
      FirstStart(qs, rs);
      FirstEnd(rs, qs);
      FirstEnd(qs, rs);
      SameTail(rs, qs);
      CanonicalTail(rs);
      CanonicalTail(qs);
      CanonicalUnique(rs[1..], qs[1..]);
      assert rs == [rs[0]] + rs[1..] && qs == [qs[0]] + qs[1..];
    }
  }

  lemma HasFirst<K>(rs: seq<Range<K>>)
    requires Ascending(rs)
    ensures rs != [] ==> At(rs, rs[0].start, rs[0].kind)
  {
    if rs != [] {
      assert rs[0].Has(rs[0].start);
    }
  }

  lemma SameCoverSymmetric<K(!new)>(rs: seq<Range<K>>, qs: seq<Range<K>>)
    requires SameCover(rs, qs)
    ensures SameCover(qs, rs)
  {
  }

  lemma CanonicalAscending<K>(rs: seq<Range<K>>)
    requires Canonical(rs)
    ensures Ascending(rs)
  {
  }

  lemma CanonicalTail<K>(rs: seq<Range<K>>)
    requires Canonical(rs) && rs != []
    ensures Canonical(rs[1..])
  {
  }

  lemma BothEmpty<K(!new)>(rs: seq<Range<K>>, qs: seq<Range<K>>)
    requires Ascending(rs) && Ascending(qs) && SameCover(rs, qs)
    ensures rs == [] <==> qs == []
  {
    HasFirst(rs);
    HasFirst(qs);
    assert rs != [] ==> At(qs, rs[0].start, rs[0].kind);
    assert qs != [] ==> At(rs, qs[0].start, qs[0].kind);
  }

  lemma SameTail<K(!new)>(rs: seq<Range<K>>, qs: seq<Range<K>>)
    requires Ascending(rs) && Ascending(qs) && SameCover(rs, qs) && rs != [] && qs != []
    requires rs[0].end == qs[0].end
    ensures SameCover(rs[1..], qs[1..])
  {
    hide Ascending, At;
    TailCover(rs);
    TailCover(qs);
  }

  lemma FirstStart<K(!new)>(rs: seq<Range<K>>, qs: seq<Range<K>>)
    requires Ascending(rs) && Ascending(qs) && SameCover(rs, qs) && rs != [] && qs != []
    ensures qs[0].start <= rs[0].start
    ensures qs[0].start == rs[0].start ==> qs[0].kind == rs[0].kind
  {
    assert At(rs, rs[0].start, rs[0].kind);
    assert At(qs, rs[0].start, rs[0].kind);
  }

  lemma FirstEnd<K(!new)>(rs: seq<Range<K>>, qs: seq<Range<K>>)
    requires Canonical(rs) && Canonical(qs) && SameCover(rs, qs) && rs != [] && qs != []
    requires rs[0].start == qs[0].start && rs[0].kind == qs[0].kind
    ensures rs[0].end >= qs[0].end
  {
    var a := rs[0].end;
    NotAtFirstEnd(rs);
    assert At(qs, a, rs[0].kind) <==> At(rs, a, rs[0].kind);
    assert a < qs[0].end ==> qs[0].Has(a);
  }

  /** A maximal list does not go on with the same kind where its first range ends. */
  lemma NotAtFirstEnd<K>(rs: seq<Range<K>>)
    requires Canonical(rs) && rs != []
    ensures !At(rs, rs[0].end, rs[0].kind)
  {
    forall i | 0 <= i < |rs|
      ensures rs[i].Has(rs[0].end) ==> rs[i].kind != rs[0].kind
    {
      if i == 1 {
        assert rs[i - 1].end == rs[i].start ==> rs[i - 1].kind != rs[i].kind;
      } else if i > 1 {
        assert rs[1].start < rs[1].end <= rs[i].start;
      }
    }
  }

  /** What the list says beyond its first range. */
  lemma TailCover<K(!new)>(rs: seq<Range<K>>)
    requires Ascending(rs) && rs != []
    ensures forall a: nat, k :: At(rs[1..], a, k) <==> At(rs, a, k) && a >= rs[0].end
  {
    forall a: nat, k
      ensures At(rs[1..], a, k) <==> At(rs, a, k) && a >= rs[0].end
    {
      if At(rs[1..], a, k) {
        var i :| 0 <= i < |rs[1..]| && rs[1..][i].Has(a) && rs[1..][i].kind == k;
        assert rs[i + 1].Has(a) && rs[i + 1].kind == k;
      }
      if At(rs, a, k) && a >= rs[0].end {
        var i :| 0 <= i < |rs| && rs[i].Has(a) && rs[i].kind == k;
        assert rs[1..][i - 1] == rs[i];
      }
    }
  }

  // ----- Merging -----

  /** Appends a range, merging it with the last one when they touch and are of one kind. */
  function Add<K(==)>(rs: seq<Range<K>>, r: Range<K>): seq<Range<K>> {
    var n := |rs| - 1;
    if rs != [] && rs[n].end == r.start && rs[n].kind == r.kind
    then rs[..n] + [Range(rs[n].start, r.end, r.kind)]
    else rs + [r]
  }

  function Coalesce<K(==)>(rs: seq<Range<K>>): seq<Range<K>> {
    if rs == [] then []
    else Add(Coalesce(rs[..|rs| - 1]), rs[|rs| - 1])
  }

  /** Appending a range that begins no lower than the list ends keeps the list canonical. */
  lemma AddCanonical<K>(rs: seq<Range<K>>, r: Range<K>)
    requires Canonical(rs) && r.start < r.end
    requires rs != [] ==> rs[|rs| - 1].end <= r.start
    ensures Canonical(Add(rs, r)) && Add(rs, r)[|Add(rs, r)| - 1].end == r.end
  {
    var qs := Add(rs, r);
    var n := |rs| - 1;
    if qs != rs + [r] {
      assert forall i | 0 <= i < n :: qs[i] == rs[i];
      assert qs[n].start == rs[n].start;
    }
  }

  lemma AddCover<K>(rs: seq<Range<K>>, r: Range<K>, a: nat, k: K)
    requires Ascending(rs) && r.start < r.end
    ensures At(Add(rs, r), a, k) <==> At(rs, a, k) || (r.Has(a) && r.kind == k)
  {
    var qs := Add(rs, r);
    var n := |rs| - 1;
    if qs == rs + [r] {
      assert qs[|rs|] == r;
      if At(rs, a, k) {
        var i :| 0 <= i < |rs| && rs[i].Has(a) && rs[i].kind == k;
        assert qs[i] == rs[i];
      }
    } else {
      assert qs[n] == Range(rs[n].start, r.end, r.kind);
      if At(rs, a, k) {
        var i :| 0 <= i < |rs| && rs[i].Has(a) && rs[i].kind == k;
        assert if i == n then qs[n].Has(a) else qs[i] == rs[i];
      }
      if At(qs, a, k) {
        var i :| 0 <= i < |qs| && qs[i].Has(a) && qs[i].kind == k;
        assert if i == n then rs[n].Has(a) || r.Has(a) else rs[i] == qs[i];
      }
    }
  }

  /** Merging an ascending list gives the canonical list that describes every address alike. */
  lemma {:induction false} CoalesceCanonical<K(!new)>(rs: seq<Range<K>>)
    requires Ascending(rs)
    ensures Canonical(Coalesce(rs)) && SameCover(Coalesce(rs), rs)
    ensures rs == [] <==> Coalesce(rs) == []
    ensures rs != [] ==> Coalesce(rs)[|Coalesce(rs)| - 1].end == rs[|rs| - 1].end
  {
    if rs != [] {
      var n := |rs| - 1;
      var init := rs[..n];
      CoalesceCanonical(init);
      AddCanonical(Coalesce(init), rs[n]);
      forall a: nat, k
        ensures At(Coalesce(rs), a, k) <==> At(rs, a, k)
      {
        AddCover(Coalesce(init), rs[n], a, k);
        AtInit(rs, a, k);
        assert At(Coalesce(init), a, k) <==> At(init, a, k);
      }
    }
  }

  lemma AtInit<K>(rs: seq<Range<K>>, a: nat, k: K)
    requires rs != []
    ensures var n := |rs| - 1; At(rs, a, k) <==> At(rs[..n], a, k) || (rs[n].Has(a) && rs[n].kind == k)
  {
    var n := |rs| - 1;
    if At(rs, a, k) {
      var i :| 0 <= i < |rs| && rs[i].Has(a) && rs[i].kind == k;
      assert i < n ==> rs[..n][i] == rs[i];
    }
    if At(rs[..n], a, k) {
      var i :| 0 <= i < n && rs[..n][i].Has(a) && rs[..n][i].kind == k;
      assert rs[i] == rs[..n][i];
    }
  }

  /** Two ascending lists that describe every address alike merge to the same list. */
  lemma CoalesceSame<K(!new)>(rs: seq<Range<K>>, qs: seq<Range<K>>)
    requires Ascending(rs) && Ascending(qs) && SameCover(rs, qs)
    ensures Coalesce(rs) == Coalesce(qs)
  {
    CoalesceCanonical(rs);
    CoalesceCanonical(qs);
    assert SameCover(Coalesce(rs), Coalesce(qs)) by {
      forall a: nat, k
        ensures At(Coalesce(rs), a, k) <==> At(Coalesce(qs), a, k)
      {
        assert At(Coalesce(rs), a, k) <==> At(rs, a, k);
        assert At(rs, a, k) <==> At(qs, a, k);
        assert At(Coalesce(qs), a, k) <==> At(qs, a, k);
      }
    }
    CanonicalUnique(Coalesce(rs), Coalesce(qs));
  }

  /** The number of addresses that a list's ranges hold. */
  function Size<K>(rs: seq<Range<K>>): int {
    if rs == [] then 0 else Size(rs[..|rs| - 1]) + rs[|rs| - 1].end - rs[|rs| - 1].start
  }

  lemma AddSize<K>(rs: seq<Range<K>>, r: Range<K>)
    ensures Size(Add(rs, r)) == Size(rs) + r.end - r.start
  {
    hide Size;
    var n := |rs| - 1;
    if rs != [] && rs[n].end == r.start && rs[n].kind == r.kind {
      SizeAppend(rs[..n], Range(rs[n].start, r.end, r.kind));
      SizeAppend(rs[..n], rs[n]);
      assert rs[..n] + [rs[n]] == rs;
    } else {
      SizeAppend(rs, r);
    }
  }

  lemma SizeAppend<K>(rs: seq<Range<K>>, r: Range<K>)
    ensures Size(rs + [r]) == Size(rs) + r.end - r.start
  {
    assert (rs + [r])[..|rs|] == rs;
  }

  lemma {:induction false} CoalesceSize<K>(rs: seq<Range<K>>)
    ensures Size(Coalesce(rs)) == Size(rs)
  {
    if rs != [] {
      CoalesceSize(rs[..|rs| - 1]);
      AddSize(Coalesce(rs[..|rs| - 1]), rs[|rs| - 1]);
    }
  }

  /** Every range begins and ends on a multiple of `unit`. */
  ghost predicate Whole<K>(rs: seq<Range<K>>, unit: nat)
    requires unit > 0
  {
    forall i | 0 <= i < |rs| :: rs[i].start % unit == 0 && rs[i].end % unit == 0
  }

  lemma {:induction false} CoalesceWhole<K>(rs: seq<Range<K>>, unit: nat)
    requires unit > 0 && Whole(rs, unit)
    ensures Whole(Coalesce(rs), unit)
  {
    if rs != [] {
      var n := |rs| - 1;
      CoalesceWhole(rs[..n], unit);
      AddWhole(Coalesce(rs[..n]), rs[n], unit);
    }
  }

  lemma AddWhole<K>(rs: seq<Range<K>>, r: Range<K>, unit: nat)
    requires unit > 0 && Whole(rs, unit) && r.start % unit == 0 && r.end % unit == 0
    ensures Whole(Add(rs, r), unit)
  {
  }
}
