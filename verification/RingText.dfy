/** Text kept in a ring of characters between two positions. */
module RingText {
  import opened BuiltInBitmapFont

  const CAPACITY: nat := 65536

  /** How many steps lead from `a` to `b` around the ring. */
  function Distance(a: nat, b: nat): (r: nat)
    requires a < CAPACITY && b < CAPACITY
    ensures r < CAPACITY
  {
    if a <= b then b - a else b - a + CAPACITY
  }

  /** The position `i` steps after `a`. */
  function After(a: nat, i: nat): (r: nat)
    requires a < CAPACITY && i < CAPACITY
    ensures r < CAPACITY
  {
    if a + i < CAPACITY then a + i else a + i - CAPACITY
  }

  function Contents(ring: seq<Char>, from: nat, to: nat): (r: seq<Char>)
    requires |ring| == CAPACITY && from < CAPACITY && to < CAPACITY
    ensures |r| == Distance(from, to)
  {
    seq(Distance(from, to), i requires 0 <= i < CAPACITY => ring[After(from, i)])
  }

  /** What a full ring can hold of `s`: its last characters. */
  function Last(s: seq<Char>): seq<Char> {
    if |s| < CAPACITY then s else s[|s| - (CAPACITY - 1)..]
  }

  lemma StepIsNext(a: nat)
    requires a < CAPACITY
    ensures (a + 1) % CAPACITY == After(a, 1)
  {
  }

  lemma AfterDistance(from: nat, to: nat, i: nat)
    requires from < CAPACITY && to < CAPACITY && i < CAPACITY
    ensures After(from, i) == to <==> i == Distance(from, to)
  {
  }

  lemma AfterAfter(from: nat, i: nat, j: nat)
    requires from < CAPACITY && i + j < CAPACITY
    ensures After(After(from, i), j) == After(from, i + j)
  {
  }

  /** Writing one character at the end. */
  lemma Append(ring: seq<Char>, from: nat, to: nat, c: Char)
    requires |ring| == CAPACITY && from < CAPACITY && to < CAPACITY && After(to, 1) != from
    ensures Contents(ring[to := c], from, After(to, 1)) == Contents(ring, from, to) + [c]
  {
    var n := Distance(from, to);
    assert Distance(from, After(to, 1)) == n + 1;
    forall i: nat | i <= n ensures Contents(ring[to := c], from, After(to, 1))[i] == (Contents(ring, from, to) + [c])[i] {
      AfterDistance(from, to, i);
    }
  }

  /** Writing one character into a full ring, whose start then moves on. */
  lemma Overwrite(ring: seq<Char>, from: nat, to: nat, c: Char)
    requires |ring| == CAPACITY && from < CAPACITY && to < CAPACITY && After(to, 1) == from
    ensures Contents(ring[to := c], After(from, 1), from) == Contents(ring, from, to)[1..] + [c]
  {
    var n := CAPACITY - 1;
    assert Distance(from, to) == n && Distance(After(from, 1), from) == n;
    forall i: nat | i < n ensures Contents(ring[to := c], After(from, 1), from)[i] == (Contents(ring, from, to)[1..] + [c])[i] {
      AfterAfter(from, 1, i);
      AfterDistance(from, to, i + 1);
    }
  }

  lemma Put(ring: seq<Char>, from: nat, to: nat, c: Char)
    requires |ring| == CAPACITY && from < CAPACITY && to < CAPACITY
    ensures
      var next := After(to, 1);
      Contents(ring[to := c], if next == from then After(from, 1) else from, next) == Last(Contents(ring, from, to) + [c])
  {
    hide Contents;
    var s := Contents(ring, from, to);
    if After(to, 1) == from {
      Overwrite(ring, from, to, c);
      assert (s + [c])[1..] == s[1..] + [c];
    } else {
      Append(ring, from, to, c);
    }
  }

  lemma Drop(ring: seq<Char>, from: nat, to: nat, n: nat)
    requires |ring| == CAPACITY && from < CAPACITY && to < CAPACITY && n <= Distance(from, to)
    ensures Contents(ring, After(from, n), to) == Contents(ring, from, to)[n..]
  {
  }

  lemma Shorten(ring: seq<Char>, from: nat, to: nat)
    requires |ring| == CAPACITY && from < CAPACITY && to < CAPACITY && from != to
    ensures
      var previous := if to == 0 then CAPACITY - 1 else to - 1;
      Contents(ring, from, previous) == Contents(ring, from, to)[..Distance(from, to) - 1]
  {
  }

  /** Keeping the last characters after each of two messages keeps the last characters of both. */
  lemma LastTwice(s: seq<Char>, t: seq<Char>)
    ensures Last(Last(s) + t) == Last(s + t)
  {
  }
}
