/** Bitwise operations on machine words held as naturals. */
module WordOps {

  /** The bitwise OR of two words. */
  function BitOr(a: nat, b: nat): nat
    decreases a + b
  {
    if a == 0 then b
    else if b == 0 then a
    else 2 * BitOr(a / 2, b / 2) + (if a % 2 == 1 || b % 2 == 1 then 1 else 0)
  }

  lemma {:induction false} BitOrSelf(a: nat)
    ensures BitOr(a, a) == a
  {
    if a != 0 {
      BitOrSelf(a / 2);
    }
  }

  /** The last bit of a bitwise OR, and the rest. */
  lemma BitOrStep(a: nat, b: nat)
    ensures BitOr(a, b) == 2 * BitOr(a / 2, b / 2) + (if a % 2 == 1 || b % 2 == 1 then 1 else 0)
  {
  }

  /** Setting the two low bits of a word in which they are clear adds 3. */
  lemma BitOrLowBits(a: nat)
    requires a % 4 == 0
    ensures BitOr(a, 3) == a + 3
  {
    hide BitOr;
    var x := a / 4;
    assert a / 2 == 2 * x && (2 * x) / 2 == x;
    BitOrStep(a, 3);
    BitOrStep(2 * x, 1);
    BitOrZero(x);
  }

  lemma BitOrZero(a: nat)
    ensures BitOr(a, 0) == a == BitOr(0, a)
  {
  }

  /** ORing an address or the two low bits into an entry that already holds both changes nothing. */
  lemma BitOrAgain(a: nat)
    requires a % 4 == 0
    ensures BitOr(a + 3, a) == a + 3
    ensures BitOr(a + 3, 3) == a + 3
  {
    hide BitOr;
    var x := a / 4;
    assert (a + 3) / 2 == 2 * x + 1 && (2 * x + 1) / 2 == x && a / 2 == 2 * x;
    BitOrStep(a + 3, a);
    BitOrStep(2 * x + 1, 2 * x);
    BitOrSelf(x);
    BitOrStep(a + 3, 3);
    BitOrStep(2 * x + 1, 1);
    BitOrZero(x);
  }

  // ----- Words whose bits do not overlap -----

  predicate IsPowerOf2(m: nat) {
    m == 1 || (m > 1 && m % 2 == 0 && IsPowerOf2(m / 2))
  }

  lemma Doubled(m: nat)
    requires IsPowerOf2(m)
    ensures IsPowerOf2(2 * m)
  {
    assert 2 * m / 2 == m;
  }

  /** A word shifted past the bits of another is or-ed to it by adding. */
  lemma {:induction false} BitOrShifted(a: nat, b: nat, m: nat)
    requires IsPowerOf2(m) && a < m
    ensures BitOr(a, b * m) == a + b * m
    decreases m
  {
    if m == 1 {
      BitOrZero(b);
    } else {
      HalfProduct(b, m);
      BitOrShifted(a / 2, b, m / 2);
      BitOrStep(a, b * m);
    }
  }

  lemma HalfProduct(b: nat, m: nat)
    requires m % 2 == 0
    ensures b * m % 2 == 0 && b * m / 2 == b * (m / 2)
  {
    assert b * m == 2 * (b * (m / 2));
  }
}
