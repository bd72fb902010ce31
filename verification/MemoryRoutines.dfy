/** The kernel's memset, memcpy and memcmp. Memory is an array of bytes indexed by address, address zero
    being the null pointer; words are stored least significant byte first. */
module MemoryRoutines {
  import opened Bytes
  import opened Division
  import opened WordOps

  // ---- Words and their bytes ----

  function FromBytes(s: seq<Byte>): nat {
    if s == [] then 0 else s[0] + 256 * FromBytes(s[1..])
  }

  function ToBytes(w: nat, n: nat): (s: seq<Byte>)
    ensures |s| == n
  {
    if n == 0 then [] else [w % 256] + ToBytes(w / 256, n - 1)
  }

  /** Loading a word and storing it again stores the same bytes. */
  lemma {:induction false} StoreLoaded(s: seq<Byte>)
    ensures ToBytes(FromBytes(s), |s|) == s
  {
    if s != [] {
      StoreLoaded(s[1..]);
      QuotientUnique(FromBytes(s), 256, FromBytes(s[1..]), s[0]);
      assert s == [s[0]] + s[1..];
    }
  }

  /** Words differ if and only if some of their bytes do. */
  lemma WordsDifferIff(s: seq<Byte>, t: seq<Byte>)
    requires |s| == |t|
    ensures FromBytes(s) == FromBytes(t) <==> s == t
  {
    StoreLoaded(s);
    StoreLoaded(t);
  }

  function Splat(v: Byte, n: nat): seq<Byte> {
    if n == 0 then [] else [v] + Splat(v, n - 1)
  }

  lemma {:induction false} SplatAt(v: Byte, n: nat, k: nat)
    requires k < n
    ensures |Splat(v, n)| == n && Splat(v, n)[k] == v
  {
    if k > 0 { SplatAt(v, n - 1, k - 1); } else if n > 1 { SplatAt(v, n - 1, 0); }
  }

  /** The word that memset stores: the byte, shifted to each of eight positions and or-ed together. */
  function EightFold(v: Byte): nat {
    var w2 := BitOr(v, v * 0x100);
    var w3 := BitOr(w2, v * 0x1_0000);
    var w4 := BitOr(w3, v * 0x100_0000);
    var w5 := BitOr(w4, v * 0x1_0000_0000);
    var w6 := BitOr(w5, v * 0x100_0000_0000);
    var w7 := BitOr(w6, v * 0x1_0000_0000_0000);
    BitOr(w7, v * 0x100_0000_0000_0000)
  }

  lemma EightBitsUp(m: nat)
    requires IsPowerOf2(m)
    ensures IsPowerOf2(256 * m)
  {
    hide IsPowerOf2;
    Doubled(m); Doubled(2 * m); Doubled(4 * m); Doubled(8 * m);
    Doubled(16 * m); Doubled(32 * m); Doubled(64 * m); Doubled(128 * m);
  }

  /** The shifted copies do not overlap, so that the word is their sum. */
  lemma EightFoldSum(v: Byte)
    ensures EightFold(v) == v + v * 0x100 + v * 0x1_0000 + v * 0x100_0000 + v * 0x1_0000_0000 + v * 0x100_0000_0000 +
                            v * 0x1_0000_0000_0000 + v * 0x100_0000_0000_0000
  {
    assert IsPowerOf2(1);
    hide BitOr, IsPowerOf2;
    EightBitsUp(1); EightBitsUp(0x100); EightBitsUp(0x1_0000); EightBitsUp(0x100_0000);
    EightBitsUp(0x1_0000_0000); EightBitsUp(0x100_0000_0000); EightBitsUp(0x1_0000_0000_0000);
    BitOrShifted(v, v, 0x100);
    BitOrShifted(v + v * 0x100, v, 0x1_0000);
    BitOrShifted(v + v * 0x100 + v * 0x1_0000, v, 0x100_0000);
    var w4 := v + v * 0x100 + v * 0x1_0000 + v * 0x100_0000;
    BitOrShifted(w4, v, 0x1_0000_0000);
    BitOrShifted(w4 + v * 0x1_0000_0000, v, 0x100_0000_0000);
    BitOrShifted(w4 + v * 0x1_0000_0000 + v * 0x100_0000_0000, v, 0x1_0000_0000_0000);
    BitOrShifted(w4 + v * 0x1_0000_0000 + v * 0x100_0000_0000 + v * 0x1_0000_0000_0000, v, 0x100_0000_0000_0000);
  }

  lemma EightFoldBytes(v: Byte)
    ensures ToBytes(EightFold(v), 8) == Splat(v, 8)
  {
    hide FromBytes, Splat, ToBytes, EightFold;
    EightFoldSum(v);
    SplatAt(v, 8, 0);
    StoreLoaded(Splat(v, 8));
    SplatWord(v, 1); SplatWord(v, 2); SplatWord(v, 3); SplatWord(v, 4);
    SplatWord(v, 5); SplatWord(v, 6); SplatWord(v, 7); SplatWord(v, 8);
  }

  lemma SplatWord(v: Byte, n: nat)
    requires n > 0
    ensures FromBytes(Splat(v, n)) == v + 256 * FromBytes(Splat(v, n - 1))
    ensures n == 1 ==> FromBytes(Splat(v, n)) == v
  {
    assert Splat(v, n)[1..] == Splat(v, n - 1);
  }

  method StoreWord(mem: array<Byte>, at: nat, n: nat, w: nat)
    requires at + n <= mem.Length
    modifies mem
    ensures forall i: nat | i < mem.Length :: mem[i] == if at <= i < at + n then ToBytes(w, n)[i - at] else old(mem[i])
  {
    var s := ToBytes(w, n);
    forall k | 0 <= k < n { mem[at + k] := s[k]; }
  }

  // ---- memset ----

  /** Sets exactly the given bytes, whatever the alignment. */
  method MemSet(mem: array<Byte>, dest: nat, ch: int, count: nat)
    requires dest + count <= mem.Length
    modifies mem
    ensures forall i: nat | i < mem.Length ::
              mem[i] == if dest != 0 && dest <= i < dest + count then ch % 256 else old(mem[i])
  {
    if count == 0 || dest == 0 { return; }
    var valueToSet: Byte := ch % 256;
    var current: nat := dest;
    var copiedBytes: nat := 0;
    var bytesToAlign := current % 8;
    if bytesToAlign != 0 || count < bytesToAlign + 8 {
      var numBytesToCopy := if count < bytesToAlign + 8 then count else bytesToAlign;
      SetBytes(mem, current, valueToSet, numBytesToCopy);
      current := current + numBytesToCopy;
      copiedBytes := copiedBytes + numBytesToCopy;
    }
    if copiedBytes == count { return; }
    var numFitting8Bytes := (count - copiedBytes) / 8;
    SetWords(mem, current, valueToSet, numFitting8Bytes);
    current := current + numFitting8Bytes * 8;
    copiedBytes := copiedBytes + numFitting8Bytes * 8;
    SetBytes(mem, current, valueToSet, count - copiedBytes);
  }

  method SetBytes(mem: array<Byte>, dest: nat, v: Byte, n: nat)
    requires dest + n <= mem.Length
    modifies mem
    ensures forall i: nat | i < mem.Length :: mem[i] == if dest <= i < dest + n then v else old(mem[i])
  {
    var current: nat := dest;
    while current < dest + n
      invariant dest <= current <= dest + n
      invariant forall i: nat | i < mem.Length :: mem[i] == if dest <= i < current then v else old(mem[i])
    {
      mem[current] := v;
      current := current + 1;
    }
  }

  method SetWords(mem: array<Byte>, dest: nat, v: Byte, n: nat)
    requires dest + n * 8 <= mem.Length
    modifies mem
    ensures forall i: nat | i < mem.Length :: mem[i] == if dest <= i < dest + n * 8 then v else old(mem[i])
  {
    hide ToBytes, Splat, EightFold;
    EightFoldBytes(v);
    forall k: nat | k < 8 ensures ToBytes(EightFold(v), 8)[k] == v { SplatAt(v, 8, k); }
    var k: nat := 0;
    while k < n
      invariant k <= n
      invariant forall i: nat | i < mem.Length :: mem[i] == if dest <= i < dest + k * 8 then v else old(mem[i])
    {
      StoreWord(mem, dest + k * 8, 8, EightFold(v));
      k := k + 1;
    }
  }

  // ---- memcpy ----

  /** Copying forward is wrong only if the destination begins inside the source; memmove is called then. */
  predicate ForwardSafe(dest: nat, src: nat, count: nat) {
    dest <= src || src + count <= dest
  }

  /** Copies exactly the given bytes, as they were before, whatever the alignments. */
  method MemCpy(mem: array<Byte>, dest: nat, src: nat, count: nat)
    requires dest + count <= mem.Length && src + count <= mem.Length && ForwardSafe(dest, src, count)
    modifies mem
    ensures forall i: nat | i < mem.Length ::
              mem[i] == if dest != 0 && src != 0 && dest <= i < dest + count then old(mem[src + (i - dest)]) else old(mem[i])
  {
    if dest == 0 || src == 0 || count == 0 { return; }
    if src == dest { return; }
    if dest % 8 == src % 8 && count >= 8 {
      CopyByWords(mem, dest, src, count, 8);
    } else if dest % 4 == src % 4 && count >= 4 {
      CopyByWords(mem, dest, src, count, 4);
    } else if dest % 2 == src % 2 && count >= 2 {
      CopyByWords(mem, dest, src, count, 2);
    } else {
      CopyBytes(mem, dest, src, count, 0, count);
    }
  }

  /** The three branches that copy words; they differ only in the size of a word. */
  method CopyByWords(mem: array<Byte>, dest: nat, src: nat, count: nat, size: nat)
    requires dest + count <= mem.Length && src + count <= mem.Length && ForwardSafe(dest, src, count) && dest != src
    requires size in {2, 4, 8} && dest % size == src % size && count >= size
    modifies mem
    ensures forall i: nat | i < mem.Length ::
              mem[i] == if dest <= i < dest + count then old(mem[src + (i - dest)]) else old(mem[i])
  {
    hide WordsEnd;
    var numAlignBytes := dest % size;
    CopyBytes(mem, dest, src, count, 0, numAlignBytes);
    var wordsEnd := WordsEnd(numAlignBytes, count, size);
    CopyWords(mem, dest, src, count, numAlignBytes, wordsEnd, size);
    CopyBytes(mem, dest, src, count, wordsEnd, (count - numAlignBytes) % size);
  }

  /** Where the whole words between two offsets end; the rest is less than a word. */
  function WordsEnd(from: nat, count: nat, size: nat): (end: nat)
    requires from <= count && 0 < size
    ensures from <= end <= count && (end - from) % size == 0 && end + (count - from) % size == count
  {
    var words := (count - from) / size * size;
    EuclideanDivision(count - from, size);
    ScaleMonotone(0, (count - from) / size, size);
    QuotientUnique(words, size, (count - from) / size, 0);
    from + words
  }

  /** Copies bytes `from` to `from + n` of the whole copy, given that the source still holds them. */
  method CopyBytes(mem: array<Byte>, dest: nat, src: nat, count: nat, from: nat, n: nat)
    requires dest + count <= mem.Length && src + count <= mem.Length && ForwardSafe(dest, src, count)
    requires from + n <= count
    modifies mem
    ensures forall i: nat | i < mem.Length ::
              mem[i] == if dest + from <= i < dest + from + n then old(mem[src + (i - dest)]) else old(mem[i])
  {
    var k: nat := from;
    while k != from + n
      invariant from <= k <= from + n
      invariant forall i: nat | i < mem.Length ::
          mem[i] == if dest + from <= i < dest + k then old(mem[src + (i - dest)]) else old(mem[i])
    {
      mem[dest + k] := mem[src + k];
      k := k + 1;
    }
  }

  /** Equally aligned pointers that differ are at least a word apart, so a word's source is intact. */
  method CopyWords(mem: array<Byte>, dest: nat, src: nat, count: nat, from: nat, end: nat, size: nat)
    requires dest + count <= mem.Length && src + count <= mem.Length && ForwardSafe(dest, src, count) && dest != src
    requires size in {2, 4, 8} && dest % size == src % size && from <= end <= count && (end - from) % size == 0
    modifies mem
    ensures forall i: nat | i < mem.Length ::
              mem[i] == if dest + from <= i < dest + end then old(mem[src + (i - dest)]) else old(mem[i])
  {
    hide ToBytes, FromBytes;
    if dest < src { WordApart(dest, src, size); }
    var at: nat := from;
    while at != end
      invariant from <= at <= end && (end - at) % size == 0
      invariant forall i: nat | i < mem.Length ::
          mem[i] == if dest + from <= i < dest + at then old(mem[src + (i - dest)]) else old(mem[i])
    {
      NextWord(end - at, size);
      var bytes := mem[src + at..src + at + size];
      StoreLoaded(bytes);
      StoreWord(mem, dest + at, size, FromBytes(bytes));
      at := at + size;
    }
  }

  lemma NextWord(left: nat, size: nat)
    requires 0 < left && 0 < size && left % size == 0
    ensures size <= left && (left - size) % size == 0
  {
    var q := left / size;
    EuclideanDivision(left, size);
    ScaleMonotone(1, q, size);
    ScaleDifference(1, q, size);
    QuotientUnique(left - size, size, q - 1, 0);
  }

  lemma WordApart(dest: nat, src: nat, size: nat)
    requires dest < src && 0 < size && dest % size == src % size
    ensures size <= src - dest
  {
    EuclideanDivision(dest, size);
    EuclideanDivision(src, size);
    ScaleDifference(dest / size, src / size, size);
    MultipleBound(src / size - dest / size, size);
  }

  /** The bytes copied or set one by one before the words are as many as the address is past a word's
      boundary. So the words are aligned if and only if twice that number is: for 8-byte words, if and
      only if the address is a multiple of 4. */
  lemma WordsAlignedIff(address: nat)
    ensures (address + address % 8) % 8 == 0 <==> address % 4 == 0
    ensures (address + address % 4) % 4 == 0 <==> address % 2 == 0
    ensures (address + address % 2) % 2 == 0
  {
    EightAligned(address / 8, address % 8);
    FourAligned(address / 4, address % 4);
    QuotientUnique(address + address % 2, 2, address / 2 + address % 2, 0);
  }

  lemma EightAligned(q: nat, r: nat)
    requires r < 8
    ensures (8 * q + r + r) % 8 == 0 <==> (8 * q + r) % 4 == 0
  {
    QuotientUnique(8 * q + r, 4, if r < 4 then 2 * q else 2 * q + 1, if r < 4 then r else r - 4);
    QuotientUnique(8 * q + r + r, 8, if r < 4 then q else q + 1, if r < 4 then 2 * r else 2 * r - 8);
  }

  lemma FourAligned(q: nat, r: nat)
    requires r < 4
    ensures (4 * q + r + r) % 4 == 0 <==> (4 * q + r) % 2 == 0
  {
    QuotientUnique(4 * q + r, 2, if r < 2 then 2 * q else 2 * q + 1, if r < 2 then r else r - 2);
    QuotientUnique(4 * q + r + r, 4, if r < 2 then q else q + 1, if r < 2 then 2 * r else 2 * r - 4);
  }

  // ---- memcmp ----

  function Difference(a: Byte, b: Byte): int {
    a as int - b as int
  }

  /** The comparison's result: the difference of the first two bytes that differ, or zero. */
  function Compared(a: seq<Byte>, b: seq<Byte>): int
    requires |a| == |b|
  {
    if a == [] then 0 else if a[0] != b[0] then Difference(a[0], b[0]) else Compared(a[1..], b[1..])
  }

  /** The result of a comparison is decided at the first difference. */
  lemma {:induction false} FoundAt(a: seq<Byte>, b: seq<Byte>, k: nat)
    requires k < |a| == |b| && a[k] != b[k] && a[..k] == b[..k]
    ensures Compared(a, b) == Difference(a[k], b[k])
  {
    if k > 0 {
      assert a[0] == a[..k][0] == b[..k][0] && a[1..][..k - 1] == a[..k][1..] && b[1..][..k - 1] == b[..k][1..];
      FoundAt(a[1..], b[1..], k - 1);
    }
  }

  /** The result is zero if and only if the bytes are equal, and orders them otherwise. */
  lemma {:induction false} ComparedIsOrder(a: seq<Byte>, b: seq<Byte>)
    requires |a| == |b|
    ensures Compared(a, b) == 0 <==> a == b
    ensures Compared(a, b) == -Compared(b, a)
  {
    if a != [] {
      ComparedIsOrder(a[1..], b[1..]);
      assert a == [a[0]] + a[1..] && b == [b[0]] + b[1..];
    }
  }

  /** The result is negative if and only if the left side comes first: where the two sides first differ, its
      byte is the smaller one. Its value is the difference of the two bytes there. */
  lemma {:induction false} NegativeIff(a: seq<Byte>, b: seq<Byte>)
    requires |a| == |b|
    ensures Compared(a, b) < 0 <==> exists k: nat :: k < |a| && a[..k] == b[..k] && a[k] < b[k]
    ensures forall k: nat | k < |a| && a[..k] == b[..k] && a[k] != b[k] :: Compared(a, b) == a[k] as int - b[k] as int
  {
    forall k: nat | k < |a| && a[..k] == b[..k] && a[k] != b[k]
      ensures Compared(a, b) == a[k] as int - b[k] as int
    {
      FoundAt(a, b, k);
    }
    if a == b {
      ComparedIsOrder(a, b);
    } else {
      var k := FirstDifference(a, b);
      FoundAt(a, b, k);
    }
  }

  lemma {:induction false} FirstDifference(a: seq<Byte>, b: seq<Byte>) returns (k: nat)
    requires |a| == |b| && a != b
    ensures k < |a| && a[..k] == b[..k] && a[k] != b[k]
  {
    if a[0] != b[0] {
      k := 0;
    } else {
      assert a == [a[0]] + a[1..] && b == [b[0]] + b[1..];
      k := FirstDifference(a[1..], b[1..]);
      assert a[..k + 1] == [a[0]] + a[1..][..k] && b[..k + 1] == [b[0]] + b[1..][..k];
      k := k + 1;
    }
  }

  /** Compares two regions of memory; `a` and `b` are their bytes, which are only read. */
  method MemCmp(mem: array<Byte>, lhs: nat, rhs: nat, count: nat) returns (r: int)
    requires lhs + count <= mem.Length && rhs + count <= mem.Length
    ensures r == if lhs == 0 || rhs == 0 then 0 else Compared(mem[lhs..lhs + count], mem[rhs..rhs + count])
  {
    if lhs == 0 || rhs == 0 { return 0; }
    var a, b := mem[lhs..lhs + count], mem[rhs..rhs + count];
    if count == 0 || lhs == rhs {
      ComparedIsOrder(a, b);
      return 0;
    }
    if lhs % 8 == rhs % 8 && count >= 8 {
      r := CompareByWords(a, b, lhs, 8);
    } else if lhs % 4 == rhs % 4 && count >= 4 {
      r := CompareByWords(a, b, lhs, 4);
    } else if lhs % 2 == rhs % 2 && count >= 2 {
      r := CompareByWords(a, b, lhs, 2);
    } else {
      var found;
      found, r := CompareBytes(a, b, 0, count);
    }
  }

  /** The three branches that compare words. */
  method CompareByWords(a: seq<Byte>, b: seq<Byte>, lhs: nat, size: nat) returns (r: int)
    requires |a| == |b| && size in {2, 4, 8} && size <= |a|
    ensures r == Compared(a, b)
  {
    hide Compared, WordsEnd;
    var numAlignBytes := lhs % size;
    var found;
    found, r := CompareBytes(a, b, 0, numAlignBytes);
    if found { return; }
    var wordsEnd := WordsEnd(numAlignBytes, |a|, size);
    found, r := CompareWords(a, b, numAlignBytes, wordsEnd, size);
    if found { return; }
    found, r := CompareBytes(a, b, wordsEnd, (|a| - numAlignBytes) % size);
  }

  /** Compares `n` bytes after equal ones; stops at a difference. */
  method CompareBytes(a: seq<Byte>, b: seq<Byte>, from: nat, n: nat) returns (found: bool, r: int)
    requires |a| == |b| && from + n <= |a| && a[..from] == b[..from]
    ensures found ==> r == Compared(a, b)
    ensures !found ==> r == 0 && a[..from + n] == b[..from + n]
    ensures !found && from + n == |a| ==> r == Compared(a, b)
  {
    hide Compared;
    var k: nat := from;
    while k != from + n
      invariant from <= k <= from + n && a[..k] == b[..k]
    {
      if a[k] != b[k] {
        FoundAt(a, b, k);
        return true, Difference(a[k], b[k]);
      }
      assert a[..k + 1] == a[..k] + [a[k]] && b[..k + 1] == b[..k] + [b[k]];
      k := k + 1;
    }
    if k == |a| {
      assert a[..k] == a && b[..k] == b;
      ComparedIsOrder(a, b);
    }
    return false, 0;
  }

  /** Compares words after equal bytes; where two words differ, their bytes are compared. */
  method CompareWords(a: seq<Byte>, b: seq<Byte>, from: nat, end: nat, size: nat) returns (found: bool, r: int)
    requires |a| == |b| && from <= end <= |a| && 0 < size && (end - from) % size == 0 && a[..from] == b[..from]
    ensures found ==> r == Compared(a, b)
    ensures !found ==> a[..end] == b[..end]
  {
    hide Compared, FromBytes;
    var at: nat := from;
    while at != end
      invariant from <= at <= end && (end - at) % size == 0 && a[..at] == b[..at]
    {
      NextWord(end - at, size);
      var left, right := a[at..at + size], b[at..at + size];
      WordsDifferIff(left, right);
      if FromBytes(left) != FromBytes(right) {
        found, r := CompareBytes(a, b, at, size);
        if found { return; }
      }
      assert a[..at + size] == a[..at] + left && b[..at + size] == b[..at] + right;
      at := at + size;
    }
    return false, 0;
  }
}
