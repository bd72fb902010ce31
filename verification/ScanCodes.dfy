/** Scan-code tables, the codes they give each key, and what a decoder in a given state makes of one
    byte. */
module ScanCodes {
  import opened Bytes

  datatype KeyAction = NoAction | Released | Pressed | PressedReleased

  datatype MapKey = MapKey(keyID: nat, action: KeyAction)

  const NO_KEY := MapKey(0, NoAction)
  const KEY_MAX: nat := 512

  predicate Usable(k: MapKey) {
    0 < k.keyID < KEY_MAX
  }

  datatype SpecialSequence = SpecialSequence(key: MapKey, bytes: seq<Byte>)

  datatype Table = Table(keysPerByte: seq<MapKey>, extendCodes: seq<Byte>, extended: seq<Table>, special: seq<SpecialSequence>)

  // ---- The codes of a table ----

  /** `code` is a code of `key`: a table entry, a special sequence, or an extension byte before a code of
      the extended table. Nothing here says which of them comes first. */
  ghost predicate Encodes(t: Table, code: seq<Byte>, key: MapKey) {
    Usable(key) && code != [] &&
    (|| (|code| == 1 && code[0] < |t.keysPerByte| && t.keysPerByte[code[0]] == key)
     || SpecialSequence(key, code) in t.special
     || (exists i: nat :: i < |t.extendCodes| && i < |t.extended| && t.extendCodes[i] == code[0] &&
                          Encodes(t.extended[i], code[1..], key)))
  }

  /** No byte has two uses in a table. */
  ghost predicate PrefixFree(t: Table) {
    |t.extendCodes| == |t.extended| &&
    (forall i, j | 0 <= i < j < |t.extendCodes| :: t.extendCodes[i] != t.extendCodes[j]) &&
    (forall i | 0 <= i < |t.special| :: t.special[i].bytes != [] && t.special[i].bytes[0] !in t.extendCodes) &&
    (forall i, j | 0 <= i < j < |t.special| :: t.special[i].bytes[0] != t.special[j].bytes[0]) &&
    (forall b: Byte | b < |t.keysPerByte| && Usable(t.keysPerByte[b]) ::
       b !in t.extendCodes && forall i | 0 <= i < |t.special| :: t.special[i].bytes[0] != b) &&
    (forall i | 0 <= i < |t.extended| :: PrefixFree(t.extended[i]))
  }

  // ---- One byte ----

  /** What the decoder is in the middle of. */
  datatype Decoding = AtTable(table: Table) | InSequence(sequence: SpecialSequence, index: nat)

  datatype Outcome = Failure | Decoded(key: MapKey) | Partial(next: Decoding)

  /** In a sequence, the byte to compare with exists. */
  predicate InBounds(d: Decoding) {
    d.InSequence? ==> 1 <= d.index < |d.sequence.bytes|
  }

  function Report(k: MapKey): Outcome {
    if Usable(k) then Decoded(k) else Failure
  }

  /** The first position of `b` in `codes`, or the length. */
  function FirstCode(codes: seq<Byte>, b: Byte): (i: nat)
    ensures i <= |codes| && (i < |codes| ==> codes[i] == b) && forall j | 0 <= j < i :: codes[j] != b
  {
    if codes == [] || codes[0] == b then 0 else 1 + FirstCode(codes[1..], b)
  }

  /** The first sequence that begins with `b`, or the length. */
  function FirstSpecial(special: seq<SpecialSequence>, b: Byte): (i: nat)
    ensures i <= |special| && (i < |special| ==> special[i].bytes != [] && special[i].bytes[0] == b)
    ensures forall j | 0 <= j < i :: special[j].bytes == [] || special[j].bytes[0] != b
  {
    if special == [] || (special[0].bytes != [] && special[0].bytes[0] == b) then 0 else 1 + FirstSpecial(special[1..], b)
  }

  function Lookup(t: Table, b: Byte): Outcome
    requires |t.extendCodes| == |t.extended|
  {
    var e, s := FirstCode(t.extendCodes, b), FirstSpecial(t.special, b);
    if e < |t.extendCodes| then Partial(AtTable(t.extended[e]))
    else if s < |t.special| then
      if |t.special[s].bytes| > 1 then Partial(InSequence(t.special[s], 1)) else Report(t.special[s].key)
    else if b < |t.keysPerByte| then Report(t.keysPerByte[b])
    else Failure
  }

  function Compare(q: SpecialSequence, index: nat, b: Byte): Outcome
    requires index < |q.bytes|
  {
    if b != q.bytes[index] then Failure
    else if index + 1 == |q.bytes| then Report(q.key)
    else Partial(InSequence(q, index + 1))
  }

  ghost predicate Ready(d: Decoding) {
    InBounds(d) && (d.AtTable? ==> PrefixFree(d.table))
  }

  ghost function Decode(d: Decoding, b: Byte): (r: Outcome)
    requires Ready(d)
    ensures r.Partial? ==> Ready(r.next)
  {
    match d
    case AtTable(t) => Lookup(t, b)
    case InSequence(q, index) => Compare(q, index, b)
  }

  // ---- A stream of bytes ----

  /** The state after a byte: a finished or failed code takes the decoder back to the root. */
  ghost function Next(root: Table, d: Decoding, b: Byte): (r: Decoding)
    requires PrefixFree(root) && Ready(d)
    ensures Ready(r)
  {
    var r := Decode(d, b);
    if r.Partial? then r.next else AtTable(root)
  }

  /** What one byte passes on to the keyboard layer: a part of a code passes on no key. */
  function Passed(r: Outcome): seq<MapKey> {
    match r
    case Failure => []
    case Decoded(k) => [k]
    case Partial(_) => [NO_KEY]
  }

  ghost function StateAfter(root: Table, d: Decoding, bytes: seq<Byte>): (r: Decoding)
    requires PrefixFree(root) && Ready(d)
    ensures Ready(r)
    decreases |bytes|
  {
    if bytes == [] then d else StateAfter(root, Next(root, d, bytes[0]), bytes[1..])
  }

  ghost function PassedOn(root: Table, d: Decoding, bytes: seq<Byte>): seq<MapKey>
    requires PrefixFree(root) && Ready(d)
    decreases |bytes|
  {
    if bytes == [] then [] else Passed(Decode(d, bytes[0])) + PassedOn(root, Next(root, d, bytes[0]), bytes[1..])
  }

  lemma {:induction false} StreamSplit(root: Table, d: Decoding, a: seq<Byte>, b: seq<Byte>)
    requires PrefixFree(root) && Ready(d)
    ensures StateAfter(root, d, a + b) == StateAfter(root, StateAfter(root, d, a), b)
    ensures PassedOn(root, d, a + b) == PassedOn(root, d, a) + PassedOn(root, StateAfter(root, d, a), b)
    decreases |a|
  {
    hide Decode, PrefixFree;
    if a == [] {
      assert a + b == b;
    } else {
      assert (a + b)[1..] == a[1..] + b;
      StreamSplit(root, Next(root, d, a[0]), a[1..], b);
    }
  }

  // ---- Decoding undoes encoding ----

  /** The bytes that are fed are one code's: all but the last leave it unfinished. */
  ghost function Feed(d: Decoding, bytes: seq<Byte>): Outcome
    requires Ready(d) && bytes != []
    decreases |bytes|
  {
    var r := Decode(d, bytes[0]);
    if |bytes| == 1 then r else if r.Partial? then Feed(r.next, bytes[1..]) else Failure
  }

  lemma {:induction false} SequenceFeeds(q: SpecialSequence, index: nat, bytes: seq<Byte>, key: MapKey)
    requires 1 <= index < |q.bytes| && bytes != []
    ensures Feed(InSequence(q, index), bytes) == Decoded(key) <==> bytes == q.bytes[index..] && q.key == key && Usable(key)
    decreases |bytes|
  {
    var rest := q.bytes[index..];
    assert rest[0] == q.bytes[index] && rest[1..] == q.bytes[index + 1..];
    assert bytes == [bytes[0]] + bytes[1..] && rest == [rest[0]] + rest[1..];
    if |bytes| > 1 && index + 1 < |q.bytes| { SequenceFeeds(q, index + 1, bytes[1..], key); }
  }

  /** The three ways to encode a key, told apart by the first byte. */
  lemma FirstByteDecides(t: Table, code: seq<Byte>, key: MapKey)
    requires PrefixFree(t) && code != [] && Usable(key)
    ensures
      var e, s := FirstCode(t.extendCodes, code[0]), FirstSpecial(t.special, code[0]);
      Encodes(t, code, key) <==>
        if e < |t.extendCodes| then Encodes(t.extended[e], code[1..], key)
        else if s < |t.special| then t.special[s] == SpecialSequence(key, code)
        else |code| == 1 && code[0] < |t.keysPerByte| && t.keysPerByte[code[0]] == key
  {
    var e, s := FirstCode(t.extendCodes, code[0]), FirstSpecial(t.special, code[0]);
    if SpecialSequence(key, code) in t.special {
      var i :| 0 <= i < |t.special| && t.special[i] == SpecialSequence(key, code);
      assert s == i;
    }
    if i: nat :| i < |t.extendCodes| && t.extendCodes[i] == code[0] && Encodes(t.extended[i], code[1..], key) {
      assert e == i;
    }
    assert code[0] in t.extendCodes <==> e < |t.extendCodes|;
  }

  /** Feeding bytes to a table reports a key if and only if they are a code of that key. */
  lemma {:induction false} FeedDecodesExactlyCodes(t: Table, bytes: seq<Byte>, key: MapKey)
    requires PrefixFree(t) && bytes != []
    ensures Feed(AtTable(t), bytes) == Decoded(key) <==> Encodes(t, bytes, key)
    decreases |bytes|
  {
    hide Encodes, PrefixFree;
    TableParts(t, bytes[0]);
    if Usable(key) {
      FirstByteDecides(t, bytes, key);
      var e, s := FirstCode(t.extendCodes, bytes[0]), FirstSpecial(t.special, bytes[0]);
      if e < |t.extendCodes| {
        if |bytes| > 1 {
          FeedDecodesExactlyCodes(t.extended[e], bytes[1..], key);
        } else {
          NothingIsNoCode(t.extended[e], key);
        }
      } else if s < |t.special| {
        var q := t.special[s];
        assert q.bytes == [q.bytes[0]] + q.bytes[1..] && bytes == [bytes[0]] + bytes[1..];
        if |q.bytes| > 1 && |bytes| > 1 { SequenceFeeds(q, 1, bytes[1..], key); }
      }
    } else {
      UnusableHasNoCode(t, bytes, key);
      if Feed(AtTable(t), bytes) == Decoded(key) { FeedReportsUsable(AtTable(t), bytes, key); }
    }
  }

  lemma TableParts(t: Table, b: Byte)
    requires PrefixFree(t)
    ensures |t.extendCodes| == |t.extended|
    ensures FirstCode(t.extendCodes, b) < |t.extendCodes| ==> PrefixFree(t.extended[FirstCode(t.extendCodes, b)])
  {
  }

  lemma NothingIsNoCode(t: Table, key: MapKey)
    ensures !Encodes(t, [], key)
  {
  }

  lemma UnusableHasNoCode(t: Table, code: seq<Byte>, key: MapKey)
    requires !Usable(key)
    ensures !Encodes(t, code, key)
  {
  }

  lemma {:induction false} FeedReportsUsable(d: Decoding, bytes: seq<Byte>, key: MapKey)
    requires Ready(d) && bytes != [] && Feed(d, bytes) == Decoded(key)
    ensures Usable(key)
    decreases |bytes|
  {
    if |bytes| > 1 { FeedReportsUsable(Decode(d, bytes[0]).next, bytes[1..], key); }
  }

  /** No code is a proper beginning of another, and none encodes two keys. */
  lemma CodesArePrefixFree(t: Table, a: seq<Byte>, b: seq<Byte>, k: MapKey, l: MapKey)
    requires PrefixFree(t) && Encodes(t, a, k) && Encodes(t, a + b, l)
    ensures b == [] && k == l
  {
    hide Encodes, PrefixFree;
    CodeIsUsable(t, a, k);
    FeedDecodesExactlyCodes(t, a, k);
    FeedDecodesExactlyCodes(t, a + b, l);
    if b == [] { assert a + b == a; } else { FedNoFurther(AtTable(t), a, b, k); }
  }

  lemma {:induction false} FedNoFurther(d: Decoding, a: seq<Byte>, b: seq<Byte>, key: MapKey)
    requires Ready(d) && a != [] && b != [] && Feed(d, a) == Decoded(key)
    ensures Feed(d, a + b) == Failure
    decreases |a|
  {
    hide Decode, Ready;
    assert (a + b)[1..] == a[1..] + b;
    if |a| > 1 { FedNoFurther(Decode(d, a[0]).next, a[1..], b, key); }
  }

  /** What a whole code passes on: no key for each byte but the last, then the key. */
  function WholeCode(n: nat, key: MapKey): seq<MapKey> {
    if n == 0 then [] else if n == 1 then [key] else [NO_KEY] + WholeCode(n - 1, key)
  }

  /** A code, once fed, has passed on its key and left the decoder at the root. */
  lemma {:induction false} CodeDecodes(root: Table, d: Decoding, code: seq<Byte>, key: MapKey)
    requires PrefixFree(root) && Ready(d) && code != [] && Feed(d, code) == Decoded(key)
    ensures StateAfter(root, d, code) == AtTable(root)
    ensures PassedOn(root, d, code) == WholeCode(|code|, key)
    decreases |code|
  {
    hide Decode, Ready, PrefixFree;
    if |code| > 1 {
      CodeDecodes(root, Decode(d, code[0]).next, code[1..], key);
    } else {
      assert code[1..] == [];
    }
  }

  datatype Stroke = Stroke(code: seq<Byte>, key: MapKey)

  function Codes(strokes: seq<Stroke>): seq<Byte> {
    if strokes == [] then [] else strokes[0].code + Codes(strokes[1..])
  }

  function KeysOf(strokes: seq<Stroke>): seq<MapKey> {
    if strokes == [] then [] else [strokes[0].key] + KeysOf(strokes[1..])
  }

  /** The usable keys of those passed on. */
  function OnlyKeys(passed: seq<MapKey>): seq<MapKey> {
    if passed == [] then []
    else (if Usable(passed[0]) then [passed[0]] else []) + OnlyKeys(passed[1..])
  }

  lemma {:induction false} OnlyKeysSplit(a: seq<MapKey>, b: seq<MapKey>)
    ensures OnlyKeys(a + b) == OnlyKeys(a) + OnlyKeys(b)
  {
    if a == [] {
      assert a + b == b;
    } else {
      assert (a + b)[1..] == a[1..] + b && (a + b)[0] == a[0];
      OnlyKeysSplit(a[1..], b);
      var head := if Usable(a[0]) then [a[0]] else [];
      calc {
        OnlyKeys(a + b);
        head + OnlyKeys(a[1..] + b);
        head + (OnlyKeys(a[1..]) + OnlyKeys(b));
        (head + OnlyKeys(a[1..])) + OnlyKeys(b);
      }
    }
  }

  lemma {:induction false} WholeCodeKeys(n: nat, key: MapKey)
    requires n > 0 && Usable(key)
    ensures OnlyKeys(WholeCode(n, key)) == [key]
  {
    if n > 1 {
      WholeCodeKeys(n - 1, key);
      assert WholeCode(n, key)[1..] == WholeCode(n - 1, key);
    } else {
      assert [key][1..] == [];
    }
  }

  /** Any list of strokes, sent one after the other, decodes to exactly that list of keys and leaves the
      decoder at the root. */
  lemma {:induction false} DecodingUndoesEncoding(root: Table, strokes: seq<Stroke>)
    requires PrefixFree(root) && forall k | 0 <= k < |strokes| :: Encodes(root, strokes[k].code, strokes[k].key)
    ensures StateAfter(root, AtTable(root), Codes(strokes)) == AtTable(root)
    ensures OnlyKeys(PassedOn(root, AtTable(root), Codes(strokes))) == KeysOf(strokes)
  {
    hide PrefixFree, Encodes, StateAfter, PassedOn;
    if strokes == [] {
      NoBytes(root);
    } else {
      var first, rest := strokes[0], Codes(strokes[1..]);
      DecodingUndoesEncoding(root, strokes[1..]);
      CodeIsUsable(root, first.code, first.key);
      FeedDecodesExactlyCodes(root, first.code, first.key);
      CodeDecodes(root, AtTable(root), first.code, first.key);
      StreamSplit(root, AtTable(root), first.code, rest);
      OnlyKeysSplit(PassedOn(root, AtTable(root), first.code), PassedOn(root, AtTable(root), rest));
      WholeCodeKeys(|first.code|, first.key);
    }
  }

  lemma NoBytes(root: Table)
    requires PrefixFree(root)
    ensures StateAfter(root, AtTable(root), []) == AtTable(root) && PassedOn(root, AtTable(root), []) == []
  {
  }

  lemma CodeIsUsable(t: Table, code: seq<Byte>, key: MapKey)
    requires Encodes(t, code, key)
    ensures Usable(key) && code != []
  {
  }

  // ---- The decoder reports no key that was not sent ----

  /** The bytes lead from one state to the other without finishing or failing a code. */
  ghost predicate Within(d: Decoding, bytes: seq<Byte>, e: Decoding)
    requires Ready(d)
    decreases |bytes|
  {
    if bytes == [] then d == e
    else Decode(d, bytes[0]).Partial? && Within(Decode(d, bytes[0]).next, bytes[1..], e)
  }

  lemma {:induction false} WithinFeeds(d: Decoding, bytes: seq<Byte>, e: Decoding, b: Byte)
    requires Ready(d) && Ready(e) && Within(d, bytes, e)
    ensures Feed(d, bytes + [b]) == Decode(e, b)
    ensures Decode(e, b).Partial? ==> Within(d, bytes + [b], Decode(e, b).next)
    decreases |bytes|
  {
    hide Decode, Ready;
    if bytes == [] {
      assert bytes + [b] == [b] && [b][1..] == [];
    } else {
      assert (bytes + [b])[1..] == bytes[1..] + [b];
      WithinFeeds(Decode(d, bytes[0]).next, bytes[1..], e, b);
    }
  }

  /** The state of the decoder is explained by the bytes since some reset. */
  lemma {:induction false} LastReset(root: Table, bytes: seq<Byte>) returns (m: nat)
    requires PrefixFree(root)
    ensures m <= |bytes| && Within(AtTable(root), bytes[m..], StateAfter(root, AtTable(root), bytes))
    decreases |bytes|
  {
    hide Decode, PrefixFree;
    if bytes == [] {
      m := 0;
    } else {
      var before, b := bytes[..|bytes| - 1], bytes[|bytes| - 1];
      var d := StateAfter(root, AtTable(root), before);
      assert bytes == before + [b];
      StreamSplit(root, AtTable(root), before, [b]);
      assert [b][1..] == [] && StateAfter(root, d, [b]) == Next(root, d, b);
      m := LastReset(root, before);
      WithinFeeds(AtTable(root), before[m..], d, b);
      if Decode(d, b).Partial? {
        assert bytes[m..] == before[m..] + [b];
      } else {
        m := |bytes|;
      }
    }
  }

  /** On any stream whatever, a reported key's code is exactly what the stream's last bytes spell. */
  lemma ReportedKeysWereSent(root: Table, bytes: seq<Byte>, b: Byte, key: MapKey) returns (m: nat)
    requires PrefixFree(root) && Decode(StateAfter(root, AtTable(root), bytes), b) == Decoded(key)
    ensures m <= |bytes| && Encodes(root, bytes[m..] + [b], key)
  {
    m := LastReset(root, bytes);
    WithinFeeds(AtTable(root), bytes[m..], StateAfter(root, AtTable(root), bytes), b);
    hide Decode, PrefixFree, Encodes;
    FeedDecodesExactlyCodes(root, bytes[m..] + [b], key);
  }
}
