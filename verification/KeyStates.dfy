/** What the keyboard layer knows of the keys: which are down, and the modifiers and locks that follow. */
module KeyStates {
  import opened Bytes
  import opened ScanCodes

  const CAPS_LOCK: nat := 257
  const SCROLL_LOCK: nat := 258
  const NUM_LOCK: nat := 259
  const LEFT_SHIFT: nat := 260
  const LEFT_CONTROL: nat := 261
  const LEFT_ALT: nat := 263
  const RIGHT_ALT: nat := 400
  const RIGHT_CONTROL: nat := 402
  const RIGHT_SHIFT: nat := 403

  datatype KeyState = KeyReleased | KeyPressed | KeyRepeat

  /** A lock, and whether the key press that switched it on is still going on. */
  datatype Lock = Lock(active: bool, justActivated: bool)

  datatype Keys = Keys(states: seq<KeyState>, capsLock: Lock, numLock: Lock, scrollLock: Lock,
                       anyShift: bool, anyControl: bool, leftAlt: bool, rightAlt: bool)

  const OFF := Lock(false, false)

  /** Nothing pressed, no lock on. */
  function AllReleased(): (k: Keys)
    ensures |k.states| == KEY_MAX
  {
    Keys(seq(KEY_MAX, _ => KeyReleased), OFF, OFF, OFF, false, false, false, false)
  }

  function Acted(s: KeyState, a: KeyAction): KeyState {
    match a
    case NoAction => s
    case Pressed => if s == KeyReleased then KeyPressed else KeyRepeat
    case Released | PressedReleased => KeyReleased
  }

  function Switched(l: Lock, s: KeyState): Lock {
    if l.active then
      if s != KeyReleased then l else if l.justActivated then l.(justActivated := false) else l.(active := false)
    else
      if s == KeyPressed then Lock(true, true) else l
  }

  /** The keys after one key event. */
  function AfterKey(k: Keys, key: MapKey): (r: Keys)
    requires |k.states| == KEY_MAX && key.keyID < KEY_MAX
    ensures |r.states| == KEY_MAX
  {
    Followed(k.(states := k.states[key.keyID := Acted(k.states[key.keyID], key.action)]), key.keyID)
  }

  /** The modifiers and locks, once the state of the key `id` is up to date. */
  function Followed(k: Keys, id: nat): (r: Keys)
    requires |k.states| == KEY_MAX && id < KEY_MAX
    ensures r.states == k.states
  {
    if id == CAPS_LOCK then k.(capsLock := Switched(k.capsLock, k.states[id]))
    else if id == NUM_LOCK then k.(numLock := Switched(k.numLock, k.states[id]))
    else if id == SCROLL_LOCK then k.(scrollLock := Switched(k.scrollLock, k.states[id]))
    else if id == LEFT_SHIFT || id == RIGHT_SHIFT then k.(anyShift := Down(k, LEFT_SHIFT) || Down(k, RIGHT_SHIFT))
    else if id == LEFT_CONTROL || id == RIGHT_CONTROL then k.(anyControl := Down(k, LEFT_CONTROL) || Down(k, RIGHT_CONTROL))
    else if id == LEFT_ALT then k.(leftAlt := Down(k, LEFT_ALT))
    else if id == RIGHT_ALT then k.(rightAlt := Down(k, RIGHT_ALT))
    else k
  }

  predicate Down(k: Keys, id: nat)
    requires |k.states| == KEY_MAX && id < KEY_MAX
  {
    k.states[id] != KeyReleased
  }

  predicate InRange(keys: seq<MapKey>) {
    forall i | 0 <= i < |keys| :: keys[i].keyID < KEY_MAX
  }

  function AfterKeys(k: Keys, keys: seq<MapKey>): (r: Keys)
    requires |k.states| == KEY_MAX && InRange(keys)
    ensures |r.states| == KEY_MAX
    decreases |keys|
  {
    if keys == [] then k else AfterKeys(AfterKey(k, keys[0]), keys[1..])
  }

  lemma {:induction false} AfterKeysSplit(k: Keys, a: seq<MapKey>, b: seq<MapKey>)
    requires |k.states| == KEY_MAX && InRange(a) && InRange(b)
    ensures AfterKeys(k, a + b) == AfterKeys(AfterKeys(k, a), b)
    decreases |a|
  {
    hide AfterKey;
    if a == [] {
      assert a + b == b;
    } else {
      assert (a + b)[1..] == a[1..] + b;
      AfterKeysSplit(AfterKey(k, a[0]), a[1..], b);
    }
  }

  /** The parts of codes that are passed on with no key change nothing. */
  lemma NoKeyChangesNothing(k: Keys)
    requires |k.states| == KEY_MAX
    ensures AfterKey(k, NO_KEY) == k
  {
  }

  lemma {:induction false} OnlyKeysMatter(k: Keys, keys: seq<MapKey>)
    requires |k.states| == KEY_MAX && forall i | 0 <= i < |keys| :: Usable(keys[i]) || keys[i] == NO_KEY
    ensures InRange(keys) && InRange(OnlyKeys(keys))
    ensures AfterKeys(k, keys) == AfterKeys(k, OnlyKeys(keys))
    decreases |keys|
  {
    hide AfterKey;
    if keys != [] {
      NoKeyChangesNothing(k);
      OnlyKeysMatter(AfterKey(k, keys[0]), keys[1..]);
      var rest := OnlyKeys(keys[1..]);
      assert ([keys[0]] + rest)[1..] == rest && [] + rest == rest;
    }
  }

  // ---- Which keys are down ----

  /** The last event of the key that says anything of its state. */
  function LastAction(keys: seq<MapKey>, id: nat): KeyAction {
    if keys == [] then NoAction
    else
      var key := keys[|keys| - 1];
      if key.keyID == id && key.action != NoAction then key.action else LastAction(keys[..|keys| - 1], id)
  }

  /** After any run a key is down if and only if the last that was heard of it is that it was pressed, or
      nothing was heard of it and it was down before. */
  lemma {:induction false} DownIffPressedLast(k: Keys, keys: seq<MapKey>, id: nat)
    requires |k.states| == KEY_MAX && InRange(keys) && id < KEY_MAX
    ensures Down(AfterKeys(k, keys), id) <==>
            match LastAction(keys, id)
            case NoAction => Down(k, id)
            case Pressed => true
            case Released => false
            case PressedReleased => false
  {
    hide Followed;
    if keys != [] {
      var n := |keys| - 1;
      DownIffPressedLast(k, keys[..n], id);
      AfterKeysSplit(k, keys[..n], [keys[n]]);
      assert keys == keys[..n] + [keys[n]] && [keys[n]][1..] == [];
    }
  }

  // ---- Modifiers ----

  /** Every modifier says whether one of its keys is down. */
  predicate ModifiersAgree(k: Keys)
    requires |k.states| == KEY_MAX
  {
    k.anyShift == (Down(k, LEFT_SHIFT) || Down(k, RIGHT_SHIFT)) &&
    k.anyControl == (Down(k, LEFT_CONTROL) || Down(k, RIGHT_CONTROL)) &&
    k.leftAlt == Down(k, LEFT_ALT) && k.rightAlt == Down(k, RIGHT_ALT)
  }

  /** A lock counts as just switched on only while it is on and its key is down. */
  predicate LocksSettle(k: Keys)
    requires |k.states| == KEY_MAX
  {
    (k.capsLock.justActivated ==> k.capsLock.active && Down(k, CAPS_LOCK)) &&
    (k.numLock.justActivated ==> k.numLock.active && Down(k, NUM_LOCK)) &&
    (k.scrollLock.justActivated ==> k.scrollLock.active && Down(k, SCROLL_LOCK))
  }

  /** An event of one key leaves the others as they were. */
  lemma OtherKeys(k: Keys, key: MapKey, j: nat)
    requires |k.states| == KEY_MAX && key.keyID < KEY_MAX && j < KEY_MAX && j != key.keyID
    ensures Down(AfterKey(k, key), j) == Down(k, j)
  {
    hide Followed, Acted;
  }

  lemma OwnKey(k: Keys, key: MapKey)
    requires |k.states| == KEY_MAX && key.keyID < KEY_MAX
    ensures
      var s := Acted(k.states[key.keyID], key.action);
      Down(AfterKey(k, key), key.keyID) == (s != KeyReleased) && AfterKey(k, key).states[key.keyID] == s &&
      AfterKey(k, key) == Followed(k.(states := k.states[key.keyID := s]), key.keyID)
  {
    hide Followed, Acted;
  }

  lemma SameDown(k: Keys, l: Keys, j: nat)
    requires |k.states| == KEY_MAX && k.states == l.states && j < KEY_MAX
    ensures Down(k, j) == Down(l, j)
  {
  }

  lemma ModifiersStep(k: Keys, key: MapKey)
    requires |k.states| == KEY_MAX && key.keyID < KEY_MAX && ModifiersAgree(k)
    ensures ModifiersAgree(AfterKey(k, key))
  {
    hide Down, Acted, Switched, AfterKey;
    OwnKey(k, key);
    var r := k.(states := k.states[key.keyID := Acted(k.states[key.keyID], key.action)]);
    forall j: nat | j in {LEFT_SHIFT, RIGHT_SHIFT, LEFT_CONTROL, RIGHT_CONTROL, LEFT_ALT, RIGHT_ALT}
      ensures Down(r, j) == Down(AfterKey(k, key), j)
      ensures j != key.keyID ==> Down(r, j) == Down(k, j)
    {
      SameDown(r, AfterKey(k, key), j);
      if j != key.keyID { OtherKeys(k, key, j); }
    }
  }

  /** A lock that has just been switched on is on, and its key is down. */
  lemma SwitchedSettles(l: Lock, s: KeyState)
    requires l.justActivated ==> l.active
    ensures Switched(l, s).justActivated ==> Switched(l, s).active && s != KeyReleased
  {
  }

  /** Only its own key's events change a lock. */
  lemma FollowedLocks(k: Keys, id: nat)
    requires |k.states| == KEY_MAX && id < KEY_MAX
    ensures
      var r, s := Followed(k, id), k.states[id];
      r.capsLock == (if id == CAPS_LOCK then Switched(k.capsLock, s) else k.capsLock) &&
      r.numLock == (if id == NUM_LOCK then Switched(k.numLock, s) else k.numLock) &&
      r.scrollLock == (if id == SCROLL_LOCK then Switched(k.scrollLock, s) else k.scrollLock)
  {
    hide Switched, Down;
  }

  lemma LocksStep(k: Keys, key: MapKey)
    requires |k.states| == KEY_MAX && key.keyID < KEY_MAX && LocksSettle(k)
    ensures LocksSettle(AfterKey(k, key))
  {
    hide Down, Acted, Switched, AfterKey, Followed;
    OwnKey(k, key);
    var s := Acted(k.states[key.keyID], key.action);
    FollowedLocks(k.(states := k.states[key.keyID := s]), key.keyID);
    SwitchedSettles(k.capsLock, s);
    SwitchedSettles(k.numLock, s);
    SwitchedSettles(k.scrollLock, s);
    forall j: nat | j in {CAPS_LOCK, NUM_LOCK, SCROLL_LOCK} && j != key.keyID
      ensures Down(AfterKey(k, key), j) == Down(k, j)
    {
      OtherKeys(k, key, j);
    }
  }

  /** In every run the modifiers agree with the keys, although only events of their own keys update them. */
  lemma {:induction false} ModifiersAlwaysAgree(k: Keys, keys: seq<MapKey>)
    requires |k.states| == KEY_MAX && InRange(keys) && ModifiersAgree(k) && LocksSettle(k)
    ensures ModifiersAgree(AfterKeys(k, keys)) && LocksSettle(AfterKeys(k, keys))
    decreases |keys|
  {
    hide AfterKey, ModifiersAgree, LocksSettle;
    if keys != [] {
      ModifiersStep(k, keys[0]);
      LocksStep(k, keys[0]);
      ModifiersAlwaysAgree(AfterKey(k, keys[0]), keys[1..]);
    }
  }

  // ---- Locks ----

  predicate IsLock(id: nat) {
    id == CAPS_LOCK || id == NUM_LOCK || id == SCROLL_LOCK
  }

  function LockOf(k: Keys, id: nat): Lock
    requires IsLock(id)
  {
    if id == CAPS_LOCK then k.capsLock else if id == NUM_LOCK then k.numLock else k.scrollLock
  }

  /** A key pressed, held for `repeats` repeats. */
  function Held(id: nat, repeats: nat): seq<MapKey> {
    if repeats == 0 then [MapKey(id, Pressed)] else Held(id, repeats - 1) + [MapKey(id, Pressed)]
  }

  lemma HeldInRange(id: nat, repeats: nat)
    requires id < KEY_MAX
    ensures InRange(Held(id, repeats))
  {
  }

  /** While the key of a lock is held, the lock is on; it was switched on by this press if it was off. */
  lemma {:induction false} HeldIsOn(k: Keys, id: nat, repeats: nat)
    requires |k.states| == KEY_MAX && IsLock(id) && k.states[id] == KeyReleased && LocksSettle(k)
    ensures InRange(Held(id, repeats))
    ensures
      var r := AfterKeys(k, Held(id, repeats));
      r.states[id] == (if repeats == 0 then KeyPressed else KeyRepeat) &&
      LockOf(r, id) == Lock(true, !LockOf(k, id).active)
  {
    HeldInRange(id, repeats);
    if repeats > 0 {
      HeldIsOn(k, id, repeats - 1);
      AfterKeysSplit(k, Held(id, repeats - 1), [MapKey(id, Pressed)]);
    }
    assert [MapKey(id, Pressed)][1..] == [];
  }

  /** Pressing the key of a lock, holding it for as long as one likes and releasing it switches the lock
      over, once. */
  lemma PressAndReleaseSwitches(k: Keys, id: nat, repeats: nat)
    requires |k.states| == KEY_MAX && IsLock(id) && k.states[id] == KeyReleased && LocksSettle(k)
    ensures InRange(Held(id, repeats) + [MapKey(id, Released)])
    ensures
      var r := AfterKeys(k, Held(id, repeats) + [MapKey(id, Released)]);
      r.states[id] == KeyReleased && LockOf(r, id) == Lock(!LockOf(k, id).active, false)
  {
    HeldIsOn(k, id, repeats);
    AfterKeysSplit(k, Held(id, repeats), [MapKey(id, Released)]);
    assert [MapKey(id, Released)][1..] == [];
  }

  // ---- Indicator lights ----

  function Bit(on: bool, bit: nat): nat {
    if on then bit else 0
  }

  /** The data byte of the command that sets the indicator lights. */
  function LedBits(k: Keys): Byte {
    Bit(k.scrollLock.active, 1) + Bit(k.numLock.active, 2) + Bit(k.capsLock.active, 4)
  }

  /** Bit 0 of the data byte is the Scroll Lock light, bit 1 Num Lock, bit 2 Caps Lock, and no other is set. */
  predicate LightsShow(leds: Byte, k: Keys) {
    leds < 8 && (leds % 2 == 1 <==> k.scrollLock.active) && (leds / 2 % 2 == 1 <==> k.numLock.active)
    && (leds / 4 % 2 == 1 <==> k.capsLock.active)
  }

  lemma LedBitsShow(leds: Byte, k: Keys)
    ensures LightsShow(leds, k) <==> leds == LedBits(k)
  {
  }

  /** The lights tell exactly which locks are on. */
  lemma LedsTellLocks(k: Keys, l: Keys)
    ensures LedBits(k) == LedBits(l) <==>
              k.scrollLock.active == l.scrollLock.active && k.numLock.active == l.numLock.active &&
              k.capsLock.active == l.capsLock.active
  {
  }
}
