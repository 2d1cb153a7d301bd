/**
  lorieKeysymKeyboardEvent and its helpers, over the table and the event queue.
 */
module KeyEventsCode {
  import opened KeysymSearch
  import opened KeyEvents

  const TAB: KeySym := 0xff09

  /** The modifiers a key sets when pressed in a state: those of its SetMods action. */
  ghost function ModMask(m: Keymap, c: nat, mods: Mods): (mask: Mods)
    requires Valid(m)
  {
    var a := ActionOf(m, c, mods);
    if !InRange(m, c) || !a.SetMods? then {} else if a.useModMap then m.keys[c].modmap else a.mask
  }

  method KeyModMask(m: Keymap, c: nat, mods: Mods) returns (mask: Mods)
    requires Valid(m) && InRange(m, c)
    ensures mask == ModMask(m, c, mods)
  {
    var a := KeyAction(m, c, mods);
    mask := if !a.SetMods? then {} else if a.useModMap then m.keys[c].modmap else a.mask;
  }

  ghost predicate HoldsMod(m: Keymap, down: set<nat>, mods: Mods, mask: Mods, c: nat)
    requires Valid(m)
  {
    InRange(m, c) && c in down && ModMask(m, c, mods) * mask != {}
  }

  /** The keys from `c` on that are down and set some modifier of `mask`. */
  ghost function HeldFrom(m: Keymap, down: set<nat>, mods: Mods, mask: Mods, c: nat): (keys: seq<nat>)
    requires Valid(m)
    decreases m.maxCode + 1 - c
  {
    if c > m.maxCode then []
    else if HoldsMod(m, down, mods, mask, c) then [c] + HeldFrom(m, down, mods, mask, c + 1)
    else HeldFrom(m, down, mods, mask, c + 1)
  }

  lemma {:induction false} HeldFromIs(m: Keymap, down: set<nat>, mods: Mods, mask: Mods, c: nat)
    requires Valid(m)
    ensures forall k: nat :: k in HeldFrom(m, down, mods, mask, c) <==> c <= k && HoldsMod(m, down, mods, mask, k)
    decreases m.maxCode + 1 - c
  {
    if c <= m.maxCode {
      HeldFromIs(m, down, mods, mask, c + 1);
    }
  }

  /** The held keys of a modifier, or none when there are more than the caller has room for. */
  ghost function HeldModifiers(m: Keymap, down: set<nat>, mods: Mods, mask: Mods): (keys: seq<nat>)
    requires Valid(m)
    ensures KeySet(keys) <= down
  {
    HeldFromIs(m, down, mods, mask, m.minCode);
    var all := HeldFrom(m, down, mods, mask, m.minCode);
    if |all| <= MAX_RELEASE then all else []
  }

  method TestHeld(m: Keymap, down: set<nat>, mods: Mods, mask: Mods, c: nat) returns (found: bool)
    requires Valid(m) && InRange(m, c)
    ensures found == HoldsMod(m, down, mods, mask, c)
  {
    if c !in down { return false; }
    var own := KeyModMask(m, c, mods);
    found := own * mask != {};
  }

  method FindHeld(m: Keymap, down: set<nat>, mods: Mods, mask: Mods) returns (keys: seq<nat>)
    requires Valid(m)
    ensures keys == HeldModifiers(m, down, mods, mask)
  {
    keys := [];
    var c := m.minCode;
    while c <= m.maxCode
      invariant m.minCode <= c <= m.maxCode + 1 && |keys| <= MAX_RELEASE
      invariant keys + HeldFrom(m, down, mods, mask, c) == HeldFrom(m, down, mods, mask, m.minCode)
    {
      var found := TestHeld(m, down, mods, mask, c);
      if found {
        if |keys| >= MAX_RELEASE { return []; }
        keys := keys + [c];
      }
      c := c + 1;
    }
  }

  ghost predicate SetsShift(m: Keymap, c: nat)
    requires Valid(m)
  {
    InRange(m, c) && SHIFT_MASK <= ModMask(m, c, m.current)
  }

  /** The first key that sets Shift, or zero if none does. */
  ghost predicate IsShiftKey(m: Keymap, c: nat)
    requires Valid(m)
  {
    if c == 0 then forall d :: !SetsShift(m, d) else SetsShift(m, c) && forall d :: SetsShift(m, d) ==> c <= d
  }

  ghost function ShiftKeyFrom(m: Keymap, c: nat): (d: nat)
    requires Valid(m)
    decreases m.maxCode + 1 - c
  {
    if c > m.maxCode then 0 else if SetsShift(m, c) then c else ShiftKeyFrom(m, c + 1)
  }

  lemma {:induction false} ShiftKeyFromIs(m: Keymap, c: nat)
    requires Valid(m) && m.minCode <= c && forall d :: SetsShift(m, d) ==> c <= d
    ensures IsShiftKey(m, ShiftKeyFrom(m, c))
    decreases m.maxCode + 1 - c
  {
    if c <= m.maxCode && !SetsShift(m, c) {
      ShiftKeyFromIs(m, c + 1);
    }
  }

  ghost function ShiftKey(m: Keymap): (c: nat)
    requires Valid(m)
    ensures IsShiftKey(m, c)
  {
    ShiftKeyFromIs(m, m.minCode);
    ShiftKeyFrom(m, m.minCode)
  }

  lemma ShiftKeyIsUnique(m: Keymap, c: nat)
    requires Valid(m) && IsShiftKey(m, c)
    ensures c == ShiftKey(m)
  {
    var d := ShiftKey(m);
    assert c != 0 ==> SetsShift(m, c);
    assert d != 0 ==> SetsShift(m, d);
  }

  /** loriePressShift: the first key that sets Shift; zero when Shift is on or no key sets it. */
  method FindShift(m: Keymap) returns (c: nat)
    requires Valid(m)
    ensures c == if m.current * SHIFT_MASK != {} then 0 else ShiftKey(m)
  {
    if m.current * SHIFT_MASK != {} { return 0; }
    c := m.minCode;
    while c <= m.maxCode
      invariant m.minCode <= c <= m.maxCode + 1
      invariant forall d :: SetsShift(m, d) ==> c <= d
    {
      var mask := KeyModMask(m, c, m.current);
      if mask * SHIFT_MASK == SHIFT_MASK {
        assert SetsShift(m, c);
        ShiftKeyIsUnique(m, c);
        return;
      }
      assert !SetsShift(m, c);
      c := c + 1;
    }
    ShiftKeyIsUnique(m, 0);
    return 0;
  }

  /** The key for ISO_Level3_Shift, or failing that the one for Mode_switch. */
  ghost function LevelThreeKey(m: Keymap): (c: nat)
    requires Valid(m)
  {
    var iso := Answer(m, m.current, ISO_LEVEL3_SHIFT);
    if iso != 0 then iso else Answer(m, m.current, MODE_SWITCH)
  }

  /** loriePressLevelThree: a key for ISO_Level3_Shift or Mode_switch that sets modifiers, or zero. */
  method FindLevelThree(m: Keymap) returns (c: nat)
    requires Valid(m)
    ensures c != 0 ==> c == LevelThreeKey(m)
    ensures c != 0 <==>
      && LevelThree(m) != {} && m.current * LevelThree(m) == {}
      && LevelThreeKey(m) != 0 && ActionOf(m, LevelThreeKey(m), m.current).SetMods?
  {
    var mask := LevelThreeMask(m);
    if mask == {} || m.current * mask != {} { return 0; }
    var unused;
    c, unused := KeysymToKeycode(m, ISO_LEVEL3_SHIFT, m.current, false);
    if c == 0 {
      c, unused := KeysymToKeycode(m, MODE_SWITCH, m.current, false);
      if c == 0 { return; }
    }
    var a := KeyAction(m, c, m.current);
    if !a.SetMods? { return 0; }
  }

  /** What a fake change does to the modifiers `mask`: presses a key that was missing, or lifts every key that holds it. */
  ghost predicate FakeFor(m: Keymap, down: set<nat>, mask: Mods, newState: Mods, f: Fake)
    requires Valid(m)
  {
    match f
    case NoFake => (m.current * mask == {}) == (newState * mask == {})
    case FakePress(key) => m.current * mask == {} && newState * mask != {} && key != 0
    case FakeRelease(keys) =>
      m.current * mask != {} && newState * mask == {} && keys != [] && keys == HeldModifiers(m, down, m.current, mask)
  }

  /** The modifiers have to be set, or have to be cleared. */
  predicate MustSet(m: Keymap, mask: Mods, newState: Mods) {
    m.current * mask == {} && newState * mask != {}
  }

  predicate MustClear(m: Keymap, mask: Mods, newState: Mods) {
    m.current * mask != {} && newState * mask == {}
  }

  /** There is no key to set Shift with, or none held that could be lifted to clear it. */
  ghost predicate ShiftFails(m: Keymap, down: set<nat>, newState: Mods)
    requires Valid(m)
  {
    || (MustSet(m, SHIFT_MASK, newState) && ShiftKey(m) == 0)
    || (MustClear(m, SHIFT_MASK, newState) && HeldModifiers(m, down, m.current, SHIFT_MASK) == [])
  }

  /** The same for the level three modifiers, whose key must also set modifiers. */
  ghost predicate LevelThreeFails(m: Keymap, down: set<nat>, mask: Mods, newState: Mods)
    requires Valid(m)
  {
    || (MustSet(m, mask, newState) && (LevelThreeKey(m) == 0 || !ActionOf(m, LevelThreeKey(m), m.current).SetMods?))
    || (MustClear(m, mask, newState) && HeldModifiers(m, down, m.current, mask) == [])
  }

  /** A fake Shift change; a press is one of the first key that sets Shift. */
  ghost predicate ShiftFor(m: Keymap, down: set<nat>, newState: Mods, f: Fake)
    requires Valid(m)
  {
    FakeFor(m, down, SHIFT_MASK, newState, f) && (f.FakePress? ==> f.key == ShiftKey(m))
  }

  method FakeShift(m: Keymap, down: set<nat>, newState: Mods) returns (ok: bool, f: Fake)
    requires Valid(m)
    ensures ok <==> !ShiftFails(m, down, newState)
    ensures ok ==> ShiftFor(m, down, newState, f)
  {
    ok, f := true, NoFake;
    if m.current * SHIFT_MASK == {} && newState * SHIFT_MASK != {} {
      var c := FindShift(m);
      ok, f := c != 0, FakePress(c);
    } else if m.current * SHIFT_MASK != {} && newState * SHIFT_MASK == {} {
      var keys := FindHeld(m, down, m.current, SHIFT_MASK);
      ok, f := keys != [], FakeRelease(keys);
    }
  }

  method FakeLevelThree(m: Keymap, down: set<nat>, mask: Mods, newState: Mods) returns (ok: bool, f: Fake)
    requires Valid(m) && (mask == {} || mask == LevelThree(m))
    ensures ok <==> !LevelThreeFails(m, down, mask, newState)
    ensures ok ==> FakeFor(m, down, mask, newState, f)
  {
    ok, f := true, NoFake;
    if m.current * mask == {} && newState * mask != {} {
      var c := FindLevelThree(m);
      ok, f := c != 0, FakePress(c);
    } else if m.current * mask != {} && newState * mask == {} {
      var levelThree := LevelThreeMask(m);
      var keys := FindHeld(m, down, m.current, levelThree);
      ok, f := keys != [], FakeRelease(keys);
    }
  }

  // ------------------------------------------------------------------- choosing the key

  /** What a call depends on: the keymap, the keys held down, the table of equivalent keysyms, which keys NumLock affects,
      and the keymap after adding the keysym, if there was room for it. */
  datatype Env = Env(m: Keymap, down: set<nat>, alternates: seq<(KeySym, KeySym)>, numLock: nat -> bool, canAdd: bool, added: Keymap)

  ghost predicate EnvOk(e: Env) {
    Valid(e.m) && Valid(e.added) && e.added.current == e.m.current
  }

  predicate IsAlternate(p: (KeySym, KeySym), keysym: KeySym) {
    p.0 == keysym || p.1 == keysym
  }

  function Other(p: (KeySym, KeySym), keysym: KeySym): (r: KeySym) {
    if p.0 == keysym then p.1 else p.0
  }

  ghost predicate Equivalent(alternates: seq<(KeySym, KeySym)>, keysym: KeySym, sym: KeySym) {
    sym == keysym || exists p :: p in alternates && IsAlternate(p, keysym) && sym == Other(p, keysym)
  }

  /** A pair of the table makes each of its keysyms equivalent to the other; nothing else does. */
  lemma EquivalentIs(alternates: seq<(KeySym, KeySym)>, keysym: KeySym, sym: KeySym)
    ensures Equivalent(alternates, keysym, sym) <==> sym == keysym || (keysym, sym) in alternates || (sym, keysym) in alternates
  {
    if (keysym, sym) in alternates {
      assert IsAlternate((keysym, sym), keysym) && Other((keysym, sym), keysym) == sym;
    } else if (sym, keysym) in alternates && sym != keysym {
      assert IsAlternate((sym, keysym), keysym) && Other((sym, keysym), keysym) == sym;
    }
  }

  /** The key and state come from a search for the keysym or an equivalent one. */
  ghost predicate KeyFor(m: Keymap, alternates: seq<(KeySym, KeySym)>, keysym: KeySym, c: nat, newState: Mods)
    requires Valid(m)
  {
    c != 0 && exists sym :: Equivalent(alternates, keysym, sym) && Found(m, m.current, sym, c, newState)
  }

  /** This equivalence offers no key. */
  ghost predicate NoKeyVia(m: Keymap, p: (KeySym, KeySym), keysym: KeySym)
    requires Valid(m)
  {
    IsAlternate(p, keysym) ==> Found(m, m.current, Other(p, keysym), 0, {})
  }

  ghost predicate NoAlternate(m: Keymap, alternates: seq<(KeySym, KeySym)>, keysym: KeySym)
    requires Valid(m)
  {
    NoneBefore(m, alternates, keysym, |alternates|)
  }

  /** None of the first `n` equivalences does. */
  ghost predicate NoneBefore(m: Keymap, alternates: seq<(KeySym, KeySym)>, keysym: KeySym, n: nat)
    requires Valid(m) && n <= |alternates|
  {
    forall i :: 0 <= i < n ==> NoKeyVia(m, alternates[i], keysym)
  }

  method TryAlternate(m: Keymap, p: (KeySym, KeySym), keysym: KeySym) returns (c: nat, newState: Mods)
    requires Valid(m)
    ensures c != 0 ==> KeyFor(m, [p], keysym, c, newState)
    ensures c == 0 ==> NoKeyVia(m, p, keysym)
  {
    if !IsAlternate(p, keysym) { return 0, m.current; }
    c, newState := KeysymToKeycode(m, Other(p, keysym), m.current, true);
    if c != 0 {
      assert p in [p];
      assert Equivalent([p], keysym, Other(p, keysym));
    }
  }

  lemma KeyForAny(m: Keymap, alternates: seq<(KeySym, KeySym)>, i: nat, keysym: KeySym, c: nat, newState: Mods)
    requires Valid(m) && i < |alternates| && KeyFor(m, [alternates[i]], keysym, c, newState)
    ensures KeyFor(m, alternates, keysym, c, newState)
  {
    var sym :| Equivalent([alternates[i]], keysym, sym) && Found(m, m.current, sym, c, newState);
    assert alternates[i] in alternates;
    assert Equivalent(alternates, keysym, sym);
  }

  method TryNext(m: Keymap, alternates: seq<(KeySym, KeySym)>, i: nat, keysym: KeySym) returns (c: nat, newState: Mods)
    requires Valid(m) && i < |alternates| && NoneBefore(m, alternates, keysym, i)
    ensures c != 0 ==> KeyFor(m, alternates, keysym, c, newState)
    ensures c == 0 ==> NoneBefore(m, alternates, keysym, i + 1)
  {
    c, newState := TryAlternate(m, alternates[i], keysym);
    if c != 0 {
      KeyForAny(m, alternates, i, keysym, c, newState);
    }
  }

  method TryAlternates(m: Keymap, alternates: seq<(KeySym, KeySym)>, keysym: KeySym) returns (c: nat, newState: Mods)
    requires Valid(m)
    ensures c != 0 ==> KeyFor(m, alternates, keysym, c, newState)
    ensures c == 0 ==> NoAlternate(m, alternates, keysym)
  {
    var i := 0;
    while i < |alternates|
      invariant 0 <= i <= |alternates| && NoneBefore(m, alternates, keysym, i)
    {
      c, newState := TryNext(m, alternates, i, keysym);
      if c != 0 { return; }
      i := i + 1;
    }
    return 0, m.current;
  }

  method FindKey(e: Env, keysym: KeySym) returns (m: Keymap, c: nat, newState: Mods)
    requires EnvOk(e)
    ensures m == e.m || m == e.added
    ensures c != 0 ==> KeyFor(m, e.alternates, keysym, c, newState)
    ensures c == 0 ==> Found(e.m, e.m.current, keysym, 0, {}) && NoAlternate(e.m, e.alternates, keysym)
    ensures c == 0 && e.canAdd ==> Found(e.added, e.m.current, keysym, 0, {})
  {
    m := e.m;
    c, newState := KeysymToKeycode(m, keysym, m.current, true);
    if c != 0 { return; }
    c, newState := TryAlternates(m, e.alternates, keysym);
    if c != 0 || !e.canAdd { return; }
    m := e.added;
    c, newState := KeysymToKeycode(m, keysym, m.current, true);
  }

  predicate NeedsShift(m: Keymap, newState: Mods) {
    m.current * SHIFT_MASK != newState * SHIFT_MASK
  }

  lemma NeedsShiftIs(m: Keymap, newState: Mods)
    ensures NeedsShift(m, newState) <==> (0 in m.current) != (0 in newState)
  {
    assert 0 in m.current * SHIFT_MASK <==> 0 in m.current;
    assert 0 in newState * SHIFT_MASK <==> 0 in newState;
  }

  /** This equivalence offers no key, or one that needs a fake Shift too. */
  ghost predicate NoBetterVia(e: Env, m: Keymap, p: (KeySym, KeySym), keysym: KeySym)
    requires Valid(m)
  {
    NoKeyVia(m, p, keysym) || exists d, state :: KeyFor(m, [p], keysym, d, state) && NeedsShift(m, state) && e.numLock(d)
  }

  ghost predicate NoBetterBefore(e: Env, m: Keymap, keysym: KeySym, n: nat)
    requires Valid(m) && n <= |e.alternates|
  {
    forall i :: 0 <= i < n ==> NoBetterVia(e, m, e.alternates[i], keysym)
  }

  method TryBetter(e: Env, m: Keymap, i: nat, keysym: KeySym) returns (found: bool, d: nat, state: Mods)
    requires Valid(m) && i < |e.alternates| && NoBetterBefore(e, m, keysym, i)
    ensures found ==> KeyFor(m, e.alternates, keysym, d, state) && !(NeedsShift(m, state) && e.numLock(d))
    ensures !found ==> NoBetterBefore(e, m, keysym, i + 1)
  {
    d, state := TryAlternate(m, e.alternates[i], keysym);
    found := d != 0 && !(NeedsShift(m, state) && e.numLock(d));
    if d != 0 {
      KeyForAny(m, e.alternates, i, keysym, d, state);
    }
    assert !found ==> NoBetterVia(e, m, e.alternates[i], keysym);
  }

  method FindBetter(e: Env, m: Keymap, keysym: KeySym) returns (found: bool, d: nat, state: Mods)
    requires Valid(m)
    ensures found ==> KeyFor(m, e.alternates, keysym, d, state) && !(NeedsShift(m, state) && e.numLock(d))
    ensures !found ==> NoBetterBefore(e, m, keysym, |e.alternates|)
  {
    var i := 0;
    while i < |e.alternates|
      invariant 0 <= i <= |e.alternates| && NoBetterBefore(e, m, keysym, i)
    {
      found, d, state := TryBetter(e, m, i, keysym);
      if found { return; }
      i := i + 1;
    }
    return false, 0, m.current;
  }

  /** On the numeric pad, an equivalent keysym that needs no fake Shift is preferred. */
  method AvoidShift(e: Env, m: Keymap, keysym: KeySym, c: nat, newState: Mods) returns (d: nat, state: Mods)
    requires Valid(m) && KeyFor(m, e.alternates, keysym, c, newState)
    ensures KeyFor(m, e.alternates, keysym, d, state)
    ensures (d, state) != (c, newState) ==> NeedsShift(m, newState) && e.numLock(c) && !(NeedsShift(m, state) && e.numLock(d))
    ensures NeedsShift(m, state) && e.numLock(d) ==>
      (d, state) == (c, newState) && NoBetterBefore(e, m, keysym, |e.alternates|)
  {
    if !NeedsShift(m, newState) || !e.numLock(c) { return c, newState; }
    var found;
    found, d, state := FindBetter(e, m, keysym);
    if !found { return c, newState; }
  }

  // ------------------------------------------------------------------- the event function

  datatype Outcome =
    | NoKey
    | NoShift
    | NoLevelThree(shift: Fake)
    | Pressed(key: nat, shift: Fake, levelThree: Fake)

  /** The state asked for: a shifted Tab keeps Shift. */
  function Target(m: Keymap, keysym: KeySym, newState: Mods): (r: Mods) {
    if keysym == TAB && m.current * SHIFT_MASK != {} then newState + SHIFT_MASK else newState
  }

  /** The level three modifiers, when more than Shift has to change. */
  ghost function LevelThreeNeeded(m: Keymap, target: Mods): (mask: Mods)
    requires Valid(m)
  {
    if target - SHIFT_MASK != m.current - SHIFT_MASK then LevelThree(m) else {}
  }

  /** The key to press and the state to press it in. */
  ghost predicate Chosen(e: Env, m: Keymap, keysym: KeySym, key: nat, target: Mods) {
    && Valid(m) && (m == e.m || m == e.added) && InRange(m, key)
    && exists newState :: KeyFor(m, e.alternates, keysym, key, newState) && target == Target(m, keysym, newState)
  }

  method Choose(e: Env, keysym: KeySym) returns (m: Keymap, key: nat, target: Mods)
    requires EnvOk(e)
    ensures Valid(m) && (m == e.m || m == e.added)
    ensures key != 0 ==> Chosen(e, m, keysym, key, target)
    ensures key == 0 ==> Found(e.m, e.m.current, keysym, 0, {}) && NoAlternate(e.m, e.alternates, keysym)
    ensures key == 0 && e.canAdd ==> Found(e.added, e.m.current, keysym, 0, {})
  {
    var c, newState;
    m, c, newState := FindKey(e, keysym);
    if c == 0 { return m, 0, newState; }
    key, newState := AvoidShift(e, m, keysym, c, newState);
    target := Target(m, keysym, newState);
    KeyForInRange(m, e.alternates, keysym, key, newState);
  }

  /** The fake changes that lead from the current state to the target. */
  ghost predicate Fakes(m: Keymap, down: set<nat>, target: Mods, shift: Fake, levelThree: Fake)
    requires Valid(m)
  {
    FakeFor(m, down, SHIFT_MASK, target, shift) && FakeFor(m, down, LevelThreeNeeded(m, target), target, levelThree)
  }

  /** Shift can be changed as needed, and level three cannot. */
  ghost predicate GivesUp(m: Keymap, down: set<nat>, target: Mods)
    requires Valid(m)
  {
    !ShiftFails(m, down, target) && LevelThreeFails(m, down, LevelThreeNeeded(m, target), target)
  }

  method NeededLevelThree(m: Keymap, target: Mods) returns (mask: Mods)
    requires Valid(m)
    ensures mask == LevelThreeNeeded(m, target) && (mask == {} || mask == LevelThree(m))
  {
    mask := {};
    if target - SHIFT_MASK != m.current - SHIFT_MASK {
      mask := LevelThreeMask(m);
    }
  }

  lemma Regroup(a: seq<Event>, b: seq<Event>, c: seq<Event>)
    ensures (a + b) + c == a + (b + c)
  {}

  class Injector {
    const pressedKeys: array<KeySym>
    var queue: seq<Event>

    ghost predicate Ok()
      reads this, pressedKeys
    {
      pressedKeys.Length == KEYS
    }

    constructor ()
      ensures Ok() && fresh(pressedKeys) && queue == [] && pressedKeys[..] == After([])
    {
      pressedKeys := new KeySym[KEYS](_ => NO_SYMBOL);
      queue := [];
    }

    /** The release half: the first slot with the keysym is cleared and its key released. */
    method KeyUp(keysym: KeySym)
      requires Ok()
      modifies this, pressedKeys
      ensures pressedKeys[..] == Forgotten(old(pressedKeys[..]), keysym)
      ensures var n := FirstSlot(old(pressedKeys[..]), keysym, 0);
        queue == old(queue) + if n < KEYS then [KeyRelease(n)] else []
    {
      ghost var t: Table := pressedKeys[..];
      var i := 0;
      while i < KEYS
        invariant 0 <= i <= KEYS && FirstSlot(t, keysym, i) == FirstSlot(t, keysym, 0)
        invariant pressedKeys[..] == t && queue == old(queue)
      {
        if pressedKeys[i] == keysym {
          pressedKeys[i] := NO_SYMBOL;
          queue := queue + [KeyRelease(i)];
          return;
        }
        i := i + 1;
      }
    }

    method Record(keysym: KeySym, key: nat)
      requires Ok() && key < KEYS
      modifies pressedKeys
      ensures pressedKeys[..] == Recorded(old(pressedKeys[..]), keysym, key)
    {
      var i := 0;
      while i < KEYS
        invariant 0 <= i <= KEYS
        invariant forall k :: 0 <= k < KEYS ==>
          pressedKeys[k] == if k < i && k != key && old(pressedKeys[k]) == keysym then NO_SYMBOL else old(pressedKeys[k])
      {
        if i != key && pressedKeys[i] == keysym {
          pressedKeys[i] := NO_SYMBOL;
        }
        i := i + 1;
      }
      pressedKeys[key] := keysym;
    }

    method Post(e: seq<Event>)
      modifies this
      ensures queue == old(queue) + e
    {
      var i := 0;
      while i < |e|
        invariant 0 <= i <= |e| && queue == old(queue) + e[..i]
      {
        queue := queue + [e[i]];
        i := i + 1;
      }
    }

    /** The real press, between its fake modifiers. */
    method Inject(keysym: KeySym, key: nat, shift: Fake, levelThree: Fake)
      requires Ok() && key < KEYS
      modifies this, pressedKeys
      ensures queue == old(queue) + (Begin(levelThree) + ([KeyPress(key)] + (Undo(levelThree) + Undo(shift))))
      ensures pressedKeys[..] == Recorded(old(pressedKeys[..]), keysym, key)
    {
      Post(Begin(levelThree));
      Post([KeyPress(key)]);
      Record(keysym, key);
      Post(Undo(levelThree));
      Post(Undo(shift));
    }

    /** What a call has done by its outcome: whole groups of fake events, around the real press if it got that far. */
    twostate predicate Did(o: Outcome, m: Keymap, down: set<nat>, keysym: KeySym, target: Mods)
      requires old(Ok()) && Ok() && Valid(m)
      reads this, pressedKeys
    {
      match o
      case NoKey => queue == old(queue) && pressedKeys[..] == old(pressedKeys[..])
      case NoShift => ShiftFails(m, down, target) && queue == old(queue) && pressedKeys[..] == old(pressedKeys[..])
      case NoLevelThree(shift) =>
        && GivesUp(m, down, target) && ShiftFor(m, down, target, shift)
        && queue == old(queue) + Begin(shift) && pressedKeys[..] == old(pressedKeys[..])
      case Pressed(key, shift, levelThree) =>
        && !ShiftFails(m, down, target) && !GivesUp(m, down, target)
        && key < KEYS && Fakes(m, down, target, shift, levelThree)
        && queue == old(queue) + PressTrace(shift, levelThree, key)
        && pressedKeys[..] == Recorded(old(pressedKeys[..]), keysym, key)
    }

    method PressKey(m: Keymap, down: set<nat>, keysym: KeySym, key: nat, target: Mods) returns (o: Outcome)
      requires Ok() && Valid(m) && key < KEYS
      modifies this, pressedKeys
      ensures !o.NoKey? && (o.Pressed? ==> o.key == key) && Did(o, m, down, keysym, target)
    {
      var mask := NeededLevelThree(m, target);
      var ok, shift := FakeShift(m, down, target);
      if !ok { return NoShift; }
      Post(Begin(shift));
      var levelThree;
      ok, levelThree := FakeLevelThree(m, down, mask, target);
      if !ok { return NoLevelThree(shift); }
      Inject(keysym, key, shift, levelThree);
      Regroup(old(queue), Begin(shift), Begin(levelThree) + ([KeyPress(key)] + (Undo(levelThree) + Undo(shift))));
      o := Pressed(key, shift, levelThree);
    }

    /** The press half. */
    method KeyDown(e: Env, keysym: KeySym) returns (o: Outcome, m: Keymap, target: Mods)
      requires Ok() && EnvOk(e)
      modifies this, pressedKeys
      ensures Valid(m) && Did(o, m, e.down, keysym, target)
      ensures !o.NoKey? ==> exists key :: Chosen(e, m, keysym, key, target)
      ensures o.Pressed? ==> Chosen(e, m, keysym, o.key, target)
      ensures old(queue) <= queue
      ensures o.NoLevelThree? ==> (Held(e.down, queue[|old(queue)|..]) == e.down <==> LeavesShift(m, e.down, target))
      ensures o.NoKey? ==> Found(e.m, e.m.current, keysym, 0, {}) && NoAlternate(e.m, e.alternates, keysym)
    {
      var key;
      m, key, target := Choose(e, keysym);
      if key == 0 { return NoKey, m, target; }
      o := PressKey(m, e.down, keysym, key, target);
      if o.NoLevelThree? {
        assert queue[|old(queue)|..] == Begin(o.shift);
        GivingUpLeavesShift(m, e.down, target, o.shift);
      }
    }
  }

  lemma KeyForInRange(m: Keymap, alternates: seq<(KeySym, KeySym)>, keysym: KeySym, c: nat, newState: Mods)
    requires Valid(m) && KeyFor(m, alternates, keysym, c, newState)
    ensures InRange(m, c) && c < KEYS
  {
    var sym :| Equivalent(alternates, keysym, sym) && Found(m, m.current, sym, c, newState);
    FoundMeans(m, m.current, sym, c, newState);
  }

  lemma KeyForYields(m: Keymap, alternates: seq<(KeySym, KeySym)>, keysym: KeySym, c: nat, newState: Mods) returns (sym: KeySym)
    requires Valid(m) && KeyFor(m, alternates, keysym, c, newState)
    ensures Equivalent(alternates, keysym, sym) && Yields(m, c, newState, sym)
  {
    sym :| Equivalent(alternates, keysym, sym) && Found(m, m.current, sym, c, newState);
    FoundMeans(m, m.current, sym, c, newState);
  }

  lemma TargetKeeps(m: Keymap, keysym: KeySym, newState: Mods)
    ensures keysym != TAB || 0 !in m.current ==> Target(m, keysym, newState) == newState
    ensures keysym == TAB && 0 in m.current ==>
      0 in Target(m, keysym, newState) && SameOutside(Target(m, keysym, newState), newState, SHIFT_MASK)
  {
    assert 0 in m.current ==> 0 in m.current * SHIFT_MASK;
  }

  /** Some equivalent of the keysym is yielded by the key in the state. */
  ghost predicate YieldsEquivalent(e: Env, m: Keymap, keysym: KeySym, key: nat, state: Mods)
    requires Valid(m)
  {
    exists sym :: Equivalent(e.alternates, keysym, sym) && Yields(m, key, state, sym)
  }

  /** The key a call chooses yields the keysym or an equivalent one in the state it asks for; only a shifted Tab keeps Shift
      although its key may not need it, and then everything but Shift is as the key needs. */
  lemma ChosenYields(e: Env, m: Keymap, keysym: KeySym, key: nat, target: Mods)
    requires Chosen(e, m, keysym, key, target)
    ensures keysym != TAB || 0 !in m.current ==> YieldsEquivalent(e, m, keysym, key, target)
    ensures keysym == TAB && 0 in m.current ==>
      0 in target && exists state :: YieldsEquivalent(e, m, keysym, key, state) && SameOutside(target, state, SHIFT_MASK)
  {
    var newState :| KeyFor(m, e.alternates, keysym, key, newState) && target == Target(m, keysym, newState);
    var sym := KeyForYields(m, e.alternates, keysym, key, newState);
    assert YieldsEquivalent(e, m, keysym, key, newState);
    TargetKeeps(m, keysym, newState);
  }

  /** A call that reaches the real press leaves exactly the held keys and the pressed one down, unless a fake press
      used a key that was already down or is the pressed key itself. */
  lemma PressNetEffect(m: Keymap, down: set<nat>, target: Mods, shift: Fake, levelThree: Fake, key: nat)
    requires Valid(m) && Fakes(m, down, target, shift, levelThree)
    ensures Held(down, PressTrace(shift, levelThree, key)) == down + {key} <==>
      KeyEvents.Pressed(shift) !! (down + {key}) && KeyEvents.Pressed(levelThree) - Released(shift) !! (down + {key})
  {
    FakesCancel(down, shift, levelThree, key);
  }

  /** Shift is as the target wants it, or the key that is pressed for it is down already. */
  ghost predicate LeavesShift(m: Keymap, down: set<nat>, target: Mods)
    requires Valid(m)
  {
    !NeedsShift(m, target) || (m.current * SHIFT_MASK == {} && ShiftKey(m) in down)
  }

  /** A call that gives up on level three does not take its fake Shift change back: the keys down are as before exactly
      when Shift did not have to change, or the key pressed for it was down already. */
  lemma GivingUpLeavesShift(m: Keymap, down: set<nat>, target: Mods, shift: Fake)
    requires Valid(m) && ShiftFor(m, down, target, shift)
    ensures Held(down, Begin(shift)) == down <==> LeavesShift(m, down, target)
  {
    HeldFake(down, shift);
    OneBit(m.current, target);
    if shift.FakeRelease? {
      assert shift.keys[0] in KeySet(shift.keys);
    }
  }

  /** Shift is a single bit. */
  lemma OneBit(a: Mods, b: Mods)
    ensures a * SHIFT_MASK == b * SHIFT_MASK <==> ((a * SHIFT_MASK == {}) <==> (b * SHIFT_MASK == {}))
  {
    assert a * SHIFT_MASK == if 0 in a then {0} else {};
    assert b * SHIFT_MASK == if 0 in b then {0} else {};
  }
}
