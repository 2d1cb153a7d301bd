/**
  Key presses and releases by keysym: the table that remembers which key each press used, and the fake modifier events
  put around a real key press.
 */
module KeyEvents {
  import opened KeysymSearch

  const KEYS: nat := 256
  const MAX_RELEASE: nat := 8

  // ------------------------------------------------------------------- the table of pressed keys

  /** `pressedKeys`: for each keycode the keysym whose press used it, or NoSymbol. */
  type Table = t: seq<KeySym> | |t| == KEYS witness seq(KEYS, _ => 0)

  datatype Call = Press(keysym: KeySym, key: nat) | Release(keysym: KeySym)

  /** No real keysym occupies two slots. */
  predicate Distinct(t: Table) {
    forall i, j :: 0 <= i < KEYS && 0 <= j < KEYS && t[i] == t[j] && t[i] != NO_SYMBOL ==> i == j
  }

  /** The first slot from `i` on that holds the keysym, or 256. */
  function FirstSlot(t: Table, keysym: KeySym, i: nat): (n: nat)
    requires i <= KEYS
    ensures i <= n <= KEYS && (n < KEYS ==> t[n] == keysym) && forall j :: i <= j < n ==> t[j] != keysym
    decreases KEYS - i
  {
    if i == KEYS || t[i] == keysym then i else FirstSlot(t, keysym, i + 1)
  }

  function Recorded(t: Table, keysym: KeySym, key: nat): (r: Table)
    requires key < KEYS
    ensures forall i :: 0 <= i < KEYS ==> r[i] == if i == key then keysym else if t[i] == keysym then NO_SYMBOL else t[i]
  {
    seq(KEYS, i requires 0 <= i < KEYS => if i == key then keysym else if t[i] == keysym then NO_SYMBOL else t[i])
  }

  function Forgotten(t: Table, keysym: KeySym): (r: Table) {
    var n := FirstSlot(t, keysym, 0);
    if n < KEYS then t[n := NO_SYMBOL] else t
  }

  predicate IsCall(c: Call) {
    c.Press? ==> c.key < KEYS
  }

  /** The table after a sequence of calls, from the empty table; presses that find no key leave it alone. */
  function After(calls: seq<Call>): (t: Table)
    requires forall i :: 0 <= i < |calls| ==> IsCall(calls[i])
  {
    if calls == [] then seq(KEYS, _ => NO_SYMBOL)
    else
      var last := calls[|calls| - 1];
      assert IsCall(last);
      var t := After(calls[..|calls| - 1]);
      match last
      case Press(keysym, key) => Recorded(t, keysym, key)
      case Release(keysym) => Forgotten(t, keysym)
  }

  /** Whether the last call that mentions the key or the keysym is a press of this keysym on this key. */
  predicate LastPressedOn(calls: seq<Call>, keysym: KeySym, key: nat) {
    if calls == [] then false
    else
      var last, before := calls[|calls| - 1], calls[..|calls| - 1];
      match last
      case Press(s, k) => if s == keysym || k == key then s == keysym && k == key else LastPressedOn(before, keysym, key)
      case Release(s) => s != keysym && LastPressedOn(before, keysym, key)
  }

  /** Over every sequence of calls: no real keysym is in two slots, and a slot holds a keysym exactly when the history
      says its press used that key and neither was reassigned since. */
  lemma {:induction false} TableIsHistory(calls: seq<Call>)
    requires forall i :: 0 <= i < |calls| ==> IsCall(calls[i])
    ensures Distinct(After(calls))
    ensures forall keysym, key :: keysym != NO_SYMBOL && 0 <= key < KEYS ==>
      (After(calls)[key] == keysym <==> LastPressedOn(calls, keysym, key))
  {
    if calls != [] {
      var last, before := calls[|calls| - 1], calls[..|calls| - 1];
      assert IsCall(last);
      TableIsHistory(before);
      var t, r := After(before), After(calls);
      forall keysym: KeySym, key: nat | keysym != NO_SYMBOL && key < KEYS
        ensures r[key] == keysym <==> LastPressedOn(calls, keysym, key)
      {
        assert t[key] == keysym <==> LastPressedOn(before, keysym, key);
      }
    }
  }

  /** A release finds the key its press used exactly when that slot was not reassigned; otherwise it finds nothing. */
  lemma ReleaseMatchesPress(calls: seq<Call>, keysym: KeySym)
    requires (forall i :: 0 <= i < |calls| ==> IsCall(calls[i])) && keysym != NO_SYMBOL
    ensures var n := FirstSlot(After(calls), keysym, 0);
      forall k: nat :: k < KEYS ==> (LastPressedOn(calls, keysym, k) <==> k == n)
  {
    TableIsHistory(calls);
    var t := After(calls);
    var n := FirstSlot(t, keysym, 0);
    forall k: nat | k < KEYS
      ensures LastPressedOn(calls, keysym, k) <==> k == n
    {
      assert t[k] == keysym <==> LastPressedOn(calls, keysym, k);
    }
  }

  // ------------------------------------------------------------------- fake modifiers

  datatype Event = KeyPress(key: nat) | KeyRelease(key: nat)

  /** A temporary change of one modifier. */
  datatype Fake = NoFake | FakePress(key: nat) | FakeRelease(keys: seq<nat>)

  function Presses(keys: seq<nat>): (e: seq<Event>) {
    seq(|keys|, i requires 0 <= i < |keys| => KeyPress(keys[i]))
  }

  function Releases(keys: seq<nat>): (e: seq<Event>) {
    seq(|keys|, i requires 0 <= i < |keys| => KeyRelease(keys[i]))
  }

  function Begin(f: Fake): (e: seq<Event>) {
    match f
    case NoFake => []
    case FakePress(key) => [KeyPress(key)]
    case FakeRelease(keys) => Releases(keys)
  }

  function Undo(f: Fake): (e: seq<Event>) {
    match f
    case NoFake => []
    case FakePress(key) => [KeyRelease(key)]
    case FakeRelease(keys) => Presses(keys)
  }

  /** A real press with its fake modifiers nested around it. */
  function PressTrace(shift: Fake, levelThree: Fake, key: nat): (e: seq<Event>) {
    Begin(shift) + (Begin(levelThree) + ([KeyPress(key)] + (Undo(levelThree) + Undo(shift))))
  }

  /** The keys held down after a sequence of events. */
  function Held(down: set<nat>, events: seq<Event>): (r: set<nat>)
    decreases events
  {
    if events == [] then down
    else
      match events[0]
      case KeyPress(key) => Held(down + {key}, events[1..])
      case KeyRelease(key) => Held(down - {key}, events[1..])
  }

  function KeySet(keys: seq<nat>): (r: set<nat>) {
    set k | k in keys
  }

  lemma {:induction false} HeldConcat(down: set<nat>, a: seq<Event>, b: seq<Event>)
    ensures Held(down, a + b) == Held(Held(down, a), b)
    decreases |a|
  {
    if a == [] {
      assert a + b == b;
    } else {
      assert (a + b)[1..] == a[1..] + b;
      HeldConcat(if a[0].KeyPress? then down + {a[0].key} else down - {a[0].key}, a[1..], b);
    }
  }

  lemma {:induction false} HeldPresses(down: set<nat>, keys: seq<nat>)
    ensures Held(down, Presses(keys)) == down + KeySet(keys)
    decreases |keys|
  {
    if keys != [] {
      assert Presses(keys)[1..] == Presses(keys[1..]);
      HeldPresses(down + {keys[0]}, keys[1..]);
      assert KeySet(keys) == {keys[0]} + KeySet(keys[1..]);
    }
  }

  lemma {:induction false} HeldReleases(down: set<nat>, keys: seq<nat>)
    ensures Held(down, Releases(keys)) == down - KeySet(keys)
    decreases |keys|
  {
    if keys != [] {
      assert Releases(keys)[1..] == Releases(keys[1..]);
      HeldReleases(down - {keys[0]}, keys[1..]);
      assert KeySet(keys) == {keys[0]} + KeySet(keys[1..]);
    }
  }

  function Pressed(f: Fake): (r: set<nat>) {
    if f.FakePress? then {f.key} else {}
  }

  function Released(f: Fake): (r: set<nat>) {
    if f.FakeRelease? then KeySet(f.keys) else {}
  }

  lemma HeldFake(down: set<nat>, f: Fake)
    ensures Held(down, Begin(f)) == (down + Pressed(f)) - Released(f)
    ensures Held(down, Undo(f)) == (down - Pressed(f)) + Released(f)
  {
    match f
    case NoFake =>
    case FakePress(key) =>
      assert Held(down, [KeyPress(key)]) == Held(down + {key}, []);
      assert Held(down, [KeyRelease(key)]) == Held(down - {key}, []);
    case FakeRelease(keys) =>
      HeldPresses(down, keys);
      HeldReleases(down, keys);
  }

  lemma HeldTrace(down: set<nat>, shift: Fake, levelThree: Fake, key: nat)
    ensures var inside := ((down + Pressed(shift)) - Released(shift) + Pressed(levelThree)) - Released(levelThree) + {key};
      Held(down, PressTrace(shift, levelThree, key))
      == (inside - Pressed(levelThree) + Released(levelThree)) - Pressed(shift) + Released(shift)
  {
    var d1 := (down + Pressed(shift)) - Released(shift);
    var d2 := (d1 + Pressed(levelThree)) - Released(levelThree);
    var d3 := d2 + {key};
    var d4 := (d3 - Pressed(levelThree)) + Released(levelThree);
    var undo := Undo(levelThree) + Undo(shift);
    HeldFake(down, shift);
    HeldFake(d1, levelThree);
    HeldFake(d3, levelThree);
    HeldFake(d4, shift);
    HeldConcat(down, Begin(shift), Begin(levelThree) + ([KeyPress(key)] + undo));
    HeldConcat(d1, Begin(levelThree), [KeyPress(key)] + undo);
    assert ([KeyPress(key)] + undo)[1..] == undo;
    HeldConcat(d3, Undo(levelThree), Undo(shift));
  }

  /** The fake events cancel: afterwards exactly the keys held before, and the pressed one, are down. This needs only
      that no fake press uses a key already down or the pressed key itself, a key that Shift's release lifts excepted. */
  lemma FakesCancel(down: set<nat>, shift: Fake, levelThree: Fake, key: nat)
    requires Released(shift) <= down && Released(levelThree) <= down
    ensures Held(down, PressTrace(shift, levelThree, key)) == down + {key} <==>
      Pressed(shift) !! (down + {key}) && Pressed(levelThree) - Released(shift) !! (down + {key})
  {
    HeldTrace(down, shift, levelThree, key);
    var net := Held(down, PressTrace(shift, levelThree, key));
    if shift.FakePress? && shift.key in down + {key} {
      assert shift.key !in net;
    }
    if levelThree.FakePress? && levelThree.key in (down + {key}) - Released(shift) {
      assert levelThree.key !in net;
    }
  }
}
