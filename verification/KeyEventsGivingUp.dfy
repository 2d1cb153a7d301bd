/**
  A call of the event generator that gives up on level three and leaves Shift pressed: level three is locked, no key is held
  for it, and the keysym needs Shift without it.
 */
module KeyEventsGivingUp {
  import opened KeysymSearch
  import opened KeyEvents
  import opened KeyEventsCode

  const ONE_LEVEL := KeyType({}, [], [])
  const FOUR_LEVEL := KeyType({0, 7}, [Entry(true, {0}, 1), Entry(true, {7}, 2), Entry(true, {0, 7}, 3)], [])

  const SHIFT_KEY := Key([ONE_LEVEL], 1, [0xffe1], Wrap, [SetMods(false, {0})], {})
  const LEVEL3_KEY := Key([ONE_LEVEL], 1, [ISO_LEVEL3_SHIFT], Wrap, [SetMods(false, {7})], {})
  const LETTER_KEY := Key([FOUR_LEVEL], 4, [0x61, 0x41, 0x40, 0x23], Wrap, [], {})

  const LETTER: KeySym := 0x41

  function KeyAt(c: nat): (k: Key) {
    if c == 8 then SHIFT_KEY else if c == 9 then LEVEL3_KEY else LETTER_KEY
  }

  /** Three keys, with level three on. */
  function Layout(): (m: Keymap) {
    Keymap(8, 10, seq(256, c requires 0 <= c => KeyAt(c)), s => s, {7})
  }

  function Call(): (e: Env) {
    Env(Layout(), {}, [], _ => false, false, Layout())
  }

  lemma LayoutIsValid()
    ensures Valid(Layout()) && EnvOk(Call())
  {}

  /** The symbol of each key in the states that matter. */
  function SymbolOf(c: nat, mods: Mods): (s: KeySym) {
    if c == 8 then 0xffe1 else if c == 9 then ISO_LEVEL3_SHIFT
    else if 0 in mods then (if 7 in mods then 0x23 else 0x41) else if 7 in mods then 0x40 else 0x61
  }

  lemma FourLevels(mods: Mods)
    ensures Level(FOUR_LEVEL, mods) == if 0 in mods then (if 7 in mods then 3 else 1) else if 7 in mods then 2 else 0
  {
    var t, r := FOUR_LEVEL, mods * {0, 7};
    assert 0 in r <==> 0 in mods;
    assert 7 in r <==> 7 in mods;
    assert Selects(t, t.map_[0], mods) ==> 0 in mods && 7 !in mods;
    assert Selects(t, t.map_[1], mods) ==> 0 !in mods && 7 in mods;
    assert Selects(t, t.map_[2], mods) ==> 0 in mods && 7 in mods;
    if 0 in mods && 7 in mods {
      assert r == {0, 7};
    } else if 0 in mods {
      assert r == {0};
    } else if 7 in mods {
      assert r == {7};
    }
  }

  lemma Symbols(c: nat, mods: Mods)
    requires 8 <= c <= 10 && 13 !in mods && 14 !in mods
    ensures Valid(Layout()) && Translate(Layout(), c, mods).1 == SymbolOf(c, mods)
  {
    LayoutIsValid();
    FourLevels(mods);
    assert Layout().keys[c] == KeyAt(c);
    if c != 10 {
      assert Level(ONE_LEVEL, mods) == 0;
    }
  }

  lemma YieldsSymbol(c: nat, mods: Mods, keysym: KeySym)
    requires 13 !in mods && 14 !in mods
    ensures Valid(Layout()) && (Yields(Layout(), c, mods, keysym) <==> 8 <= c <= 10 && SymbolOf(c, mods) == keysym)
  {
    LayoutIsValid();
    if 8 <= c <= 10 {
      Symbols(c, mods);
    }
  }

  lemma AnswersLetter(mods: Mods)
    requires 13 !in mods && 14 !in mods
    ensures Valid(Layout()) && Answer(Layout(), mods, LETTER) == if 0 in mods && 7 !in mods then 10 else 0
  {
    forall c: nat
      ensures Valid(Layout()) && (Yields(Layout(), c, mods, LETTER) <==> c == 10 && 0 in mods && 7 !in mods)
    {
      YieldsSymbol(c, mods, LETTER);
    }
    var a := if 0 in mods && 7 !in mods then 10 else 0;
    assert Answers(Layout(), mods, LETTER, a);
    AnswerIsUnique(Layout(), mods, LETTER, a, Answer(Layout(), mods, LETTER));
  }

  lemma LevelThreeIs()
    ensures Valid(Layout()) && LevelThree(Layout()) == {7}
  {
    var m := Layout();
    var mods: Mods := set b | b in m.current && b >= 8;
    assert mods == {};
    forall c: nat
      ensures Valid(m) && (Yields(m, c, mods, ISO_LEVEL3_SHIFT) <==> c == 9)
    {
      YieldsSymbol(c, mods, ISO_LEVEL3_SHIFT);
    }
    assert Answers(m, mods, ISO_LEVEL3_SHIFT, 9);
    AnswerIsUnique(m, mods, ISO_LEVEL3_SHIFT, 9, Answer(m, mods, ISO_LEVEL3_SHIFT));
    assert m.keys[9] == LEVEL3_KEY;
    assert Level(ONE_LEVEL, mods) == 0;
  }

  lemma SomeAnswer(m: Keymap, tried: seq<Mods>, k: nat, keysym: KeySym)
    requires Valid(m) && k < |tried| && Answer(m, tried[k], keysym) != 0
    ensures !NoneIn(m, tried, |tried|, keysym)
  {}

  /** A search that has an answer in none but the last of the states tried. */
  lemma FoundLast(m: Keymap, tried: seq<Mods>, n: nat, keysym: KeySym, c: nat, newState: Mods)
    requires Valid(m) && |tried| == n + 1 && tried == Tried(m.current, LevelThree(m)) && Found(m, m.current, keysym, c, newState)
    requires NoneIn(m, tried, n, keysym) && Answer(m, tried[n], keysym) != 0
    ensures c != 0 && newState == tried[n]
  {
    SomeAnswer(m, tried, n, keysym);
  }

  /** The letter needs Shift and no level three. */
  predicate Fitting(mods: Mods) {
    0 in mods && 7 !in mods
  }

  lemma TriedAre(tried: seq<Mods>)
    requires tried == Tried({7}, {7})
    ensures |tried| == 4 && tried[3] == {0} && forall i :: 0 <= i < 4 ==> 13 !in tried[i] && 14 !in tried[i]
    ensures forall i :: 0 <= i < 3 ==> !Fitting(tried[i])
  {
    assert tried[0] == {7};
    assert tried[1] == {0, 7};
    assert tried[2] == {};
    assert tried[3] == {0};
  }

  lemma NoneBefore(m: Keymap, tried: seq<Mods>, n: nat)
    requires m == Layout() && Valid(m) && n <= |tried|
    requires forall i :: 0 <= i < n ==> 13 !in tried[i] && 14 !in tried[i] && !Fitting(tried[i])
    ensures NoneIn(m, tried, n, LETTER)
  {
    forall i | 0 <= i < n
      ensures Answer(m, tried[i], LETTER) == 0
    {
      AnswersLetter(tried[i]);
    }
  }

  /** The search for the letter ends in the state with Shift and without level three. */
  lemma FoundMust(m: Keymap, c: nat, newState: Mods)
    requires m == Layout() && Valid(m) && Found(m, {7}, LETTER, c, newState)
    ensures c != 0 && newState == {0}
  {
    var tried := Tried({7}, {7});
    LevelThreeIs();
    TriedAre(tried);
    NoneBefore(m, tried, 3);
    AnswersLetter(tried[3]);
    FoundLast(m, tried, 3, LETTER, c, newState);
  }

  lemma ShiftKeyIs()
    ensures Valid(Layout()) && ShiftKey(Layout()) == 8
  {
    var m := Layout();
    LayoutIsValid();
    assert m.keys[8] == SHIFT_KEY;
    assert Level(ONE_LEVEL, m.current) == 0;
    assert SetsShift(m, 8);
    ShiftKeyIsUnique(m, 8);
  }

  lemma NoneHeld(mask: Mods, c: nat)
    requires Valid(Layout())
    ensures HeldFrom(Layout(), {}, {7}, mask, c) == []
    decreases 11 - c
  {
    if c <= 10 {
      NoneHeld(mask, c + 1);
    }
  }

  lemma GivesUpHere()
    ensures Valid(Layout()) && GivesUp(Layout(), {}, {0})
  {
    LevelThreeIs();
    ShiftKeyIs();
    NoneHeld({7}, 8);
    var m := Layout();
    assert {0} - SHIFT_MASK != m.current - SHIFT_MASK by {
      assert 7 in m.current - SHIFT_MASK;
    }
    assert {0} * {7} == {} && m.current * {7} == {7};
    assert m.current * SHIFT_MASK == {} && {0} * SHIFT_MASK == {0};
  }

  lemma TargetIs(e: Env, m: Keymap, key: nat, target: Mods)
    requires e == Call() && Chosen(e, m, LETTER, key, target)
    ensures m == Layout() && target == {0}
  {
    var newState :| KeyFor(m, e.alternates, LETTER, key, newState) && target == Target(m, LETTER, newState);
    FoundMust(m, key, newState);
  }

  /** What a call for the letter must come to. */
  lemma MustGiveUp(e: Env, o: Outcome, m: Keymap, target: Mods)
    requires e == Call() && Valid(e.m) && Valid(m)
    requires o.NoKey? ==> Found(e.m, e.m.current, LETTER, 0, {})
    requires !o.NoKey? ==> exists key :: Chosen(e, m, LETTER, key, target)
    ensures !o.NoKey? && GivesUp(m, e.down, target) && MustSet(m, SHIFT_MASK, target) && ShiftKey(m) == 8
  {
    if o.NoKey? {
      FoundMust(e.m, 0, {});
    } else {
      var key :| Chosen(e, m, LETTER, key, target);
      TargetIs(e, m, key, target);
      GivesUpHere();
      ShiftKeyIs();
    }
  }

  lemma PressHolds(m: Keymap, target: Mods, shift: Fake)
    requires Valid(m) && MustSet(m, SHIFT_MASK, target) && ShiftKey(m) == 8 && ShiftFor(m, {}, target, shift)
    ensures Begin(shift) == [KeyPress(8)] && Held({}, Begin(shift)) == {8}
  {
    HeldFake({}, shift);
  }

  /** Typing the letter queues the press of the Shift key and nothing else, and Shift stays down. */
  method ShiftStaysDown() returns (o: Outcome, queued: seq<Event>)
    ensures o.NoLevelThree? && queued == [KeyPress(8)] && Held({}, queued) == {8}
  {
    LayoutIsValid();
    var e := Call();
    var injector := new Injector();
    var m, target;
    o, m, target := injector.KeyDown(e, LETTER);
    MustGiveUp(e, o, m, target);
    PressHolds(m, target, o.shift);
    queued := injector.queue;
  }
}
