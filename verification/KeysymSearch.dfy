/**
  Finding a key for a keysym: the translation of a key under a modifier state, and the search over keys and states
  that toggles Shift and the level three modifier.
 */
module KeysymSearch {

  type KeySym = nat

  /** A state or mask word, as the set of its one bits. */
  type Mods = set<nat>

  const NO_SYMBOL: KeySym := 0
  const SHIFT_MASK: Mods := {0}
  const LOCK_MASK: Mods := {1}
  const ISO_LEVEL3_SHIFT: KeySym := 0xfe03
  const MODE_SWITCH: KeySym := 0xff7e

  /** Keys no real keyboard sends; default layouts use them as a fallback for modifiers. */
  const FAKE_KEYS: seq<nat> := [92, 203, 204, 205, 206, 207]

  datatype Entry = Entry(active: bool, mask: Mods, level: nat)

  /** A key type; `preserve` is empty or has one mask for each entry. */
  datatype KeyType = KeyType(mask: Mods, map_: seq<Entry>, preserve: seq<Mods>)

  datatype OutOfRange = Wrap | Clamp | Redirect(group: nat)

  datatype Action = NoAction | SetMods(useModMap: bool, mask: Mods) | OtherAction

  /** One key: `types` has one entry for each group; `actions` is empty for a key without actions. */
  datatype Key = Key(types: seq<KeyType>, width: nat, syms: seq<KeySym>, outOfRange: OutOfRange, actions: seq<Action>, modmap: Mods)

  /** The keymap, with the upper-case half of XkbConvertCase and the current keyboard state. */
  datatype Keymap = Keymap(minCode: nat, maxCode: nat, keys: seq<Key>, upper: KeySym -> KeySym, current: Mods)

  predicate TypeOk(t: KeyType, width: nat) {
    && width > 0
    && (forall i :: 0 <= i < |t.map_| ==> t.map_[i].level < width)
    && (t.preserve == [] || |t.preserve| == |t.map_|)
  }

  predicate KeyOk(k: Key) {
    && |k.syms| == |k.types| * k.width
    && (k.actions == [] || |k.actions| == |k.syms|)
    && forall g :: 0 <= g < |k.types| ==> TypeOk(k.types[g], k.width)
  }

  ghost predicate Valid(m: Keymap) {
    && 8 <= m.minCode <= m.maxCode <= 255 && |m.keys| == 256
    && forall c :: m.minCode <= c <= m.maxCode ==> KeyOk(m.keys[c])
  }

  predicate InRange(m: Keymap, c: nat) {
    m.minCode <= c <= m.maxCode
  }

  // ------------------------------------------------------------------- translation

  function CoreGroup(mods: Mods): (g: nat) {
    (if 13 in mods then 1 else 0) + (if 14 in mods then 2 else 0)
  }

  /** The group a key uses: out-of-range groups wrap, clamp or are redirected, always into range. */
  function EffectiveGroup(k: Key, mods: Mods): (g: nat)
    requires |k.types| > 0
    ensures g < |k.types|
  {
    var g := CoreGroup(mods);
    if g < |k.types| then g
    else match k.outOfRange
      case Wrap => g % |k.types|
      case Clamp => |k.types| - 1
      case Redirect(n) => if n < |k.types| then n else 0
  }

  predicate Selects(t: KeyType, e: Entry, mods: Mods) {
    e.active && mods * t.mask == e.mask
  }

  /** The first entry from `i` on that the modifiers select, or the number of entries. */
  function FirstEntry(t: KeyType, mods: Mods, i: nat): (n: nat)
    requires i <= |t.map_|
    ensures i <= n <= |t.map_| && (n < |t.map_| ==> Selects(t, t.map_[n], mods))
    ensures forall j :: i <= j < n ==> !Selects(t, t.map_[j], mods)
    decreases |t.map_| - i
  {
    if i == |t.map_| || Selects(t, t.map_[i], mods) then i else FirstEntry(t, mods, i + 1)
  }

  function Level(t: KeyType, mods: Mods): (l: nat) {
    var n := FirstEntry(t, mods, 0);
    if n < |t.map_| then t.map_[n].level else 0
  }

  function Preserved(t: KeyType, mods: Mods): (p: Mods)
    requires t.preserve == [] || |t.preserve| == |t.map_|
  {
    var n := FirstEntry(t, mods, 0);
    if n < |t.map_| && t.preserve != [] then t.preserve[n] else {}
  }

  lemma ColumnInRange(g: nat, groups: nat, width: nat, level: nat)
    requires g < groups && level < width
    ensures g * width + level < groups * width
  {
    assert (g + 1) * width <= groups * width;
  }

  /** The symbol's column within the key: group offset plus shift level. */
  function Column(k: Key, mods: Mods): (c: nat)
    requires KeyOk(k) && |k.types| > 0
    ensures c < |k.syms|
  {
    var g := EffectiveGroup(k, mods);
    ColumnInRange(g, |k.types|, k.width, Level(k.types[g], mods));
    g * k.width + Level(k.types[g], mods)
  }

  /** The symbol of a key under a state and the modifiers its type consumes. */
  ghost function Translate(m: Keymap, c: nat, mods: Mods): (r: (Mods, KeySym))
    requires Valid(m)
  {
    if !InRange(m, c) || |m.keys[c].types| == 0 then ({}, NO_SYMBOL)
    else
      var k := m.keys[c];
      var t := k.types[EffectiveGroup(k, mods)];
      (t.mask - Preserved(t, mods), k.syms[Column(k, mods)])
  }

  ghost function ActionOf(m: Keymap, c: nat, mods: Mods): (a: Action)
    requires Valid(m)
  {
    if !InRange(m, c) || m.keys[c].actions == [] || |m.keys[c].types| == 0 then NoAction
    else m.keys[c].actions[Column(m.keys[c], mods)]
  }

  /** Upper-cases a symbol when Lock is set and the key's type did not consume it. */
  function Capitalized(m: Keymap, sym: KeySym, mods: Mods, consumed: Mods): (s: KeySym) {
    if (mods - consumed) * LOCK_MASK != {} then m.upper(sym) else sym
  }

  // ------------------------------------------------------------------- which symbol

  /** The group number in bits 13 and 14 of a state. */
  predicate Spells(mods: Mods, n: nat) {
    n < 4 && (13 in mods <==> n % 2 == 1) && (14 in mods <==> n >= 2)
  }

  /** The row of a key's symbols for group `n`: its own, or for a group the key lacks the one its setting names. */
  ghost predicate IsRow(k: Key, n: nat, row: nat) {
    && (n < |k.types| ==> row == n)
    && (n >= |k.types| && k.outOfRange.Wrap? ==> row < |k.types| && exists q: int :: n == q * |k.types| + row)
    && (n >= |k.types| && k.outOfRange.Clamp? ==> row + 1 == |k.types|)
    && (n >= |k.types| && k.outOfRange.Redirect? ==> row == if k.outOfRange.group < |k.types| then k.outOfRange.group else 0)
  }

  /** The entry of a type that a state selects: the first active one whose mask is the state's part under the type's. */
  predicate IsSelected(t: KeyType, mods: Mods, i: nat) {
    && i < |t.map_| && t.map_[i].active && t.map_[i].mask == mods * t.mask
    && forall j :: 0 <= j < i ==> !(t.map_[j].active && t.map_[j].mask == mods * t.mask)
  }

  /** No entry is selected. */
  predicate NoneSelected(t: KeyType, mods: Mods) {
    forall j :: 0 <= j < |t.map_| ==> !(t.map_[j].active && t.map_[j].mask == mods * t.mask)
  }

  lemma RowIs(k: Key, mods: Mods, n: nat, row: nat)
    requires |k.types| > 0 && Spells(mods, n) && IsRow(k, n, row)
    ensures row == EffectiveGroup(k, mods)
  {
    if n >= |k.types| && k.outOfRange.Wrap? {
      var q :| n == q * |k.types| + row;
      RemainderIs(n, q, |k.types|, row);
    }
  }

  lemma RemainderIs(n: nat, q: int, d: nat, r: nat)
    requires d > 0 && n == q * d + r && r < d
    ensures n % d == r
  {
    assert n == (n / d) * d + n % d;
    assert (q - n / d) * d == n % d - r;
    Multiple(q - n / d, d);
  }

  lemma Multiple(a: int, d: nat)
    ensures a >= 1 ==> a * d >= d
    ensures a <= -1 ==> a * d + d <= 0
  {
    if a >= 1 {
      assert a * d == (a - 1) * d + d;
    } else if a <= -1 {
      assert a * d + d == (a + 1) * d;
    }
  }

  lemma SelectedIs(t: KeyType, mods: Mods)
    ensures forall i: nat :: IsSelected(t, mods, i) ==> FirstEntry(t, mods, 0) == i
    ensures NoneSelected(t, mods) ==> FirstEntry(t, mods, 0) == |t.map_|
  {
    var n := FirstEntry(t, mods, 0);
    forall i: nat | IsSelected(t, mods, i)
      ensures n == i
    {
      assert Selects(t, t.map_[i], mods);
    }
  }

  /** In a state that spells group `n` and selects entry `i` of that row's type, a key gives the symbol and the action of
      that row and that entry's level, and consumes the type's modifiers except those the entry preserves. */
  lemma TranslatesByEntry(m: Keymap, c: nat, mods: Mods, n: nat, row: nat, i: nat)
    requires Valid(m) && InRange(m, c) && |m.keys[c].types| > 0 && Spells(mods, n) && IsRow(m.keys[c], n, row)
    requires row < |m.keys[c].types| && IsSelected(m.keys[c].types[row], mods, i)
    ensures var k := m.keys[c]; var t := k.types[row]; var col := row * k.width + t.map_[i].level;
      && col < |k.syms| && Translate(m, c, mods) == (t.mask - (if t.preserve == [] then {} else t.preserve[i]), k.syms[col])
      && (k.actions != [] ==> ActionOf(m, c, mods) == k.actions[col])
  {
    var k := m.keys[c];
    RowIs(k, mods, n, row);
    SelectedIs(k.types[row], mods);
    ColumnInRange(row, |k.types|, k.width, k.types[row].map_[i].level);
  }

  /** Without a selected entry the level is zero and all of the type's modifiers are consumed. */
  lemma TranslatesPlain(m: Keymap, c: nat, mods: Mods, n: nat, row: nat)
    requires Valid(m) && InRange(m, c) && |m.keys[c].types| > 0 && Spells(mods, n) && IsRow(m.keys[c], n, row)
    requires row < |m.keys[c].types| && NoneSelected(m.keys[c].types[row], mods)
    ensures var k := m.keys[c];
      && row * k.width < |k.syms| && Translate(m, c, mods) == (k.types[row].mask, k.syms[row * k.width])
      && (k.actions != [] ==> ActionOf(m, c, mods) == k.actions[row * k.width])
  {
    var k := m.keys[c];
    RowIs(k, mods, n, row);
    SelectedIs(k.types[row], mods);
    ColumnInRange(row, |k.types|, k.width, 0);
    assert k.types[row].mask - {} == k.types[row].mask;
  }

  /** Every symbol of every group of a key that some entry stands for is given in some state. */
  lemma EverySymbolIsReached(m: Keymap, c: nat, n: nat, i: nat) returns (mods: Mods)
    requires Valid(m) && InRange(m, c) && n < |m.keys[c].types| && n < 4 && i < |m.keys[c].types[n].map_|
    requires var t := m.keys[c].types[n];
      && 13 !in t.mask && 14 !in t.mask && t.map_[i].active && t.map_[i].mask <= t.mask
      && forall j :: 0 <= j < i ==> !(t.map_[j].active && t.map_[j].mask == t.map_[i].mask)
    ensures var k := m.keys[c]; var col := n * k.width + k.types[n].map_[i].level;
      col < |k.syms| && Translate(m, c, mods).1 == k.syms[col]
  {
    var t := m.keys[c].types[n];
    mods := t.map_[i].mask + (if n % 2 == 1 then {13} else {}) + (if n >= 2 then {14} else {});
    assert mods * t.mask == t.map_[i].mask;
    TranslatesByEntry(m, c, mods, n, n, i);
  }

  /** Pressing key `c` in state `mods` yields `keysym`. */
  ghost predicate Yields(m: Keymap, c: nat, mods: Mods, keysym: KeySym)
    requires Valid(m)
  {
    var (consumed, sym) := Translate(m, c, mods);
    InRange(m, c) && sym != NO_SYMBOL && Capitalized(m, sym, mods, consumed) == keysym
  }

  /** In a state that selects an entry, a key yields the symbol of that group and level and no other keysym; its upper-case
      form when Lock is on and the type does not consume it. */
  lemma YieldsByEntry(m: Keymap, c: nat, mods: Mods, n: nat, row: nat, i: nat, keysym: KeySym)
    requires Valid(m) && InRange(m, c) && |m.keys[c].types| > 0 && Spells(mods, n) && IsRow(m.keys[c], n, row)
    requires row < |m.keys[c].types| && IsSelected(m.keys[c].types[row], mods, i)
    requires row * m.keys[c].width + m.keys[c].types[row].map_[i].level < |m.keys[c].syms|
    ensures var k := m.keys[c]; var t := k.types[row]; var sym := k.syms[row * k.width + t.map_[i].level];
      var free := 1 in mods && (1 !in t.mask || (t.preserve != [] && 1 in t.preserve[i]));
      Yields(m, c, mods, keysym) <==> sym != NO_SYMBOL && keysym == if free then m.upper(sym) else sym
  {
    TranslatesByEntry(m, c, mods, n, row, i);
    var (consumed, sym) := Translate(m, c, mods);
    assert (mods - consumed) * LOCK_MASK != {} <==> 1 in mods - consumed by {
      if 1 in mods - consumed {
        assert 1 in (mods - consumed) * LOCK_MASK;
      }
    }
  }

  predicate IsFake(c: nat) {
    c in FAKE_KEYS
  }

  /** `c` answers the lookup in one state: the first ordinary key, else the first fake one, else zero. */
  ghost predicate Answers(m: Keymap, mods: Mods, keysym: KeySym, c: nat)
    requires Valid(m)
  {
    if c == 0 then forall d :: !Yields(m, d, mods, keysym)
    else
      && Yields(m, c, mods, keysym)
      && (forall d :: Yields(m, d, mods, keysym) && IsFake(d) == IsFake(c) ==> c <= d)
      && (IsFake(c) ==> forall d :: Yields(m, d, mods, keysym) ==> IsFake(d))
  }

  /** The lookup's answer is determined by the keymap, the state and the keysym. */
  lemma AnswerIsUnique(m: Keymap, mods: Mods, keysym: KeySym, c: nat, d: nat)
    requires Valid(m) && Answers(m, mods, keysym, c) && Answers(m, mods, keysym, d)
    ensures c == d
  {
    if c != 0 {
      assert Yields(m, c, mods, keysym);
      if d != 0 {
        assert Yields(m, d, mods, keysym);
      }
    }
  }

  /** The first key from `c` on, among the fake ones or the others, that yields the keysym; zero if there is none. */
  ghost function FirstKey(m: Keymap, mods: Mods, keysym: KeySym, fake: bool, c: nat): (d: nat)
    requires Valid(m) && c <= m.maxCode + 1
    ensures d != 0 ==> c <= d && Yields(m, d, mods, keysym) && IsFake(d) == fake
    ensures forall e :: c <= e && Yields(m, e, mods, keysym) && IsFake(e) == fake ==> d != 0 && d <= e
    decreases m.maxCode + 1 - c
  {
    if c > m.maxCode then 0
    else if Yields(m, c, mods, keysym) && IsFake(c) == fake then c
    else FirstKey(m, mods, keysym, fake, c + 1)
  }

  ghost function Answer(m: Keymap, mods: Mods, keysym: KeySym): (c: nat)
    requires Valid(m)
    ensures Answers(m, mods, keysym, c)
  {
    var c := FirstKey(m, mods, keysym, false, m.minCode);
    if c != 0 then c else FirstKey(m, mods, keysym, true, m.minCode)
  }

  /** The modifiers a key sets in a state: its own or, where its action says so, those of the modifier map. */
  ghost function SetBy(m: Keymap, c: nat, mods: Mods): (mask: Mods)
    requires Valid(m)
  {
    var a := ActionOf(m, c, mods);
    if !a.SetMods? then {} else if a.useModMap then m.keys[c].modmap else a.mask
  }

  /** A state without its modifiers. */
  function GroupPart(s: Mods): (g: Mods)
    ensures forall b: nat :: b in g <==> b in s && b >= 8
  {
    set b | b in s && b >= 8
  }

  ghost function SetByFirst(m: Keymap, iso: nat, mode: nat, mods: Mods): (mask: Mods)
    requires Valid(m)
  {
    if iso != 0 then SetBy(m, iso, mods) else if mode != 0 then SetBy(m, mode, mods) else {}
  }

  /** The modifier of the key for ISO_Level3_Shift, or failing that Mode_switch, in the current group. */
  ghost function LevelThree(m: Keymap): (mask: Mods)
    requires Valid(m)
  {
    var mods := GroupPart(m.current);
    SetByFirst(m, Answer(m, mods, ISO_LEVEL3_SHIFT), Answer(m, mods, MODE_SWITCH), mods)
  }

  lemma AnswerIs(m: Keymap, mods: Mods, keysym: KeySym, c: nat)
    requires Valid(m) && Answers(m, mods, keysym, c)
    ensures c == Answer(m, mods, keysym)
  {
    AnswerIsUnique(m, mods, keysym, c, Answer(m, mods, keysym));
  }

  lemma LevelThreeOf(m: Keymap, group: Mods)
    requires Valid(m) && forall b: nat :: b in group <==> b in m.current && b >= 8
    ensures LevelThree(m) == SetByFirst(m, Answer(m, group, ISO_LEVEL3_SHIFT), Answer(m, group, MODE_SWITCH), group)
  {
    assert group == GroupPart(m.current);
  }

  /** In the current group, with every modifier off: what the key that answers for ISO_Level3_Shift sets, what the one for
      Mode_switch sets only if there is none, and nothing if there is neither. */
  lemma LevelThreeIs(m: Keymap, group: Mods, iso: nat, mode: nat)
    requires Valid(m) && forall b: nat :: b in group <==> b in m.current && b >= 8
    requires Answers(m, group, ISO_LEVEL3_SHIFT, iso) && Answers(m, group, MODE_SWITCH, mode)
    ensures iso != 0 ==> LevelThree(m) == SetBy(m, iso, group)
    ensures iso == 0 && mode != 0 ==> LevelThree(m) == SetBy(m, mode, group)
    ensures iso == 0 && mode == 0 ==> LevelThree(m) == {}
  {
    AnswerIs(m, group, ISO_LEVEL3_SHIFT, iso);
    AnswerIs(m, group, MODE_SWITCH, mode);
    LevelThreeOf(m, group);
  }

  // ------------------------------------------------------------------- states

  /** All bits of `mask` cleared when any was set, and all set when none was. */
  function Toggle(s: Mods, mask: Mods): (r: Mods) {
    (s - mask) + if s * mask != {} then {} else mask
  }

  function ToggleBoth(s: Mods, mask: Mods): (r: Mods) {
    (s - (SHIFT_MASK + mask)) + (if s * SHIFT_MASK != {} then {} else SHIFT_MASK) + (if s * mask != {} then {} else mask)
  }

  /** Two states that differ only in the bits of `mask`. */
  predicate SameOutside(s: Mods, t: Mods, mask: Mods) {
    s - mask == t - mask
  }

  lemma ToggleOutside(s: Mods, mask: Mods)
    ensures SameOutside(Toggle(s, SHIFT_MASK), s, SHIFT_MASK + mask)
    ensures SameOutside(Toggle(s, mask), s, SHIFT_MASK + mask)
    ensures SameOutside(ToggleBoth(s, mask), s, SHIFT_MASK + mask)
  {}

  /** The states the search goes through, in order. */
  function Tried(s: Mods, levelThree: Mods): (r: seq<Mods>) {
    [s, Toggle(s, SHIFT_MASK)] + if levelThree == {} then [] else [Toggle(s, levelThree), ToggleBoth(s, levelThree)]
  }

  lemma TriedOutside(s: Mods, levelThree: Mods)
    ensures forall i :: 0 <= i < |Tried(s, levelThree)| ==> SameOutside(Tried(s, levelThree)[i], s, SHIFT_MASK + levelThree)
  {
    ToggleOutside(s, levelThree);
  }

  /** The search looks at every combination of Shift and level three, each on or off, and at the rest as it is. */
  lemma TriedCovers(s: Mods, levelThree: Mods, shift: bool, three: bool) returns (i: nat)
    requires levelThree != {} && 0 !in levelThree
    ensures i < |Tried(s, levelThree)| && SameOutside(Tried(s, levelThree)[i], s, SHIFT_MASK + levelThree)
    ensures 0 in Tried(s, levelThree)[i] <==> shift
    ensures if three then Tried(s, levelThree)[i] * levelThree != {} else Tried(s, levelThree)[i] * levelThree == {}
    ensures three && s * levelThree == {} ==> levelThree <= Tried(s, levelThree)[i]
  {
    TriedOutside(s, levelThree);
    var flipShift, flipThree := (0 in s) != shift, (s * levelThree != {}) != three;
    i := (if flipShift then 1 else 0) + (if flipThree then 2 else 0);
    Flips(s, SHIFT_MASK, levelThree);
    Flips(s, levelThree, SHIFT_MASK);
    BothFlip(s, levelThree);
    assert 0 in s <==> s * SHIFT_MASK != {} by {
      assert 0 in s ==> 0 in s * SHIFT_MASK;
    }
    var b := Toggle(s, SHIFT_MASK);
    assert 0 in b <==> b * SHIFT_MASK != {} by {
      assert 0 in b ==> 0 in b * SHIFT_MASK;
    }
  }

  lemma Flips(s: Mods, mask: Mods, other: Mods)
    requires mask != {} && mask !! other
    ensures Toggle(s, mask) * mask == {} <==> s * mask != {}
    ensures s * mask == {} ==> mask <= Toggle(s, mask)
    ensures Toggle(s, mask) * other == s * other
  {
    var x :| x in mask;
    if s * mask == {} {
      assert x in Toggle(s, mask) * mask;
    }
    assert forall y :: y in other ==> (y in Toggle(s, mask) <==> y in s);
  }

  lemma BothFlip(s: Mods, mask: Mods)
    requires mask != {} && 0 !in mask
    ensures 0 in ToggleBoth(s, mask) <==> s * SHIFT_MASK == {}
    ensures ToggleBoth(s, mask) * mask == {} <==> s * mask != {}
    ensures s * mask == {} ==> mask <= ToggleBoth(s, mask)
  {
    var x :| x in mask;
    if s * mask == {} {
      assert x in ToggleBoth(s, mask) * mask;
    }
  }

  /** No key in the first `n` states tried. */
  ghost predicate NoneIn(m: Keymap, tried: seq<Mods>, n: nat, keysym: KeySym)
    requires Valid(m) && n <= |tried|
  {
    forall i :: 0 <= i < n ==> Answer(m, tried[i], keysym) == 0
  }

  /** What the whole search finds: the answer in the first tried state that has one, and that state. */
  ghost predicate Found(m: Keymap, s: Mods, keysym: KeySym, c: nat, newState: Mods)
    requires Valid(m)
  {
    var tried := Tried(s, LevelThree(m));
    if c == 0 then NoneIn(m, tried, |tried|, keysym)
    else c == Answer(m, newState, keysym) && exists i :: 0 <= i < |tried| && newState == tried[i] && NoneIn(m, tried, i, keysym)
  }

  lemma TryNext(m: Keymap, s: Mods, keysym: KeySym, i: nat, c: nat)
    requires Valid(m) && i < |Tried(s, LevelThree(m))| && NoneIn(m, Tried(s, LevelThree(m)), i, keysym)
    requires c == Answer(m, Tried(s, LevelThree(m))[i], keysym)
    ensures c != 0 ==> Found(m, s, keysym, c, Tried(s, LevelThree(m))[i])
    ensures c == 0 ==> NoneIn(m, Tried(s, LevelThree(m)), i + 1, keysym)
  {}

  // ------------------------------------------------------------------- the code

  method FindEntry(t: KeyType, mods: Mods) returns (n: nat)
    ensures n == FirstEntry(t, mods, 0)
  {
    n := 0;
    while n < |t.map_| && !Selects(t, t.map_[n], mods)
      invariant n <= |t.map_| && FirstEntry(t, mods, n) == FirstEntry(t, mods, 0)
    {
      n := n + 1;
    }
  }

  method TranslateKeyCode(m: Keymap, c: nat, mods: Mods) returns (consumed: Mods, sym: KeySym)
    requires Valid(m)
    ensures (consumed, sym) == Translate(m, c, mods)
  {
    if !InRange(m, c) || |m.keys[c].types| == 0 {
      return {}, NO_SYMBOL;
    }
    var k := m.keys[c];
    var g := EffectiveGroup(k, mods);
    var t := k.types[g];
    var col, preserve := g * k.width, {};
    var n := FindEntry(t, mods);
    if n < |t.map_| {
      col := col + t.map_[n].level;
      if t.preserve != [] {
        preserve := t.preserve[n];
      }
    }
    assert col == Column(k, mods);
    return t.mask - preserve, k.syms[col];
  }

  method KeyAction(m: Keymap, c: nat, mods: Mods) returns (a: Action)
    requires Valid(m)
    ensures a == ActionOf(m, c, mods)
  {
    if !InRange(m, c) || m.keys[c].actions == [] || |m.keys[c].types| == 0 {
      return NoAction;
    }
    var k := m.keys[c];
    var g := EffectiveGroup(k, mods);
    var n := FindEntry(k.types[g], mods);
    var col := g * k.width + if n < |k.types[g].map_| then k.types[g].map_[n].level else 0;
    assert col == Column(k, mods);
    return k.actions[col];
  }

  method LevelThreeMask(m: Keymap) returns (mask: Mods)
    requires Valid(m)
    ensures mask == LevelThree(m)
    decreases 1
  {
    var mods := GroupPart(m.current);
    var c, unused := KeysymToKeycode(m, ISO_LEVEL3_SHIFT, mods, false);
    if c == 0 {
      c, unused := KeysymToKeycode(m, MODE_SWITCH, mods, false);
      if c == 0 { return {}; }
    }
    var a := KeyAction(m, c, mods);
    if !a.SetMods? { return {}; }
    return if a.useModMap then m.keys[c].modmap else a.mask;
  }

  /** The scan of one state. */
  method Scan(m: Keymap, keysym: KeySym, mods: Mods) returns (c: nat)
    requires Valid(m)
    ensures c == Answer(m, mods, keysym)
  {
    var fallback: nat := 0;
    c := m.minCode;
    while c <= m.maxCode
      invariant m.minCode <= c <= m.maxCode + 1 && Scanned(m, mods, keysym, c, fallback)
    {
      var hit := IsHit(m, keysym, mods, c);
      ScanOn(m, mods, keysym, c, fallback);
      if hit {
        if !IsFake(c) {
          AnswerIsUnique(m, mods, keysym, c, Answer(m, mods, keysym));
          return;
        }
        if fallback == 0 { fallback := c; }
      }
      c := c + 1;
    }
    c := fallback;
    ScanEnds(m, mods, keysym, fallback);
    AnswerIsUnique(m, mods, keysym, c, Answer(m, mods, keysym));
  }

  method IsHit(m: Keymap, keysym: KeySym, mods: Mods, c: nat) returns (hit: bool)
    requires Valid(m) && m.minCode <= c <= m.maxCode
    ensures hit <==> Yields(m, c, mods, keysym)
  {
    var consumed, sym := TranslateKeyCode(m, c, mods);
    hit := sym != NO_SYMBOL && Capitalized(m, sym, mods, consumed) == keysym;
  }

  /** Below `c` only fake keys yield the keysym, and `fallback` is the first of them. */
  ghost predicate Scanned(m: Keymap, mods: Mods, keysym: KeySym, c: nat, fallback: nat)
    requires Valid(m)
  {
    && (forall d: nat :: Yields(m, d, mods, keysym) && d < c ==> IsFake(d) && fallback != 0 && fallback <= d)
    && (fallback != 0 ==> Yields(m, fallback, mods, keysym) && IsFake(fallback) && fallback < c)
  }

  lemma ScanOn(m: Keymap, mods: Mods, keysym: KeySym, c: nat, fallback: nat)
    requires Valid(m) && Scanned(m, mods, keysym, c, fallback) && c > 0
    ensures Yields(m, c, mods, keysym) && !IsFake(c) ==> Answers(m, mods, keysym, c)
    ensures Yields(m, c, mods, keysym) && IsFake(c) ==> Scanned(m, mods, keysym, c + 1, if fallback == 0 then c else fallback)
    ensures !Yields(m, c, mods, keysym) ==> Scanned(m, mods, keysym, c + 1, fallback)
  {
    if Yields(m, c, mods, keysym) && !IsFake(c) {
      forall d | Yields(m, d, mods, keysym) && IsFake(d) == IsFake(c)
        ensures c <= d
      {}
    }
  }

  lemma ScanEnds(m: Keymap, mods: Mods, keysym: KeySym, fallback: nat)
    requires Valid(m) && Scanned(m, mods, keysym, m.maxCode + 1, fallback)
    ensures Answers(m, mods, keysym, fallback)
  {
    assert forall d: nat :: Yields(m, d, mods, keysym) ==> d < m.maxCode + 1;
  }

  /** lorieKeysymToKeycode; `want` says whether the caller passed a place for the new state. */
  method KeysymToKeycode(m: Keymap, keysym: KeySym, s: Mods, want: bool) returns (c: nat, newState: Mods)
    requires Valid(m)
    ensures !want ==> c == Answer(m, s, keysym) && newState == s
    ensures want ==> Found(m, s, keysym, c, newState)
    decreases if want then 2 else 0
  {
    newState := s;
    c := Scan(m, keysym, s);
    TryNext(m, s, keysym, 0, c);
    if c != 0 || !want { return; }
    var unused;
    newState := Toggle(s, SHIFT_MASK);
    c, unused := KeysymToKeycode(m, keysym, newState, false);
    TryNext(m, s, keysym, 1, c);
    if c != 0 { return; }
    var levelThree := LevelThreeMask(m);
    if levelThree == {} { return; }
    newState := Toggle(s, levelThree);
    c, unused := KeysymToKeycode(m, keysym, newState, false);
    TryNext(m, s, keysym, 2, c);
    if c != 0 { return; }
    newState := ToggleBoth(s, levelThree);
    c, unused := KeysymToKeycode(m, keysym, newState, false);
    TryNext(m, s, keysym, 3, c);
  }

  /** The search's promise in full: a key that yields the keysym in a state that differs only in Shift and level three
      bits, a fake one only when no ordinary key would do; or zero, and no key yields it in any state tried. */
  lemma FoundMeans(m: Keymap, s: Mods, keysym: KeySym, c: nat, newState: Mods)
    requires Valid(m) && Found(m, s, keysym, c, newState)
    ensures c != 0 ==> Yields(m, c, newState, keysym) && SameOutside(newState, s, SHIFT_MASK + LevelThree(m))
    ensures c != 0 && IsFake(c) ==> forall d :: Yields(m, d, newState, keysym) ==> IsFake(d)
    ensures c != 0 && newState != s ==> forall d :: !Yields(m, d, s, keysym)
    ensures c == 0 <==> forall t, d :: t in Tried(s, LevelThree(m)) ==> !Yields(m, d, t, keysym)
  {
    TriedOutside(s, LevelThree(m));
    if c != 0 {
      assert Tried(s, LevelThree(m))[0] == s;
    }
  }
}
