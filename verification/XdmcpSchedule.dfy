/**
  The key schedule of the XDMCP wrapper, for an arbitrary key-selection table: its permuted choice keeps every bit of the
  expanded key except the parity bits.
 */
module XdmcpSchedule {
  import opened XdmcpDes
  import opened XdmcpKeys

  // ------------------------------------------------------ first permuted choice

  /** HPERM_OP with its shift distance written out. */
  function HalfExchange(a: bv32, n: bv32, m: bv32): (r: bv32)
    requires n < 32
  {
    var t := ((a << n) ^ a) & m;
    a ^ t ^ (t >> n)
  }

  /** The leading PERM_OP, which exchanges nibbles between the two words. */
  function StartC(x: bv32, y: bv32): (c: bv32) {
    x ^ (((y >> 4) ^ x) & 0x0f0f0f0f)
  }

  function StartD(x: bv32, y: bv32): (d: bv32) {
    y ^ ((((y >> 4) ^ x) & 0x0f0f0f0f) << 4)
  }

  function Half18(d: bv32): (r: bv32) { HalfExchange(d, 18, 0xcccc0000) }
  function Half17(d: bv32): (r: bv32) { HalfExchange(d, 17, 0xaaaa0000) }

  function ChoiceC(c: bv32): (r: bv32) {
    Half17(Half8(Half17(Half18(c))))
  }

  function Half24(d: bv32): (r: bv32) { HalfExchange(d, 24, 0xff000000) }
  function Half8(d: bv32): (r: bv32) { HalfExchange(d, 8, 0x00ff0000) }
  function Half14(d: bv32): (r: bv32) { HalfExchange(d, 14, 0x33330000) }

  function LastSpread(d: bv32): (r: bv32) {
    ((d & 0x00aa00aa) << 7) | ((d & 0x55005500) >> 7) | (d & 0xaa55aa55)
  }

  function Upper24(d: bv32): (r: bv32) { d >> 8 }

  function ChoiceD(d: bv32): (r: bv32) {
    Upper24(LastSpread(Half14(Half8(Half24(d)))))
  }

  function CutC(c: bv32): (r: bv32) { c & 0x0fffffff }

  function CutD(c: bv32, d: bv32): (r: bv32) { d | ((c & 0xf0000000) >> 4) }

  /** The 28-bit halves of a key given as two words. */
  function KeyC(x: bv32, y: bv32): (c: bv32) {
    CutC(ChoiceC(StartC(x, y)))
  }

  function KeyD(x: bv32, y: bv32): (d: bv32) {
    CutD(ChoiceC(StartC(x, y)), ChoiceD(StartD(x, y)))
  }

  // ------------------------------------------------ which bits each step needs

  /** The output selected by `used` depends on the input only through `given`. */
  ghost predicate Needs<W(!new)>(f: W -> W, used: W -> W, given: W -> W) {
    forall x: W :: used(f(x)) == used(f(given(x)))
  }

  lemma Chain<W(!new)>(f1: W -> W, f2: W -> W, f3: W -> W, f4: W -> W,
                       m0: W -> W, m1: W -> W, m2: W -> W, m3: W -> W, m4: W -> W, a: W, b: W)
    requires Needs(f1, m1, m0) && Needs(f2, m2, m1) && Needs(f3, m3, m2) && Needs(f4, m4, m3)
    requires m0(a) == m0(b)
    ensures m4(f4(f3(f2(f1(a))))) == m4(f4(f3(f2(f1(b)))))
  {
    assert m1(f1(a)) == m1(f1(m0(a))) == m1(f1(b));
    var a1, b1 := f1(a), f1(b);
    assert m2(f2(a1)) == m2(f2(m1(a1))) == m2(f2(b1));
    var a2, b2 := f2(a1), f2(b1);
    assert m3(f3(a2)) == m3(f3(m2(a2))) == m3(f3(b2));
    var a3, b3 := f3(a2), f3(b2);
    assert m4(f4(a3)) == m4(f4(m3(a3))) == m4(f4(b3));
  }

  function NotEvery4th(d: bv32): (r: bv32) { d & 0xeeeeeeee }
  function NotLowEven(d: bv32): (r: bv32) { d & 0xffffaaaa }

  lemma Half24A(d: bv32) ensures Half24(d) & 0xee000000 == Half24(NotEvery4th(d)) & 0xee000000 {}
  lemma Half24B(d: bv32) ensures Half24(d) & 0x00eeee00 == Half24(NotEvery4th(d)) & 0x00eeee00 {}
  lemma Half24C(d: bv32) ensures Half24(d) & 0x000000ee == Half24(NotEvery4th(d)) & 0x000000ee {}
  lemma Half8A(d: bv32) ensures Half8(d) & 0xee0000ee == Half8(NotEvery4th(d)) & 0xee0000ee {}
  lemma Half8B(d: bv32) ensures Half8(d) & 0x00ee0000 == Half8(NotEvery4th(d)) & 0x00ee0000 {}
  lemma Half8C(d: bv32) ensures Half8(d) & 0x0000ee00 == Half8(NotEvery4th(d)) & 0x0000ee00 {}
  lemma Half14A(d: bv32) ensures Half14(d) & 0xcccc2222 == Half14(NotEvery4th(d)) & 0xcccc2222 {}
  lemma Half14B(d: bv32) ensures Half14(d) & 0x33330000 == Half14(NotEvery4th(d)) & 0x33330000 {}
  lemma Half14C(d: bv32) ensures Half14(d) & 0x00008888 == Half14(NotEvery4th(d)) & 0x00008888 {}
  lemma SpreadA(d: bv32) ensures LastSpread(d) & 0xaa55aa00 == LastSpread(NotLowEven(d)) & 0xaa55aa00 {}
  lemma SpreadB(d: bv32) ensures LastSpread(d) & 0x55005500 == LastSpread(NotLowEven(d)) & 0x55005500 {}
  lemma SpreadC(d: bv32) ensures LastSpread(d) & 0x00aa0000 == LastSpread(NotLowEven(d)) & 0x00aa0000 {}

  lemma Join24(x: bv32, y: bv32)
    requires x & 0xee000000 == y & 0xee000000 && x & 0x00eeee00 == y & 0x00eeee00 && x & 0x000000ee == y & 0x000000ee
    ensures NotEvery4th(x) == NotEvery4th(y)
  {}

  lemma Join8(x: bv32, y: bv32)
    requires x & 0xee0000ee == y & 0xee0000ee && x & 0x00ee0000 == y & 0x00ee0000 && x & 0x0000ee00 == y & 0x0000ee00
    ensures NotEvery4th(x) == NotEvery4th(y)
  {}

  lemma Join14(x: bv32, y: bv32)
    requires x & 0xcccc2222 == y & 0xcccc2222 && x & 0x33330000 == y & 0x33330000 && x & 0x00008888 == y & 0x00008888
    ensures NotLowEven(x) == NotLowEven(y)
  {}

  lemma JoinSpread(x: bv32, y: bv32)
    requires x & 0xaa55aa00 == y & 0xaa55aa00 && x & 0x55005500 == y & 0x55005500 && x & 0x00aa0000 == y & 0x00aa0000
    ensures Upper24(x) == Upper24(y)
  {}

  lemma Half24At(d: bv32)
    ensures NotEvery4th(Half24(d)) == NotEvery4th(Half24(NotEvery4th(d)))
  {
    Half24A(d); Half24B(d); Half24C(d);
    Join24(Half24(d), Half24(NotEvery4th(d)));
  }

  lemma Half24Needs()
    ensures Needs(Half24, NotEvery4th, NotEvery4th)
  {
    forall d: bv32 ensures NotEvery4th(Half24(d)) == NotEvery4th(Half24(NotEvery4th(d))) {
      Half24At(d);
    }
  }

  lemma Half8At(d: bv32)
    ensures NotEvery4th(Half8(d)) == NotEvery4th(Half8(NotEvery4th(d)))
  {
    Half8A(d); Half8B(d); Half8C(d);
    Join8(Half8(d), Half8(NotEvery4th(d)));
  }

  lemma Half8Needs()
    ensures Needs(Half8, NotEvery4th, NotEvery4th)
  {
    forall d: bv32 ensures NotEvery4th(Half8(d)) == NotEvery4th(Half8(NotEvery4th(d))) {
      Half8At(d);
    }
  }

  lemma Half14At(d: bv32)
    ensures NotLowEven(Half14(d)) == NotLowEven(Half14(NotEvery4th(d)))
  {
    Half14A(d); Half14B(d); Half14C(d);
    Join14(Half14(d), Half14(NotEvery4th(d)));
  }

  lemma Half14Needs()
    ensures Needs(Half14, NotLowEven, NotEvery4th)
  {
    forall d: bv32 ensures NotLowEven(Half14(d)) == NotLowEven(Half14(NotEvery4th(d))) {
      Half14At(d);
    }
  }

  lemma SpreadAt(d: bv32)
    ensures Upper24(LastSpread(d)) == Upper24(LastSpread(NotLowEven(d)))
  {
    SpreadA(d); SpreadB(d); SpreadC(d);
    JoinSpread(LastSpread(d), LastSpread(NotLowEven(d)));
  }

  lemma SpreadNeeds()
    ensures Needs(LastSpread, Upper24, NotLowEven)
  {
    forall d: bv32 ensures Upper24(LastSpread(d)) == Upper24(LastSpread(NotLowEven(d))) {
      SpreadAt(d);
    }
  }

  lemma StartCHigh(x: bv32, y: bv32) ensures StartC(x, y) & 0xf0f0f0f0 == x & 0xf0f0f0f0 {}
  lemma StartCLow(x: bv32, y: bv32) ensures StartC(x, y) & 0x0f0f0f0f == (y >> 4) & 0x0f0f0f0f {}
  lemma StartDHigh(x: bv32, y: bv32) ensures StartD(x, y) & 0xe0e0e0e0 == (x << 4) & 0xe0e0e0e0 {}
  lemma StartDLow(x: bv32, y: bv32) ensures StartD(x, y) & 0x0e0e0e0e == y & 0x0e0e0e0e {}
  lemma KeepsHigh(x: bv32) ensures x & 0xf0f0f0f0 == DropParity(x) & 0xf0f0f0f0 {}
  lemma KeepsDown(y: bv32) ensures (y >> 4) & 0x0f0f0f0f == (DropParity(y) >> 4) & 0x0f0f0f0f {}
  lemma KeepsUp(x: bv32) ensures (x << 4) & 0xe0e0e0e0 == (DropParity(x) << 4) & 0xe0e0e0e0 {}
  lemma KeepsLow(y: bv32) ensures y & 0x0e0e0e0e == DropParity(y) & 0x0e0e0e0e {}

  lemma JoinStartC(a: bv32, b: bv32)
    requires a & 0xf0f0f0f0 == b & 0xf0f0f0f0 && a & 0x0f0f0f0f == b & 0x0f0f0f0f
    ensures a == b
  {}

  lemma JoinStartD(a: bv32, b: bv32)
    requires a & 0xe0e0e0e0 == b & 0xe0e0e0e0 && a & 0x0e0e0e0e == b & 0x0e0e0e0e
    ensures NotEvery4th(a) == NotEvery4th(b)
  {}

  lemma StartCDropsParity(x: bv32, y: bv32)
    ensures StartC(x, y) == StartC(DropParity(x), DropParity(y))
  {
    StartCHigh(x, y);
    StartCHigh(DropParity(x), DropParity(y));
    KeepsHigh(x);
    StartCLow(x, y);
    StartCLow(DropParity(x), DropParity(y));
    KeepsDown(y);
    JoinStartC(StartC(x, y), StartC(DropParity(x), DropParity(y)));
  }

  lemma StartDDropsParity(x: bv32, y: bv32)
    ensures NotEvery4th(StartD(x, y)) == NotEvery4th(StartD(DropParity(x), DropParity(y)))
  {
    StartDHigh(x, y);
    StartDHigh(DropParity(x), DropParity(y));
    KeepsUp(x);
    StartDLow(x, y);
    StartDLow(DropParity(x), DropParity(y));
    KeepsLow(y);
    JoinStartD(StartD(x, y), StartD(DropParity(x), DropParity(y)));
  }

  lemma TailDropsParity(a: bv32, b: bv32)
    requires NotEvery4th(a) == NotEvery4th(b)
    ensures ChoiceD(a) == ChoiceD(b)
  {
    Half24Needs();
    Half8Needs();
    Half14Needs();
    SpreadNeeds();
    Chain(Half24, Half8, Half14, LastSpread, NotEvery4th, NotEvery4th, NotEvery4th, NotLowEven, Upper24, a, b);
  }

  function DropParity(x: bv32): (r: bv32) { x & 0xfefefefe }

  /** The permuted choice drops the lowest bit of every key byte. */
  lemma ChoiceDropsParity(x: bv32, y: bv32)
    ensures KeyC(x, y) == KeyC(DropParity(x), DropParity(y))
    ensures KeyD(x, y) == KeyD(DropParity(x), DropParity(y))
  {
    StartCDropsParity(x, y);
    StartDDropsParity(x, y);
    TailDropsParity(StartD(x, y), StartD(DropParity(x), DropParity(y)));
  }

  /** A function of normal forms only cannot tell apart arguments with equal normal forms. */
  lemma ByNormalForm<W(!new)>(f: (W, W) -> W, n: W -> W, x: W, y: W, p: W, q: W)
    requires forall a: W, b: W :: f(a, b) == f(n(a), n(b))
    requires n(x) == n(p) && n(y) == n(q)
    ensures f(x, y) == f(p, q)
  {
    assert f(x, y) == f(n(x), n(y)) == f(p, q);
  }

  lemma KeyHalvesIgnoreParity(x: bv32, y: bv32, p: bv32, q: bv32)
    requires DropParity(x) == DropParity(p) && DropParity(y) == DropParity(q)
    ensures KeyC(x, y) == KeyC(p, q) && KeyD(x, y) == KeyD(p, q)
  {
    forall a: bv32, b: bv32
      ensures KeyC(a, b) == KeyC(DropParity(a), DropParity(b))
      ensures KeyD(a, b) == KeyD(DropParity(a), DropParity(b))
    {
      ChoiceDropsParity(a, b);
    }
    ByNormalForm(KeyC, DropParity, x, y, p, q);
    ByNormalForm(KeyD, DropParity, x, y, p, q);
  }

  // ------------------------------------------------------------- nothing else is dropped

  ghost predicate UndoesItself<W(!new)>(f: W -> W) {
    forall x: W :: f(f(x)) == x
  }

  lemma Half18Undoes() ensures UndoesItself(Half18) {}
  lemma Half17Undoes() ensures UndoesItself(Half17) {}
  lemma Half24Undoes() ensures UndoesItself(Half24) {}
  lemma Half8Undoes() ensures UndoesItself(Half8) {}
  lemma Half14Undoes() ensures UndoesItself(Half14) {}
  lemma SpreadUndoes() ensures UndoesItself(LastSpread) {}

  /** A step that undoes itself gives back the bits it needs for its own output. */
  lemma Recovers<W(!new)>(f: W -> W, used: W -> W, given: W -> W, a: W, b: W)
    requires UndoesItself(f) && Needs(f, given, used) && used(f(a)) == used(f(b))
    ensures given(a) == given(b)
  {
    assert given(f(f(a))) == given(f(used(f(a))));
    assert given(f(f(b))) == given(f(used(f(b))));
  }

  lemma Cancel<W(!new)>(f: W -> W, x: W, y: W)
    requires UndoesItself(f) && f(x) == f(y)
    ensures x == y
  {
    assert f(f(x)) == x && f(f(y)) == y;
  }

  lemma Cancels<W(!new)>(f1: W -> W, f2: W -> W, f3: W -> W, f4: W -> W, a: W, b: W)
    requires UndoesItself(f1) && UndoesItself(f2) && UndoesItself(f3) && UndoesItself(f4)
    requires f4(f3(f2(f1(a)))) == f4(f3(f2(f1(b))))
    ensures a == b
  {
    Cancel(f4, f3(f2(f1(a))), f3(f2(f1(b))));
    Cancel(f3, f2(f1(a)), f2(f1(b)));
    Cancel(f2, f1(a), f1(b));
    Cancel(f1, a, b);
  }

  lemma ChoiceCKeepsAll(a: bv32, b: bv32)
    requires ChoiceC(a) == ChoiceC(b)
    ensures a == b
  {
    Half18Undoes();
    Half17Undoes();
    Half8Undoes();
    Cancels(Half18, Half17, Half8, Half17, a, b);
  }

  function Top24(d: bv32): (r: bv32) { d & 0xffffff00 }

  lemma Half14BackA(d: bv32) ensures Half14(d) & 0xcccc2222 == Half14(NotLowEven(d)) & 0xcccc2222 {}
  lemma Half14BackB(d: bv32) ensures Half14(d) & 0x22220000 == Half14(NotLowEven(d)) & 0x22220000 {}
  lemma Half14BackC(d: bv32) ensures Half14(d) & 0x0000cccc == Half14(NotLowEven(d)) & 0x0000cccc {}
  lemma SpreadBackA(d: bv32) ensures LastSpread(d) & 0xaa55aa00 == LastSpread(Top24(d)) & 0xaa55aa00 {}
  lemma SpreadBackB(d: bv32) ensures LastSpread(d) & 0x55000000 == LastSpread(Top24(d)) & 0x55000000 {}
  lemma SpreadBackC(d: bv32) ensures LastSpread(d) & 0x00aa00aa == LastSpread(Top24(d)) & 0x00aa00aa {}

  lemma JoinBack14(x: bv32, y: bv32)
    requires x & 0xcccc2222 == y & 0xcccc2222 && x & 0x22220000 == y & 0x22220000 && x & 0x0000cccc == y & 0x0000cccc
    ensures NotEvery4th(x) == NotEvery4th(y)
  {}

  lemma JoinBackSpread(x: bv32, y: bv32)
    requires x & 0xaa55aa00 == y & 0xaa55aa00 && x & 0x55000000 == y & 0x55000000 && x & 0x00aa00aa == y & 0x00aa00aa
    ensures NotLowEven(x) == NotLowEven(y)
  {}

  lemma Half14BackAt(d: bv32)
    ensures NotEvery4th(Half14(d)) == NotEvery4th(Half14(NotLowEven(d)))
  {
    Half14BackA(d); Half14BackB(d); Half14BackC(d);
    JoinBack14(Half14(d), Half14(NotLowEven(d)));
  }

  lemma Half14BackNeeds()
    ensures Needs(Half14, NotEvery4th, NotLowEven)
  {
    forall d: bv32 ensures NotEvery4th(Half14(d)) == NotEvery4th(Half14(NotLowEven(d))) {
      Half14BackAt(d);
    }
  }

  lemma SpreadBackAt(d: bv32)
    ensures NotLowEven(LastSpread(d)) == NotLowEven(LastSpread(Top24(d)))
  {
    SpreadBackA(d); SpreadBackB(d); SpreadBackC(d);
    JoinBackSpread(LastSpread(d), LastSpread(Top24(d)));
  }

  lemma SpreadBackNeeds()
    ensures Needs(LastSpread, NotLowEven, Top24)
  {
    forall d: bv32 ensures NotLowEven(LastSpread(d)) == NotLowEven(LastSpread(Top24(d))) {
      SpreadBackAt(d);
    }
  }

  lemma TopOfUpper(x: bv32, y: bv32)
    requires Upper24(x) == Upper24(y)
    ensures Top24(x) == Top24(y)
  {}

  lemma Recover14(a: bv32, b: bv32)
    requires NotLowEven(Half14(a)) == NotLowEven(Half14(b))
    ensures NotEvery4th(a) == NotEvery4th(b)
  {
    Half14Undoes();
    Half14BackNeeds();
    Recovers(Half14, NotLowEven, NotEvery4th, a, b);
  }

  lemma RecoverSpread(a: bv32, b: bv32)
    requires Top24(LastSpread(a)) == Top24(LastSpread(b))
    ensures NotLowEven(a) == NotLowEven(b)
  {
    SpreadUndoes();
    SpreadBackNeeds();
    Recovers(LastSpread, Top24, NotLowEven, a, b);
  }

  lemma Recover8(a: bv32, b: bv32)
    requires NotEvery4th(Half8(a)) == NotEvery4th(Half8(b))
    ensures NotEvery4th(a) == NotEvery4th(b)
  {
    Half8Undoes();
    Half8Needs();
    Recovers(Half8, NotEvery4th, NotEvery4th, a, b);
  }

  lemma Recover24(a: bv32, b: bv32)
    requires NotEvery4th(Half24(a)) == NotEvery4th(Half24(b))
    ensures NotEvery4th(a) == NotEvery4th(b)
  {
    Half24Undoes();
    Half24Needs();
    Recovers(Half24, NotEvery4th, NotEvery4th, a, b);
  }

  /** The second half gives back all but the lowest bit of every nibble. */
  lemma ChoiceDKeeps(a: bv32, b: bv32)
    requires ChoiceD(a) == ChoiceD(b)
    ensures NotEvery4th(a) == NotEvery4th(b)
  {
    var a1, b1 := Half24(a), Half24(b);
    var a2, b2 := Half8(a1), Half8(b1);
    var a3, b3 := Half14(a2), Half14(b2);
    TopOfUpper(LastSpread(a3), LastSpread(b3));
    RecoverSpread(a3, b3);
    Recover14(a2, b2);
    Recover8(a1, b1);
    Recover24(a, b);
  }

  lemma CutsKeep(c: bv32, d: bv32, c': bv32, d': bv32)
    requires CutC(c) == CutC(c') && CutD(c, Upper24(d)) == CutD(c', Upper24(d'))
    ensures c == c' && Upper24(d) == Upper24(d')
  {}

  lemma Low3Up(x: bv32, p: bv32)
    requires (x << 4) & 0xe0e0e0e0 == (p << 4) & 0xe0e0e0e0
    ensures x & 0x0e0e0e0e == p & 0x0e0e0e0e
  {}

  lemma High4Down(y: bv32, q: bv32)
    requires (y >> 4) & 0x0f0f0f0f == (q >> 4) & 0x0f0f0f0f
    ensures y & 0xf0f0f0f0 == q & 0xf0f0f0f0
  {}

  lemma JoinKept(x: bv32, p: bv32)
    requires x & 0xf0f0f0f0 == p & 0xf0f0f0f0 && x & 0x0e0e0e0e == p & 0x0e0e0e0e
    ensures DropParity(x) == DropParity(p)
  {}

  lemma SplitStartD(a: bv32, b: bv32)
    requires NotEvery4th(a) == NotEvery4th(b)
    ensures a & 0xe0e0e0e0 == b & 0xe0e0e0e0 && a & 0x0e0e0e0e == b & 0x0e0e0e0e
  {}

  lemma StartKeepsX(x: bv32, y: bv32, p: bv32, q: bv32)
    requires StartC(x, y) == StartC(p, q) && NotEvery4th(StartD(x, y)) == NotEvery4th(StartD(p, q))
    ensures DropParity(x) == DropParity(p)
  {
    StartCHigh(x, y);
    StartCHigh(p, q);
    SplitStartD(StartD(x, y), StartD(p, q));
    StartDHigh(x, y);
    StartDHigh(p, q);
    Low3Up(x, p);
    JoinKept(x, p);
  }

  lemma StartKeepsY(x: bv32, y: bv32, p: bv32, q: bv32)
    requires StartC(x, y) == StartC(p, q) && NotEvery4th(StartD(x, y)) == NotEvery4th(StartD(p, q))
    ensures DropParity(y) == DropParity(q)
  {
    StartCLow(x, y);
    StartCLow(p, q);
    High4Down(y, q);
    SplitStartD(StartD(x, y), StartD(p, q));
    StartDLow(x, y);
    StartDLow(p, q);
    JoinKept(y, q);
  }

  /** The halves determine every other bit of the key. */
  lemma HalvesKeepTheRest(x: bv32, y: bv32, p: bv32, q: bv32)
    requires KeyC(x, y) == KeyC(p, q) && KeyD(x, y) == KeyD(p, q)
    ensures DropParity(x) == DropParity(p) && DropParity(y) == DropParity(q)
  {
    var d, d' := LastSpread(Half14(Half8(Half24(StartD(x, y))))), LastSpread(Half14(Half8(Half24(StartD(p, q)))));
    CutsKeep(ChoiceC(StartC(x, y)), d, ChoiceC(StartC(p, q)), d');
    ChoiceCKeepsAll(StartC(x, y), StartC(p, q));
    ChoiceDKeeps(StartD(x, y), StartD(p, q));
    StartKeepsX(x, y, p, q);
    StartKeepsY(x, y, p, q);
  }

  // ------------------------------------------------------------- round key pairs

  const SHIFTS2: seq<bool> :=
    [false, false, true, true, true, true, true, true, false, true, true, true, true, true, true, false]

  function Rotate(v: bv32, twice: bool): (r: bv32) {
    (if twice then (v >> 2) | (v << 26) else (v >> 1) | (v << 27)) & 0x0fffffff
  }

  function SelectS(skb: Table, c: bv32): (s: bv32) {
    skb(0, c & 0x3f) | skb(1, ((c >> 6) & 0x03) | ((c >> 7) & 0x3c)) |
    skb(2, ((c >> 13) & 0x0f) | ((c >> 14) & 0x30)) |
    skb(3, ((c >> 20) & 0x01) | ((c >> 21) & 0x06) | ((c >> 22) & 0x38))
  }

  function SelectT(skb: Table, d: bv32): (t: bv32) {
    skb(4, d & 0x3f) | skb(5, ((d >> 7) & 0x03) | ((d >> 8) & 0x3c)) |
    skb(6, (d >> 15) & 0x3f) | skb(7, ((d >> 21) & 0x0f) | ((d >> 22) & 0x30))
  }

  function FirstKey(s: bv32, t: bv32): (k: bv32) {
    (t << 16) | (s & 0x0000ffff)
  }

  function SecondKey(s: bv32, t: bv32): (k: bv32) {
    var u := (s >> 16) | (t & 0xffff0000);
    (u << 4) | (u >> 28)
  }

  datatype KeyHalves = KeyHalves(c: bv32, d: bv32)

  function NextHalves(h: KeyHalves, i: nat): (r: KeyHalves) {
    var twice := i < 16 && SHIFTS2[i];
    KeyHalves(Rotate(h.c, twice), Rotate(h.d, twice))
  }

  /** The pairs a generator of states yields for rounds i to n - 1, from the state before round i. */
  function PairsFrom<S, K>(next: (S, nat) -> S, first: S -> K, second: S -> K, s: S, i: nat, n: nat): (ks: seq<K>)
    requires i <= n
    ensures |ks| == 2 * (n - i)
    decreases n - i
  {
    if i == n then []
    else
      var s' := next(s, i);
      [first(s'), second(s')] + PairsFrom(next, first, second, s', i + 1, n)
  }

  function First(skb: Table): (f: KeyHalves -> bv32) {
    (h: KeyHalves) => FirstKey(SelectS(skb, h.c), SelectT(skb, h.d))
  }

  function Second(skb: Table): (f: KeyHalves -> bv32) {
    (h: KeyHalves) => SecondKey(SelectS(skb, h.c), SelectT(skb, h.d))
  }

  function KeysOf(skb: Table, h: KeyHalves): (ks: Schedule) {
    PairsFrom(NextHalves, First(skb), Second(skb), h, 0, 16)
  }

  function HalvesOf(key: Block): (h: KeyHalves) {
    var x, y := LoadWord(key[..4]), LoadWord(key[4..]);
    KeyHalves(KeyC(x, y), KeyD(x, y))
  }

  function KeySchedule(skb: Table, key: Block): (ks: Schedule) {
    KeysOf(skb, HalvesOf(key))
  }

  function Upper(a: Byte): (r: bv32) { (a as bv32) & 0xfe }

  lemma UpperOfSeven(a: Byte, b: Byte)
    requires UpperSeven(a) == UpperSeven(b)
    ensures Upper(a) == Upper(b)
  {}

  lemma WordByte0(a: Byte, b: Byte, c: Byte, d: Byte) ensures Join(a, b, c, d) & 0x000000fe == Upper(a) {}
  lemma WordByte1(a: Byte, b: Byte, c: Byte, d: Byte) ensures (Join(a, b, c, d) >> 8) & 0xfe == Upper(b) {}
  lemma WordByte2(a: Byte, b: Byte, c: Byte, d: Byte) ensures (Join(a, b, c, d) >> 16) & 0xfe == Upper(c) {}
  lemma WordByte3(a: Byte, b: Byte, c: Byte, d: Byte) ensures (Join(a, b, c, d) >> 24) & 0xfe == Upper(d) {}

  lemma WordFromUpper(x: bv32, y: bv32)
    requires x & 0xfe == y & 0xfe && (x >> 8) & 0xfe == (y >> 8) & 0xfe
    requires (x >> 16) & 0xfe == (y >> 16) & 0xfe && (x >> 24) & 0xfe == (y >> 24) & 0xfe
    ensures DropParity(x) == DropParity(y)
  {}

  lemma SameUpperWord(a: seq<Byte>, b: seq<Byte>)
    requires |a| == |b| == 4 && forall i :: 0 <= i < 4 ==> UpperSeven(a[i]) == UpperSeven(b[i])
    ensures DropParity(LoadWord(a)) == DropParity(LoadWord(b))
  {
    SameUpperBytes(a[0], a[1], a[2], a[3], b[0], b[1], b[2], b[3]);
  }

  lemma SameUpperBytes(a0: Byte, a1: Byte, a2: Byte, a3: Byte, b0: Byte, b1: Byte, b2: Byte, b3: Byte)
    requires UpperSeven(a0) == UpperSeven(b0) && UpperSeven(a1) == UpperSeven(b1)
    requires UpperSeven(a2) == UpperSeven(b2) && UpperSeven(a3) == UpperSeven(b3)
    ensures DropParity(Join(a0, a1, a2, a3)) == DropParity(Join(b0, b1, b2, b3))
  {
    UpperOfSeven(a0, b0); UpperOfSeven(a1, b1); UpperOfSeven(a2, b2); UpperOfSeven(a3, b3);
    WordByte0(a0, a1, a2, a3); WordByte1(a0, a1, a2, a3); WordByte2(a0, a1, a2, a3); WordByte3(a0, a1, a2, a3);
    WordByte0(b0, b1, b2, b3); WordByte1(b0, b1, b2, b3); WordByte2(b0, b1, b2, b3); WordByte3(b0, b1, b2, b3);
    WordFromUpper(Join(a0, a1, a2, a3), Join(b0, b1, b2, b3));
  }

  lemma HalvesIgnoreParity(e: Block, f: Block)
    requires SameUpper(e, f)
    ensures HalvesOf(e) == HalvesOf(f)
  {
    SameUpperWord(e[..4], f[..4]);
    SameUpperWord(e[4..], f[4..]);
    KeyHalvesIgnoreParity(LoadWord(e[..4]), LoadWord(e[4..]), LoadWord(f[..4]), LoadWord(f[4..]));
  }

  lemma BytesOfWord(x: bv32, y: bv32)
    requires DropParity(x) == DropParity(y)
    ensures x & 0xfe == y & 0xfe && (x >> 8) & 0xfe == (y >> 8) & 0xfe
    ensures (x >> 16) & 0xfe == (y >> 16) & 0xfe && (x >> 24) & 0xfe == (y >> 24) & 0xfe
  {}

  lemma SevenOfUpper(a: Byte, b: Byte)
    requires Upper(a) == Upper(b)
    ensures UpperSeven(a) == UpperSeven(b)
  {}

  lemma WordGivesUpper(a0: Byte, a1: Byte, a2: Byte, a3: Byte, b0: Byte, b1: Byte, b2: Byte, b3: Byte)
    requires DropParity(Join(a0, a1, a2, a3)) == DropParity(Join(b0, b1, b2, b3))
    ensures UpperSeven(a0) == UpperSeven(b0) && UpperSeven(a1) == UpperSeven(b1)
    ensures UpperSeven(a2) == UpperSeven(b2) && UpperSeven(a3) == UpperSeven(b3)
  {
    BytesOfWord(Join(a0, a1, a2, a3), Join(b0, b1, b2, b3));
    WordByte0(a0, a1, a2, a3); WordByte1(a0, a1, a2, a3); WordByte2(a0, a1, a2, a3); WordByte3(a0, a1, a2, a3);
    WordByte0(b0, b1, b2, b3); WordByte1(b0, b1, b2, b3); WordByte2(b0, b1, b2, b3); WordByte3(b0, b1, b2, b3);
    SevenOfUpper(a0, b0); SevenOfUpper(a1, b1); SevenOfUpper(a2, b2); SevenOfUpper(a3, b3);
  }

  /** Two keys have the same halves exactly when they agree in all but the parity bits. */
  lemma HalvesAreUpperBits(e: Block, f: Block)
    ensures HalvesOf(e) == HalvesOf(f) <==> SameUpper(e, f)
  {
    if SameUpper(e, f) {
      HalvesIgnoreParity(e, f);
    } else if HalvesOf(e) == HalvesOf(f) {
      HalvesKeepTheRest(LoadWord(e[..4]), LoadWord(e[4..]), LoadWord(f[..4]), LoadWord(f[4..]));
      WordGivesUpper(e[0], e[1], e[2], e[3], f[0], f[1], f[2], f[3]);
      WordGivesUpper(e[4], e[5], e[6], e[7], f[4], f[5], f[6], f[7]);
    }
  }

  /** The key schedule does not depend on the parity bits. */
  lemma ScheduleIgnoresParity(skb: Table, e: Block, f: Block)
    requires SameUpper(e, f)
    ensures KeySchedule(skb, e) == KeySchedule(skb, f)
  {
    HalvesIgnoreParity(e, f);
  }

  // ------------------------------------------------------------------- the code

  /** The schedule loop: advance the state, then store its pair. */
  method FillSchedule<S, K>(next: (S, nat) -> S, first: S -> K, second: S -> K, s0: S, schedule: array<K>, n: nat)
    requires schedule.Length == 2 * n
    modifies schedule
    ensures schedule[..] == PairsFrom(next, first, second, s0, 0, n)
  {
    ghost var all := PairsFrom(next, first, second, s0, 0, n);
    var s := s0;
    var i := 0;
    while i < n
      invariant 0 <= i <= n
      invariant forall j :: 0 <= j < 2 * i ==> schedule[j] == all[j]
      invariant all[2 * i..] == PairsFrom(next, first, second, s, i, n)
    {
      ghost var rest := all[2 * i..];
      s := next(s, i);
      schedule[2 * i] := first(s);
      schedule[2 * i + 1] := second(s);
      assert rest[0] == first(s) && rest[1] == second(s) && rest[2..] == PairsFrom(next, first, second, s, i + 1, n);
      assert all[2 * i] == rest[0] && all[2 * i + 1] == rest[1] && all[2 * (i + 1)..] == rest[2..];
      i := i + 1;
    }
  }

  method AuthSetup(skb: Table, key: array<Byte>, schedule: array<bv32>)
    requires key.Length >= 8 && schedule.Length == 32
    modifies schedule
    ensures schedule[..] == KeySchedule(skb, key[..8])
  {
    FillSchedule(NextHalves, First(skb), Second(skb), HalvesOf(key[..8]), schedule, 16);
  }
}
