/**
  The block cipher of the XDMCP wrapper bit by bit: what the initial permutation does to a block, which bits of a half and
  of the round's key words index each row of the substitution table, and the sixteen rounds one by one.
 */
module XdmcpDesBits {
  import opened XdmcpBits
  import opened XdmcpDes

  // ------------------------------------------------------------------- initial permutation

  /** The five exchanges one after the other. */
  function Exchanged5(h: Halves): (r: Halves) {
    Apply(Exchange(By1, true), Apply(Exchange(By8, false), Apply(Exchange(By2, true),
      Apply(Exchange(By16, false), Apply(Exchange(By4, true), h)))))
  }

  lemma InitialIs(h: Halves)
    ensures Permute(INITIAL, h) == Exchanged5(h)
  {
    var a, b, c, d, e := Exchange(By4, true), Exchange(By16, false), Exchange(By2, true), Exchange(By8, false), Exchange(By1, true);
    assert INITIAL[1..] == [b, c, d, e] && [b, c, d, e][1..] == [c, d, e] && [c, d, e][1..] == [d, e] && [d, e][1..] == [e];
    PermuteOne(e, Apply(d, Apply(c, Apply(b, Apply(a, h)))));
    assert Permute([d, e], Apply(c, Apply(b, Apply(a, h)))) == Exchanged5(h);
    assert Permute([c, d, e], Apply(b, Apply(a, h))) == Exchanged5(h);
    assert Permute([b, c, d, e], Apply(a, h)) == Exchanged5(h);
  }

  lemma Left0(h: Halves) ensures HoldsTwo(Exchanged5(h).l, 0, h.r, 23) {}
  lemma Left2(h: Halves) ensures HoldsTwo(Exchanged5(h).l, 2, h.r, 7) {}
  lemma Left4(h: Halves) ensures HoldsTwo(Exchanged5(h).l, 4, h.l, 23) {}
  lemma Left6(h: Halves) ensures HoldsTwo(Exchanged5(h).l, 6, h.l, 7) {}
  lemma Left8(h: Halves) ensures HoldsTwo(Exchanged5(h).l, 8, h.r, 21) {}
  lemma Left10(h: Halves) ensures HoldsTwo(Exchanged5(h).l, 10, h.r, 5) {}
  lemma Left12(h: Halves) ensures HoldsTwo(Exchanged5(h).l, 12, h.l, 21) {}
  lemma Left14(h: Halves) ensures HoldsTwo(Exchanged5(h).l, 14, h.l, 5) {}
  lemma Left16(h: Halves) ensures HoldsTwo(Exchanged5(h).l, 16, h.r, 19) {}
  lemma Left18(h: Halves) ensures HoldsTwo(Exchanged5(h).l, 18, h.r, 3) {}
  lemma Left20(h: Halves) ensures HoldsTwo(Exchanged5(h).l, 20, h.l, 19) {}
  lemma Left22(h: Halves) ensures HoldsTwo(Exchanged5(h).l, 22, h.l, 3) {}
  lemma Left24(h: Halves) ensures HoldsTwo(Exchanged5(h).l, 24, h.r, 17) {}
  lemma Left26(h: Halves) ensures HoldsTwo(Exchanged5(h).l, 26, h.r, 1) {}
  lemma Left28(h: Halves) ensures HoldsTwo(Exchanged5(h).l, 28, h.l, 17) {}
  lemma Left30(h: Halves) ensures HoldsTwo(Exchanged5(h).l, 30, h.l, 1) {}
  lemma Right0(h: Halves) ensures HoldsTwo(Exchanged5(h).r, 0, h.r, 22) {}
  lemma Right2(h: Halves) ensures HoldsTwo(Exchanged5(h).r, 2, h.r, 6) {}
  lemma Right4(h: Halves) ensures HoldsTwo(Exchanged5(h).r, 4, h.l, 22) {}
  lemma Right6(h: Halves) ensures HoldsTwo(Exchanged5(h).r, 6, h.l, 6) {}
  lemma Right8(h: Halves) ensures HoldsTwo(Exchanged5(h).r, 8, h.r, 20) {}
  lemma Right10(h: Halves) ensures HoldsTwo(Exchanged5(h).r, 10, h.r, 4) {}
  lemma Right12(h: Halves) ensures HoldsTwo(Exchanged5(h).r, 12, h.l, 20) {}
  lemma Right14(h: Halves) ensures HoldsTwo(Exchanged5(h).r, 14, h.l, 4) {}
  lemma Right16(h: Halves) ensures HoldsTwo(Exchanged5(h).r, 16, h.r, 18) {}
  lemma Right18(h: Halves) ensures HoldsTwo(Exchanged5(h).r, 18, h.r, 2) {}
  lemma Right20(h: Halves) ensures HoldsTwo(Exchanged5(h).r, 20, h.l, 18) {}
  lemma Right22(h: Halves) ensures HoldsTwo(Exchanged5(h).r, 22, h.l, 2) {}
  lemma Right24(h: Halves) ensures HoldsTwo(Exchanged5(h).r, 24, h.r, 16) {}
  lemma Right26(h: Halves) ensures HoldsTwo(Exchanged5(h).r, 26, h.r, 0) {}
  lemma Right28(h: Halves) ensures HoldsTwo(Exchanged5(h).r, 28, h.l, 16) {}
  lemma Right30(h: Halves) ensures HoldsTwo(Exchanged5(h).r, 30, h.l, 0) {}

  /** The left word gets bits 7, 5, 3 and 1 of the eight bytes, the last byte first. */
  lemma LeftAfterInitial(b: Block)
    ensures var l, low, high := Permute(INITIAL, LoadBlock(b)).l, b[..4], b[4..];
      && HoldsColumn(l, 0, high, 7) && HoldsColumn(l, 4, low, 7)
      && HoldsColumn(l, 8, high, 5) && HoldsColumn(l, 12, low, 5)
      && HoldsColumn(l, 16, high, 3) && HoldsColumn(l, 20, low, 3)
      && HoldsColumn(l, 24, high, 1) && HoldsColumn(l, 28, low, 1)
  {
    var h, low, high := LoadBlock(b), b[..4], b[4..];
    var g := Permute(INITIAL, h);
    InitialIs(h);
    Left0(h); Left2(h); ColumnOfWord(g.l, 0, high, 7);
    Left4(h); Left6(h); ColumnOfWord(g.l, 4, low, 7);
    Left8(h); Left10(h); ColumnOfWord(g.l, 8, high, 5);
    Left12(h); Left14(h); ColumnOfWord(g.l, 12, low, 5);
    Left16(h); Left18(h); ColumnOfWord(g.l, 16, high, 3);
    Left20(h); Left22(h); ColumnOfWord(g.l, 20, low, 3);
    Left24(h); Left26(h); ColumnOfWord(g.l, 24, high, 1);
    Left28(h); Left30(h); ColumnOfWord(g.l, 28, low, 1);
  }

  /** The right word gets bits 6, 4, 2 and 0. */
  lemma RightAfterInitial(b: Block)
    ensures var r, low, high := Permute(INITIAL, LoadBlock(b)).r, b[..4], b[4..];
      && HoldsColumn(r, 0, high, 6) && HoldsColumn(r, 4, low, 6)
      && HoldsColumn(r, 8, high, 4) && HoldsColumn(r, 12, low, 4)
      && HoldsColumn(r, 16, high, 2) && HoldsColumn(r, 20, low, 2)
      && HoldsColumn(r, 24, high, 0) && HoldsColumn(r, 28, low, 0)
  {
    var h, low, high := LoadBlock(b), b[..4], b[4..];
    var g := Permute(INITIAL, h);
    InitialIs(h);
    Right0(h); Right2(h); ColumnOfWord(g.r, 0, high, 6);
    Right4(h); Right6(h); ColumnOfWord(g.r, 4, low, 6);
    Right8(h); Right10(h); ColumnOfWord(g.r, 8, high, 4);
    Right12(h); Right14(h); ColumnOfWord(g.r, 12, low, 4);
    Right16(h); Right18(h); ColumnOfWord(g.r, 16, high, 2);
    Right20(h); Right22(h); ColumnOfWord(g.r, 20, low, 2);
    Right24(h); Right26(h); ColumnOfWord(g.r, 24, high, 0);
    Right28(h); Right30(h); ColumnOfWord(g.r, 28, low, 0);
  }

  // ------------------------------------------------------------------- one round

  /** Place `b` moved on by `n` round the 32 places of a word. */
  function Round32(b: bv32, n: bv32): (p: bv32)
    ensures p < 32
  {
    (b + n) & 31
  }

  predicate MixedAt(x: bv32, j: bv32, half: bv32, from: bv32, k: bv32, at: bv32)
    requires j < 32
  {
    Bit(x, j) <==> Bit(half, Round32(from, j)) != Bit(k, Round32(at, j))
  }

  /** `x` is the index made of six bits of the half from place `from` on, combined with six key bits from place `at` on. */
  predicate Mixed(x: bv32, half: bv32, from: bv32, k: bv32, at: bv32) {
    && x < 64
    && MixedAt(x, 0, half, from, k, at) && MixedAt(x, 1, half, from, k, at) && MixedAt(x, 2, half, from, k, at)
    && MixedAt(x, 3, half, from, k, at) && MixedAt(x, 4, half, from, k, at) && MixedAt(x, 5, half, from, k, at)
  }

  lemma MixedOne(x: bv32, y: bv32, half: bv32, from: bv32, k: bv32, at: bv32)
    requires Mixed(x, half, from, k, at) && Mixed(y, half, from, k, at)
    ensures x == y
  {
    SameIndex(x, y);
  }

  function Even(half: bv32, k: bv32): (u: bv32) { XorWords(Rotated(half), k) }

  function Odd(half: bv32, k: bv32): (t: bv32) { Down4(Even(half, k)) }

  lemma Row0(half: bv32, k: bv32) ensures Mixed(Even(half, k) & 0x3f, half, 31, k, 0) {}
  lemma Row2(half: bv32, k: bv32) ensures Mixed((Even(half, k) >> 8) & 0x3f, half, 7, k, 8) {}
  lemma Row4(half: bv32, k: bv32) ensures Mixed((Even(half, k) >> 16) & 0x3f, half, 15, k, 16) {}
  lemma Row6(half: bv32, k: bv32) ensures Mixed((Even(half, k) >> 24) & 0x3f, half, 23, k, 24) {}
  lemma Row1(half: bv32, k: bv32) ensures Mixed(Odd(half, k) & 0x3f, half, 3, k, 4) {}
  lemma Row3(half: bv32, k: bv32) ensures Mixed((Odd(half, k) >> 8) & 0x3f, half, 11, k, 12) {}
  lemma Row5(half: bv32, k: bv32) ensures Mixed((Odd(half, k) >> 16) & 0x3f, half, 19, k, 20) {}
  lemma Row7(half: bv32, k: bv32) ensures Mixed((Odd(half, k) >> 24) & 0x3f, half, 27, k, 28) {}

  /** The indexes of the eight rows. */
  datatype Rows = Rows(x0: bv32, x1: bv32, x2: bv32, x3: bv32, x4: bv32, x5: bv32, x6: bv32, x7: bv32)

  /** Row r is indexed by six bits of the half from place 4r - 1 on, so that neighbouring rows share two bits, and by key
      bits from place 4r on: of the first key word for the even rows, of the second for the odd ones. */
  predicate RowsOf(x: Rows, half: bv32, k0: bv32, k1: bv32) {
    && Mixed(x.x0, half, 31, k0, 0) && Mixed(x.x1, half, 3, k1, 4) && Mixed(x.x2, half, 7, k0, 8)
    && Mixed(x.x3, half, 11, k1, 12) && Mixed(x.x4, half, 15, k0, 16) && Mixed(x.x5, half, 19, k1, 20)
    && Mixed(x.x6, half, 23, k0, 24) && Mixed(x.x7, half, 27, k1, 28)
  }

  function CodeRows(u: bv32, t: bv32): (x: Rows) {
    Rows(u & 0x3f, t & 0x3f, (u >> 8) & 0x3f, (t >> 8) & 0x3f, (u >> 16) & 0x3f, (t >> 16) & 0x3f, (u >> 24) & 0x3f, (t >> 24) & 0x3f)
  }

  /** The entries of four rows, and of all of them. */
  function Entries4(sp: Table, first: nat, a: bv32, b: bv32, c: bv32, d: bv32): (r: bv32) {
    sp(first, a) | sp(first + 2, b) | sp(first + 4, c) | sp(first + 6, d)
  }

  function Entries(sp: Table, x: Rows): (r: bv32) {
    OrWords(Entries4(sp, 1, x.x1, x.x3, x.x5, x.x7), Entries4(sp, 0, x.x0, x.x2, x.x4, x.x6))
  }

  lemma FourEntries(sp: Table, first: nat, w: bv32)
    ensures FourRows(sp, first, w) == Entries4(sp, first, w & 0x3f, (w >> 8) & 0x3f, (w >> 16) & 0x3f, (w >> 24) & 0x3f)
  {}

  lemma SelectEntries(sp: Table, u: bv32, y: bv32)
    ensures Select(sp, u, y) == Entries(sp, CodeRows(u, Down4(y)))
  {
    FourEntries(sp, 0, u);
    FourEntries(sp, 1, Down4(y));
  }

  lemma MixEntries(sp: Table, half: bv32, k0: bv32, k1: bv32)
    ensures Mix(sp, half, k0, k1) == Entries(sp, CodeRows(Even(half, k0), Odd(half, k1)))
  {
    SelectEntries(sp, Even(half, k0), Even(half, k1));
  }

  lemma CodeRowsOf(half: bv32, k0: bv32, k1: bv32)
    ensures RowsOf(CodeRows(Even(half, k0), Odd(half, k1)), half, k0, k1)
  {
    Row0(half, k0); Row2(half, k0); Row4(half, k0); Row6(half, k0);
    Row1(half, k1); Row3(half, k1); Row5(half, k1); Row7(half, k1);
  }

  lemma RowsOne(x: Rows, y: Rows, half: bv32, k0: bv32, k1: bv32)
    requires RowsOf(x, half, k0, k1) && RowsOf(y, half, k0, k1)
    ensures x == y
  {
    MixedOne(x.x0, y.x0, half, 31, k0, 0);
    MixedOne(x.x1, y.x1, half, 3, k1, 4);
    MixedOne(x.x2, y.x2, half, 7, k0, 8);
    MixedOne(x.x3, y.x3, half, 11, k1, 12);
    MixedOne(x.x4, y.x4, half, 15, k0, 16);
    MixedOne(x.x5, y.x5, half, 19, k1, 20);
    MixedOne(x.x6, y.x6, half, 23, k0, 24);
    MixedOne(x.x7, y.x7, half, 27, k1, 28);
  }

  /** What a round mixes in: the table entries indexed by the six-bit groups of the half, combined with the key. */
  lemma MixIs(sp: Table, half: bv32, k0: bv32, k1: bv32, x: Rows)
    ensures RowsOf(x, half, k0, k1) ==> Mix(sp, half, k0, k1) == Entries(sp, x)
    ensures RowsOf(CodeRows(Even(half, k0), Odd(half, k1)), half, k0, k1)
  {
    CodeRowsOf(half, k0, k1);
    MixEntries(sp, half, k0, k1);
    if RowsOf(x, half, k0, k1) {
      RowsOne(x, CodeRows(Even(half, k0), Odd(half, k1)), half, k0, k1);
    }
  }

  // ------------------------------------------------------------------- round by round

  /** The key pair of round i. */
  function PairFor(encrypt: bool, i: nat): (k: nat) {
    if encrypt then 2 * i else if i < 16 then 30 - 2 * i else 0
  }

  /** The cipher's rounds as FIPS 46 has them, one at a time: the halves change places and one of them is mixed with the
      other. */
  function Textbook(f: Mixer, h: Halves, encrypt: bool, n: nat): (r: Halves) {
    if n == 0 then h
    else
      var g := Textbook(f, h, encrypt, n - 1);
      Halves(g.r, XorWords(g.l, f(g.r, PairFor(encrypt, n - 1))))
  }

  lemma TwoTextbookRounds(f: Mixer, h: Halves, encrypt: bool, n: nat)
    ensures Textbook(f, h, encrypt, n + 2) ==
      TwoRounds(f, Textbook(f, h, encrypt, n), PairFor(encrypt, n), PairFor(encrypt, n + 1))
  {
    var g, g' := Textbook(f, h, encrypt, n), Textbook(f, h, encrypt, n + 1);
    assert g' == Halves(g.r, XorWords(g.l, f(g.r, PairFor(encrypt, n))));
    assert Textbook(f, h, encrypt, n + 2) == Halves(g'.r, XorWords(g'.l, f(g'.r, PairFor(encrypt, n + 1))));
  }

  ghost predicate InPairs(step: Step<Halves>, f: Mixer) {
    forall h: Halves, i: nat, j: nat :: step(h, i, j) == TwoRounds(f, h, i, j)
  }

  /** States that follow each other by the double round with its keys forwards, and backwards from the eighth. */
  predicate ForwardAt<H(==)>(step: Step<H>, t: nat -> H, n: nat)
    requires n > 0
  {
    t(2 * n) == step(t(2 * n - 2), 4 * n - 4, 4 * n - 2)
  }

  predicate BackwardAt<H(==)>(step: Step<H>, t: nat -> H, n: nat)
    requires 0 < n <= 8
  {
    t(18 - 2 * n) == step(t(16 - 2 * n), 4 * n - 2, 4 * n - 4)
  }

  lemma {:induction false} ForwardFollows<H>(step: Step<H>, t: nat -> H, n: nat)
    requires forall k: nat :: k > 0 ==> ForwardAt(step, t, k)
    ensures Forward(step, t(0), n) == t(2 * n)
  {
    if n > 0 {
      ForwardFollows(step, t, n - 1);
      assert ForwardAt(step, t, n);
    }
  }

  lemma {:induction false} BackwardFollows<H>(step: Step<H>, t: nat -> H, n: nat)
    requires n <= 8 && forall k: nat :: 0 < k <= 8 ==> BackwardAt(step, t, k)
    ensures Backward(step, t(16 - 2 * n), n) == t(16)
    decreases n
  {
    if n > 0 {
      assert BackwardAt(step, t, n);
      BackwardFollows(step, t, n - 1);
    }
  }

  lemma StepIsTwoRounds(step: Step<Halves>, f: Mixer, h: Halves, encrypt: bool, n: nat, i: nat, j: nat)
    requires InPairs(step, f) && i == PairFor(encrypt, n) && j == PairFor(encrypt, n + 1)
    ensures step(Textbook(f, h, encrypt, n), i, j) == Textbook(f, h, encrypt, n + 2)
  {
    TwoTextbookRounds(f, h, encrypt, n);
  }

  lemma TextbookForward(step: Step<Halves>, f: Mixer, h: Halves, t: nat -> Halves)
    requires InPairs(step, f) && forall n: nat :: t(n) == Textbook(f, h, true, n)
    ensures forall k: nat :: k > 0 ==> ForwardAt(step, t, k)
  {
    forall k: nat | k > 0
      ensures ForwardAt(step, t, k)
    {
      StepIsTwoRounds(step, f, h, true, 2 * k - 2, 4 * k - 4, 4 * k - 2);
    }
  }

  lemma TextbookBackwardAt(step: Step<Halves>, f: Mixer, h: Halves, t: nat -> Halves, k: nat)
    requires InPairs(step, f) && 0 < k <= 8
    requires t(16 - 2 * k) == Textbook(f, h, false, 16 - 2 * k) && t(18 - 2 * k) == Textbook(f, h, false, 18 - 2 * k)
    ensures BackwardAt(step, t, k)
  {
    var n := 16 - 2 * k;
    StepIsTwoRounds(step, f, h, false, n, 30 - 2 * n, 28 - 2 * n);
  }

  lemma TextbookBackward(step: Step<Halves>, f: Mixer, h: Halves, t: nat -> Halves)
    requires InPairs(step, f) && forall n: nat :: t(n) == Textbook(f, h, false, n)
    ensures forall k: nat :: 0 < k <= 8 ==> BackwardAt(step, t, k)
  {
    forall k: nat | 0 < k <= 8
      ensures BackwardAt(step, t, k)
    {
      TextbookBackwardAt(step, f, h, t, k);
    }
  }

  /** The code's eight double rounds are sixteen rounds with the key pairs in order, and in the opposite order to decrypt. */
  lemma RoundsAreTextbook(sp: Table, ks: Schedule, h: Halves, encrypt: bool)
    ensures Rounds(sp, ks, h, encrypt) == Textbook(Keyed(sp, ks), h, encrypt, 16)
  {
    var step, f := DoubleRound(sp, ks), Keyed(sp, ks);
    var t := (n: nat) => Textbook(f, h, encrypt, n);
    assert t(0) == h;
    if encrypt {
      TextbookForward(step, f, h, t);
      ForwardFollows(step, t, 8);
    } else {
      TextbookBackward(step, f, h, t);
      BackwardFollows(step, t, 8);
    }
  }
}
