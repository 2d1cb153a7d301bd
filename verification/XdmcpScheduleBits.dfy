/**
  The key schedule of the XDMCP wrapper bit by bit: which key bits make up the two halves, how far the halves have turned
  in every round, which of their bits index each row of the key-selection table, and where the selected bits stand in the
  two words of the round.
 */
module XdmcpScheduleBits {
  import opened XdmcpBits
  import opened XdmcpDes
  import opened XdmcpSchedule

  // ------------------------------------------------------------------- first permuted choice

  lemma KeyC0(x: bv32, y: bv32) ensures HoldsTwo(KeyC(x, y), 0, y, 23) {}
  lemma KeyC2(x: bv32, y: bv32) ensures HoldsTwo(KeyC(x, y), 2, y, 7) {}
  lemma KeyC4(x: bv32, y: bv32) ensures HoldsTwo(KeyC(x, y), 4, x, 23) {}
  lemma KeyC6(x: bv32, y: bv32) ensures HoldsTwo(KeyC(x, y), 6, x, 7) {}
  lemma KeyC8(x: bv32, y: bv32) ensures HoldsTwo(KeyC(x, y), 8, y, 22) {}
  lemma KeyC10(x: bv32, y: bv32) ensures HoldsTwo(KeyC(x, y), 10, y, 6) {}
  lemma KeyC12(x: bv32, y: bv32) ensures HoldsTwo(KeyC(x, y), 12, x, 22) {}
  lemma KeyC14(x: bv32, y: bv32) ensures HoldsTwo(KeyC(x, y), 14, x, 6) {}
  lemma KeyC16(x: bv32, y: bv32) ensures HoldsTwo(KeyC(x, y), 16, y, 21) {}
  lemma KeyC18(x: bv32, y: bv32) ensures HoldsTwo(KeyC(x, y), 18, y, 5) {}
  lemma KeyC20(x: bv32, y: bv32) ensures HoldsTwo(KeyC(x, y), 20, x, 21) {}
  lemma KeyC22(x: bv32, y: bv32) ensures HoldsTwo(KeyC(x, y), 22, x, 5) {}
  lemma KeyC24(x: bv32, y: bv32) ensures HoldsTwo(KeyC(x, y), 24, y, 20) {}
  lemma KeyC26(x: bv32, y: bv32) ensures HoldsTwo(KeyC(x, y), 26, y, 4) {}
  lemma KeyD0(x: bv32, y: bv32) ensures HoldsTwo(KeyD(x, y), 0, y, 17) {}
  lemma KeyD2(x: bv32, y: bv32) ensures HoldsTwo(KeyD(x, y), 2, y, 1) {}
  lemma KeyD4(x: bv32, y: bv32) ensures HoldsTwo(KeyD(x, y), 4, x, 17) {}
  lemma KeyD6(x: bv32, y: bv32) ensures HoldsTwo(KeyD(x, y), 6, x, 1) {}
  lemma KeyD8(x: bv32, y: bv32) ensures HoldsTwo(KeyD(x, y), 8, y, 18) {}
  lemma KeyD10(x: bv32, y: bv32) ensures HoldsTwo(KeyD(x, y), 10, y, 2) {}
  lemma KeyD12(x: bv32, y: bv32) ensures HoldsTwo(KeyD(x, y), 12, x, 18) {}
  lemma KeyD14(x: bv32, y: bv32) ensures HoldsTwo(KeyD(x, y), 14, x, 2) {}
  lemma KeyD16(x: bv32, y: bv32) ensures HoldsTwo(KeyD(x, y), 16, y, 19) {}
  lemma KeyD18(x: bv32, y: bv32) ensures HoldsTwo(KeyD(x, y), 18, y, 3) {}
  lemma KeyD20(x: bv32, y: bv32) ensures HoldsTwo(KeyD(x, y), 20, x, 19) {}
  lemma KeyD22(x: bv32, y: bv32) ensures HoldsTwo(KeyD(x, y), 22, x, 3) {}
  lemma KeyD24(x: bv32, y: bv32) ensures HoldsTwo(KeyD(x, y), 24, x, 20) {}
  lemma KeyD26(x: bv32, y: bv32) ensures HoldsTwo(KeyD(x, y), 26, x, 4) {}

  /** The first half: the top bits of the eight key bytes from the last byte to the first, then bits 6 and 5 of them,
      then bit 4 of the last four. */
  lemma FirstHalfBits(key: Block)
    ensures var c, low, high := HalvesOf(key).c, key[..4], key[4..];
      && HoldsColumn(c, 0, high, 7) && HoldsColumn(c, 4, low, 7)
      && HoldsColumn(c, 8, high, 6) && HoldsColumn(c, 12, low, 6)
      && HoldsColumn(c, 16, high, 5) && HoldsColumn(c, 20, low, 5)
      && HoldsColumn(c, 24, high, 4)
  {
    var c, low, high := HalvesOf(key).c, key[..4], key[4..];
    var x, y := LoadWord(low), LoadWord(high);
    KeyC0(x, y); KeyC2(x, y); ColumnOfWord(c, 0, high, 7);
    KeyC4(x, y); KeyC6(x, y); ColumnOfWord(c, 4, low, 7);
    KeyC8(x, y); KeyC10(x, y); ColumnOfWord(c, 8, high, 6);
    KeyC12(x, y); KeyC14(x, y); ColumnOfWord(c, 12, low, 6);
    KeyC16(x, y); KeyC18(x, y); ColumnOfWord(c, 16, high, 5);
    KeyC20(x, y); KeyC22(x, y); ColumnOfWord(c, 20, low, 5);
    KeyC24(x, y); KeyC26(x, y); ColumnOfWord(c, 24, high, 4);
  }

  /** The second half: bits 1, 2 and 3 of the eight key bytes from the last to the first, then bit 4 of the first four. */
  lemma SecondHalfBits(key: Block)
    ensures var d, low, high := HalvesOf(key).d, key[..4], key[4..];
      && HoldsColumn(d, 0, high, 1) && HoldsColumn(d, 4, low, 1)
      && HoldsColumn(d, 8, high, 2) && HoldsColumn(d, 12, low, 2)
      && HoldsColumn(d, 16, high, 3) && HoldsColumn(d, 20, low, 3)
      && HoldsColumn(d, 24, low, 4)
  {
    var d, low, high := HalvesOf(key).d, key[..4], key[4..];
    var x, y := LoadWord(low), LoadWord(high);
    KeyD0(x, y); KeyD2(x, y); ColumnOfWord(d, 0, high, 1);
    KeyD4(x, y); KeyD6(x, y); ColumnOfWord(d, 4, low, 1);
    KeyD8(x, y); KeyD10(x, y); ColumnOfWord(d, 8, high, 2);
    KeyD12(x, y); KeyD14(x, y); ColumnOfWord(d, 12, low, 2);
    KeyD16(x, y); KeyD18(x, y); ColumnOfWord(d, 16, high, 3);
    KeyD20(x, y); KeyD22(x, y); ColumnOfWord(d, 20, low, 3);
    KeyD24(x, y); KeyD26(x, y); ColumnOfWord(d, 24, low, 4);
  }

  // ------------------------------------------------------------------- the turning halves

  /** Place `b` moved on by `turn` round the 28 places of a half. */
  function Place(b: bv32, turn: bv32): (p: bv32)
    requires b < 28 && turn <= 28
    ensures p < 28
  {
    if b + turn < 28 then b + turn else b + turn - 28
  }

  predicate TurnedAt(w: bv32, v: bv32, turn: bv32, b: bv32)
    requires b < 28 && turn <= 28
  {
    Bit(w, b) <==> Bit(v, Place(b, turn))
  }

  /** `w` is the half `v` turned by `turn` places. */
  ghost predicate TurnedBy(w: bv32, v: bv32, turn: bv32)
    requires turn <= 28
  {
    w < 0x10000000 && forall b: bv32 :: b < 28 ==> TurnedAt(w, v, turn, b)
  }

  function Turns(twice: bool): (n: bv32) { if twice then 2 else 1 }

  lemma RotateFits(v: bv32, twice: bool) ensures Rotate(v, twice) < 0x10000000 {}

  lemma RotateBit(v: bv32, twice: bool, b: bv32)
    requires v < 0x10000000 && b < 28
    ensures TurnedAt(Rotate(v, twice), v, Turns(twice), b)
  {}

  lemma PlaceAdds(b: bv32, turn: bv32, n: bv32)
    requires b < 28 && turn <= 28 && n <= 2 && turn + n <= 28
    ensures Place(Place(b, n), turn) == Place(b, turn + n)
  {}

  lemma RotateTurns(w: bv32, v: bv32, turn: bv32, twice: bool)
    requires turn <= 28 && turn + Turns(twice) <= 28 && TurnedBy(w, v, turn)
    ensures TurnedBy(Rotate(w, twice), v, turn + Turns(twice))
  {
    RotateFits(w, twice);
    var w', sum := Rotate(w, twice), turn + Turns(twice);
    forall b: bv32 | b < 28
      ensures TurnedAt(w', v, sum, b)
    {
      RotateBit(w, twice, b);
      assert TurnedAt(w, v, turn, Place(b, Turns(twice)));
      PlaceAdds(b, turn, Turns(twice));
    }
  }

  lemma NotTurned(v: bv32)
    requires v < 0x10000000
    ensures TurnedBy(v, v, 0)
  {
  }

  lemma FullTurn(w: bv32, v: bv32)
    requires v < 0x10000000 && TurnedBy(w, v, 28)
    ensures w == v
  {
    assert TurnedAt(w, v, 28, 0) && TurnedAt(w, v, 28, 1) && TurnedAt(w, v, 28, 2) && TurnedAt(w, v, 28, 3);
    assert TurnedAt(w, v, 28, 4) && TurnedAt(w, v, 28, 5) && TurnedAt(w, v, 28, 6) && TurnedAt(w, v, 28, 7);
    assert TurnedAt(w, v, 28, 8) && TurnedAt(w, v, 28, 9) && TurnedAt(w, v, 28, 10) && TurnedAt(w, v, 28, 11);
    assert TurnedAt(w, v, 28, 12) && TurnedAt(w, v, 28, 13) && TurnedAt(w, v, 28, 14) && TurnedAt(w, v, 28, 15);
    assert TurnedAt(w, v, 28, 16) && TurnedAt(w, v, 28, 17) && TurnedAt(w, v, 28, 18) && TurnedAt(w, v, 28, 19);
    assert TurnedAt(w, v, 28, 20) && TurnedAt(w, v, 28, 21) && TurnedAt(w, v, 28, 22) && TurnedAt(w, v, 28, 23);
    assert TurnedAt(w, v, 28, 24) && TurnedAt(w, v, 28, 25) && TurnedAt(w, v, 28, 26) && TurnedAt(w, v, 28, 27);
  }

  /** How far the halves have turned when the pair of round i is taken. */
  const TURNS: seq<bv32> := [1, 2, 4, 6, 8, 10, 12, 14, 15, 17, 19, 21, 23, 25, 27, 28]

  lemma TurnsOfRound(i: nat)
    requires i < 16
    ensures |TURNS| == |SHIFTS2| == 16 && TURNS[i] <= 28
    ensures TURNS[i] == (if i == 0 then 0 else TURNS[i - 1]) + Turns(SHIFTS2[i])
  {}

  /** The state a generator has reached after rounds i to j - 1. */
  function After<S>(next: (S, nat) -> S, s: S, i: nat, j: nat): (r: S)
    requires i <= j
    decreases j - i
  {
    if i == j then s else After(next, next(s, i), i + 1, j)
  }

  lemma {:induction false} AfterOneMore<S>(next: (S, nat) -> S, s: S, i: nat, j: nat)
    requires i <= j
    ensures After(next, s, i, j + 1) == next(After(next, s, i, j), j)
    decreases j - i
  {
    if i < j {
      AfterOneMore(next, next(s, i), i + 1, j);
    } else {
      assert After(next, next(s, i), i + 1, j + 1) == next(s, i);
    }
  }

  /** The pair of round j is made of the state after that round. */
  lemma {:induction false} PairAt<S, K>(next: (S, nat) -> S, first: S -> K, second: S -> K, s: S, i: nat, j: nat, n: nat)
    requires i <= j < n
    ensures var ks, r := PairsFrom(next, first, second, s, i, n), After(next, s, i, j + 1);
      ks[2 * (j - i)] == first(r) && ks[2 * (j - i) + 1] == second(r)
    decreases j - i
  {
    var s' := next(s, i);
    if i < j {
      PairAt(next, first, second, s', i + 1, j, n);
    } else {
      assert After(next, s', i + 1, j + 1) == s';
    }
  }

  /** For a half of 28 bits: in round i it has turned by `TURNS[i]`. */
  lemma {:induction false} HalvesTurn(h: KeyHalves, i: nat)
    requires h.c < 0x10000000 && h.d < 0x10000000 && i < 16
    ensures var r := After(NextHalves, h, 0, i + 1);
      |TURNS| == 16 && TURNS[i] <= 28 && TurnedBy(r.c, h.c, TURNS[i]) && TurnedBy(r.d, h.d, TURNS[i])
  {
    TurnsOfRound(i);
    AfterOneMore(NextHalves, h, 0, i);
    if i == 0 {
      NotTurned(h.c);
      NotTurned(h.d);
      RotateTurns(h.c, h.c, 0, SHIFTS2[i]);
      RotateTurns(h.d, h.d, 0, SHIFTS2[i]);
    } else {
      HalvesTurn(h, i - 1);
      var r := After(NextHalves, h, 0, i);
      RotateTurns(r.c, h.c, TURNS[i - 1], SHIFTS2[i]);
      RotateTurns(r.d, h.d, TURNS[i - 1], SHIFTS2[i]);
    }
  }

  lemma HalvesFit(key: Block)
    ensures HalvesOf(key).c < 0x10000000 && HalvesOf(key).d < 0x10000000
  {
    var x, y := LoadWord(key[..4]), LoadWord(key[4..]);
    CutsFit(ChoiceC(StartC(x, y)), LastSpread(Half14(Half8(Half24(StartD(x, y))))));
  }

  lemma CutsFit(c: bv32, d: bv32)
    ensures CutC(c) < 0x10000000 && CutD(c, Upper24(d)) < 0x10000000
  {}

  /** After the sixteen rounds the halves are back where they were. */
  lemma ScheduleTurnsRound(key: Block)
    ensures After(NextHalves, HalvesOf(key), 0, 16) == HalvesOf(key)
  {
    var h := HalvesOf(key);
    HalvesFit(key);
    HalvesTurn(h, 15);
    var r := After(NextHalves, h, 0, 16);
    FullTurn(r.c, h.c);
    FullTurn(r.d, h.d);
  }

  // ------------------------------------------------------------------- second permuted choice

  /** Which places of the turned halves index each row of the table: four rows for each half, the lowest index bit first. */
  const PLACES: seq<seq<bv32>> :=
    [[0, 1, 2, 3, 4, 5], [6, 7, 9, 10, 11, 12], [13, 14, 15, 16, 18, 19], [20, 22, 23, 25, 26, 27],
     [0, 1, 2, 3, 4, 5], [7, 8, 10, 11, 12, 13], [15, 16, 17, 18, 19, 20], [21, 22, 23, 24, 26, 27]]

  predicate ArePlaces(p: seq<bv32>) {
    |p| == 6 && p[0] < 28 && p[1] < 28 && p[2] < 28 && p[3] < 28 && p[4] < 28 && p[5] < 28
  }

  predicate PicksAt(x: bv32, j: bv32, v: bv32, turn: bv32, b: bv32)
    requires j < 32 && turn <= 28 && b < 28
  {
    Bit(x, j) <==> Bit(v, Place(b, turn))
  }

  /** `x` is the index whose six bits are those of the half `v`, turned by `turn`, at the places `p`. */
  predicate Picks(x: bv32, v: bv32, turn: bv32, p: seq<bv32>)
    requires turn <= 28 && ArePlaces(p)
  {
    && x < 64
    && PicksAt(x, 0, v, turn, p[0]) && PicksAt(x, 1, v, turn, p[1]) && PicksAt(x, 2, v, turn, p[2])
    && PicksAt(x, 3, v, turn, p[3]) && PicksAt(x, 4, v, turn, p[4]) && PicksAt(x, 5, v, turn, p[5])
  }

  lemma PicksOne(x: bv32, y: bv32, v: bv32, turn: bv32, p: seq<bv32>)
    requires turn <= 28 && ArePlaces(p) && Picks(x, v, turn, p) && Picks(y, v, turn, p)
    ensures x == y
  {
    SameIndex(x, y);
  }

  // The eight indexes of the code.

  function Index0(c: bv32): (x: bv32) { c & 0x3f }
  function Index1(c: bv32): (x: bv32) { ((c >> 6) & 0x03) | ((c >> 7) & 0x3c) }
  function Index2(c: bv32): (x: bv32) { ((c >> 13) & 0x0f) | ((c >> 14) & 0x30) }
  function Index3(c: bv32): (x: bv32) { ((c >> 20) & 0x01) | ((c >> 21) & 0x06) | ((c >> 22) & 0x38) }
  function Index5(d: bv32): (x: bv32) { ((d >> 7) & 0x03) | ((d >> 8) & 0x3c) }
  function Index6(d: bv32): (x: bv32) { (d >> 15) & 0x3f }
  function Index7(d: bv32): (x: bv32) { ((d >> 21) & 0x0f) | ((d >> 22) & 0x30) }

  lemma Picks0(c: bv32) ensures ArePlaces(PLACES[0]) && Picks(Index0(c), c, 0, PLACES[0]) {}
  lemma Picks1(c: bv32) ensures ArePlaces(PLACES[1]) && Picks(Index1(c), c, 0, PLACES[1]) {}
  lemma Picks2(c: bv32) ensures ArePlaces(PLACES[2]) && Picks(Index2(c), c, 0, PLACES[2]) {}
  lemma Picks3(c: bv32) ensures ArePlaces(PLACES[3]) && Picks(Index3(c), c, 0, PLACES[3]) {}
  lemma Picks4(d: bv32) ensures ArePlaces(PLACES[4]) && Picks(Index0(d), d, 0, PLACES[4]) {}
  lemma Picks5(d: bv32) ensures ArePlaces(PLACES[5]) && Picks(Index5(d), d, 0, PLACES[5]) {}
  lemma Picks6(d: bv32) ensures ArePlaces(PLACES[6]) && Picks(Index6(d), d, 0, PLACES[6]) {}
  lemma Picks7(d: bv32) ensures ArePlaces(PLACES[7]) && Picks(Index7(d), d, 0, PLACES[7]) {}

  lemma PickTurned(x: bv32, j: bv32, w: bv32, v: bv32, turn: bv32, b: bv32)
    requires j < 32 && turn <= 28 && b < 28 && TurnedBy(w, v, turn) && PicksAt(x, j, w, 0, b)
    ensures PicksAt(x, j, v, turn, b)
  {
    assert TurnedAt(w, v, turn, b);
    assert Place(b, 0) == b;
  }

  lemma PicksTurned(x: bv32, w: bv32, v: bv32, turn: bv32, p: seq<bv32>)
    requires turn <= 28 && ArePlaces(p) && TurnedBy(w, v, turn) && Picks(x, w, 0, p)
    ensures Picks(x, v, turn, p)
  {
    PickTurned(x, 0, w, v, turn, p[0]);
    PickTurned(x, 1, w, v, turn, p[1]);
    PickTurned(x, 2, w, v, turn, p[2]);
    PickTurned(x, 3, w, v, turn, p[3]);
    PickTurned(x, 4, w, v, turn, p[4]);
    PickTurned(x, 5, w, v, turn, p[5]);
  }

  /** The indexes of all eight rows. */
  datatype Indexes = Indexes(c0: bv32, c1: bv32, c2: bv32, c3: bv32, d0: bv32, d1: bv32, d2: bv32, d3: bv32)

  predicate PicksAll(x: Indexes, h: KeyHalves, turn: bv32)
    requires turn <= 28
  {
    && Picks(x.c0, h.c, turn, PLACES[0]) && Picks(x.c1, h.c, turn, PLACES[1])
    && Picks(x.c2, h.c, turn, PLACES[2]) && Picks(x.c3, h.c, turn, PLACES[3])
    && Picks(x.d0, h.d, turn, PLACES[4]) && Picks(x.d1, h.d, turn, PLACES[5])
    && Picks(x.d2, h.d, turn, PLACES[6]) && Picks(x.d3, h.d, turn, PLACES[7])
  }

  function IndexesOf(h: KeyHalves): (x: Indexes) {
    Indexes(Index0(h.c), Index1(h.c), Index2(h.c), Index3(h.c), Index0(h.d), Index5(h.d), Index6(h.d), Index7(h.d))
  }

  lemma IndexesPick(r: KeyHalves, h: KeyHalves, turn: bv32)
    requires turn <= 28 && TurnedBy(r.c, h.c, turn) && TurnedBy(r.d, h.d, turn)
    ensures PicksAll(IndexesOf(r), h, turn)
  {
    var x := IndexesOf(r);
    Picks0(r.c); PicksTurned(x.c0, r.c, h.c, turn, PLACES[0]);
    Picks1(r.c); PicksTurned(x.c1, r.c, h.c, turn, PLACES[1]);
    Picks2(r.c); PicksTurned(x.c2, r.c, h.c, turn, PLACES[2]);
    Picks3(r.c); PicksTurned(x.c3, r.c, h.c, turn, PLACES[3]);
    Picks4(r.d); PicksTurned(x.d0, r.d, h.d, turn, PLACES[4]);
    Picks5(r.d); PicksTurned(x.d1, r.d, h.d, turn, PLACES[5]);
    Picks6(r.d); PicksTurned(x.d2, r.d, h.d, turn, PLACES[6]);
    Picks7(r.d); PicksTurned(x.d3, r.d, h.d, turn, PLACES[7]);
  }

  lemma PicksAllOne(x: Indexes, y: Indexes, h: KeyHalves, turn: bv32)
    requires turn <= 28 && PicksAll(x, h, turn) && PicksAll(y, h, turn)
    ensures x == y
  {
    PicksOne(x.c0, y.c0, h.c, turn, PLACES[0]);
    PicksOne(x.c1, y.c1, h.c, turn, PLACES[1]);
    PicksOne(x.c2, y.c2, h.c, turn, PLACES[2]);
    PicksOne(x.c3, y.c3, h.c, turn, PLACES[3]);
    PicksOne(x.d0, y.d0, h.d, turn, PLACES[4]);
    PicksOne(x.d1, y.d1, h.d, turn, PLACES[5]);
    PicksOne(x.d2, y.d2, h.d, turn, PLACES[6]);
    PicksOne(x.d3, y.d3, h.d, turn, PLACES[7]);
  }

  // ------------------------------------------------------------------- the two words of a round

  /** The entries of four rows together. */
  function Entries(skb: Table, first: nat, a: bv32, b: bv32, c: bv32, d: bv32): (r: bv32) {
    skb(first, a) | skb(first + 1, b) | skb(first + 2, c) | skb(first + 3, d)
  }

  function RowsC(skb: Table, x: Indexes): (s: bv32) { Entries(skb, 0, x.c0, x.c1, x.c2, x.c3) }

  function RowsD(skb: Table, x: Indexes): (t: bv32) { Entries(skb, 4, x.d0, x.d1, x.d2, x.d3) }

  /** The first word holds the lower halves of `s` and `t`; the second their upper halves, turned up by four places. */
  predicate PairBit(k0: bv32, k1: bv32, s: bv32, t: bv32, b: bv32)
    requires b < 32
  {
    && (Bit(k0, b) <==> if b < 16 then Bit(s, b) else Bit(t, b - 16))
    && (Bit(k1, b) <==> if b < 4 then Bit(t, b + 28) else if b < 20 then Bit(s, b + 12) else Bit(t, b - 4))
  }

  lemma FirstKeyBit(s: bv32, t: bv32, b: bv32)
    requires b < 32
    ensures Bit(FirstKey(s, t), b) <==> if b < 16 then Bit(s, b) else Bit(t, b - 16)
  {}

  lemma SecondKeyBit(s: bv32, t: bv32, b: bv32)
    requires b < 32
    ensures Bit(SecondKey(s, t), b) <==> if b < 4 then Bit(t, b + 28) else if b < 20 then Bit(s, b + 12) else Bit(t, b - 4)
  {}

  lemma PairBits(s: bv32, t: bv32, b: bv32)
    requires b < 32
    ensures PairBit(FirstKey(s, t), SecondKey(s, t), s, t, b)
  {
    FirstKeyBit(s, t, b);
    SecondKeyBit(s, t, b);
  }

  lemma SelectsC(skb: Table, c: bv32)
    ensures SelectS(skb, c) == Entries(skb, 0, Index0(c), Index1(c), Index2(c), Index3(c))
  {}

  lemma SelectsD(skb: Table, d: bv32)
    ensures SelectT(skb, d) == Entries(skb, 4, Index0(d), Index5(d), Index6(d), Index7(d))
  {}

  lemma SelectsRows(skb: Table, h: KeyHalves)
    ensures SelectS(skb, h.c) == RowsC(skb, IndexesOf(h)) && SelectT(skb, h.d) == RowsD(skb, IndexesOf(h))
  {
    SelectsC(skb, h.c);
    SelectsD(skb, h.d);
  }

  /** The words of round i in terms of the halves of that round. */
  lemma PairOfRound(skb: Table, h: KeyHalves, i: nat)
    requires i < 16
    ensures var r := After(NextHalves, h, 0, i + 1);
      KeysOf(skb, h)[2 * i] == First(skb)(r) && KeysOf(skb, h)[2 * i + 1] == Second(skb)(r)
  {
    PairAt(NextHalves, First(skb), Second(skb), h, 0, i, 16);
  }

  lemma PairOfIndexes(skb: Table, h: KeyHalves, i: nat, x: Indexes)
    requires i < 16 && x == IndexesOf(After(NextHalves, h, 0, i + 1))
    ensures var ks, s, t := KeysOf(skb, h), RowsC(skb, x), RowsD(skb, x);
      ks[2 * i] == FirstKey(s, t) && ks[2 * i + 1] == SecondKey(s, t)
  {
    PairOfRound(skb, h, i);
    SelectsRows(skb, After(NextHalves, h, 0, i + 1));
  }

  /** The indexes of the code are the ones the turned halves pick. */
  lemma IndexesAt(key: Block, i: nat)
    requires i < 16
    ensures |TURNS| == 16 && TURNS[i] <= 28
    ensures PicksAll(IndexesOf(After(NextHalves, HalvesOf(key), 0, i + 1)), HalvesOf(key), TURNS[i])
  {
    var h := HalvesOf(key);
    HalvesFit(key);
    HalvesTurn(h, i);
    IndexesPick(After(NextHalves, h, 0, i + 1), h, TURNS[i]);
  }

  lemma IndexesAre(key: Block, i: nat, x: Indexes)
    requires i < 16 && |TURNS| == 16 && TURNS[i] <= 28 && PicksAll(x, HalvesOf(key), TURNS[i])
    ensures x == IndexesOf(After(NextHalves, HalvesOf(key), 0, i + 1))
  {
    IndexesAt(key, i);
    PicksAllOne(x, IndexesOf(After(NextHalves, HalvesOf(key), 0, i + 1)), HalvesOf(key), TURNS[i]);
  }

  /** The words of round i, bit by bit: they are made of the table entries that the turned halves of the key index. */
  lemma RoundPair(skb: Table, key: Block, i: nat, x: Indexes, b: bv32)
    requires i < 16 && b < 32 && |TURNS| == 16 && TURNS[i] <= 28 && PicksAll(x, HalvesOf(key), TURNS[i])
    ensures var ks := KeySchedule(skb, key); PairBit(ks[2 * i], ks[2 * i + 1], RowsC(skb, x), RowsD(skb, x), b)
  {
    IndexesAre(key, i, x);
    PairOfIndexes(skb, HalvesOf(key), i, x);
    PairBits(RowsC(skb, x), RowsD(skb, x), b);
  }
}
