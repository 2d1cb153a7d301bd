/**
  The complementation property of the block cipher: complementing every bit of the block and of the schedule complements
  every bit of the result, whatever the substitution tables are.
 */
module XdmcpComplement {
  import opened XdmcpDes

  function FlipByte(b: Byte): (r: Byte) { !b }

  function Flip(w: bv32): (r: bv32) { !w }

  function FlipHalves(h: Halves): (r: Halves) {
    Halves(Flip(h.l), Flip(h.r))
  }

  function FlipBlock(b: Block): (r: Block)
    ensures forall i :: 0 <= i < 8 ==> r[i] == FlipByte(b[i])
  {
    seq(8, i requires 0 <= i < 8 => FlipByte(b[i]))
  }

  function FlipSchedule(ks: Schedule): (r: Schedule)
    ensures forall i :: 0 <= i < 32 ==> r[i] == Flip(ks[i])
  {
    seq(32, i requires 0 <= i < 32 => Flip(ks[i]))
  }

  // ------------------------------------------------------------------- words

  function Byte0(w: bv32): (b: Byte) { LowByte(w) }
  function Byte1(w: bv32): (b: Byte) { LowByte(w >> 8) }
  function Byte2(w: bv32): (b: Byte) { LowByte(w >> 16) }
  function Byte3(w: bv32): (b: Byte) { LowByte(w >> 24) }

  lemma Byte0Flips(w: bv32) ensures Byte0(Flip(w)) == FlipByte(Byte0(w)) {}
  lemma Byte1Flips(w: bv32) ensures Byte1(Flip(w)) == FlipByte(Byte1(w)) {}
  lemma Byte2Flips(w: bv32) ensures Byte2(Flip(w)) == FlipByte(Byte2(w)) {}
  lemma Byte3Flips(w: bv32) ensures Byte3(Flip(w)) == FlipByte(Byte3(w)) {}

  lemma BytesMakeWord(w: bv32)
    ensures Join(Byte0(w), Byte1(w), Byte2(w), Byte3(w)) == w
  {
    JoinBytes(w);
  }

  lemma WordHasBytes(a: Byte, b: Byte, c: Byte, d: Byte)
    ensures var w := Join(a, b, c, d); Byte0(w) == a && Byte1(w) == b && Byte2(w) == c && Byte3(w) == d
  {
    ByteOfJoin(a, b, c, d);
  }

  /** A word made of complemented bytes, for any words and bytes with these laws. */
  lemma JoinCommutes<W(!new), B(!new)>(join: (B, B, B, B) -> W, b0: W -> B, b1: W -> B, b2: W -> B, b3: W -> B,
                                       flip: W -> W, flipByte: B -> B, a: B, b: B, c: B, d: B)
    requires forall w: W :: join(b0(w), b1(w), b2(w), b3(w)) == w
    requires var w := join(a, b, c, d); b0(w) == a && b1(w) == b && b2(w) == c && b3(w) == d
    requires var w := join(a, b, c, d);
      b0(flip(w)) == flipByte(b0(w)) && b1(flip(w)) == flipByte(b1(w)) && b2(flip(w)) == flipByte(b2(w)) && b3(flip(w)) == flipByte(b3(w))
    ensures join(flipByte(a), flipByte(b), flipByte(c), flipByte(d)) == flip(join(a, b, c, d))
  {
    var v := flip(join(a, b, c, d));
    assert join(b0(v), b1(v), b2(v), b3(v)) == v;
  }

  lemma JoinFlips(a: Byte, b: Byte, c: Byte, d: Byte)
    ensures Join(FlipByte(a), FlipByte(b), FlipByte(c), FlipByte(d)) == Flip(Join(a, b, c, d))
  {
    var w := Join(a, b, c, d);
    forall v: bv32
      ensures Join(Byte0(v), Byte1(v), Byte2(v), Byte3(v)) == v
    {
      BytesMakeWord(v);
    }
    WordHasBytes(a, b, c, d);
    Byte0Flips(w);
    Byte1Flips(w);
    Byte2Flips(w);
    Byte3Flips(w);
    JoinCommutes(Join, Byte0, Byte1, Byte2, Byte3, Flip, FlipByte, a, b, c, d);
  }

  lemma LoadFlips(b: Block)
    ensures LoadBlock(FlipBlock(b)) == FlipHalves(LoadBlock(b))
  {
    JoinFlips(b[0], b[1], b[2], b[3]);
    JoinFlips(b[4], b[5], b[6], b[7]);
  }

  lemma StoreFlips(h: Halves)
    ensures StoreBlock(FlipHalves(h)) == FlipBlock(StoreBlock(h))
  {
    WordFlips(h.l);
    WordFlips(h.r);
    var s, t := StoreWord(h.l), StoreWord(h.r);
    assert StoreBlock(h) == s + t;
  }

  lemma WordFlips(w: bv32)
    ensures var s, t := StoreWord(w), StoreWord(Flip(w));
      t[0] == FlipByte(s[0]) && t[1] == FlipByte(s[1]) && t[2] == FlipByte(s[2]) && t[3] == FlipByte(s[3])
  {
    Byte0Flips(w);
    Byte1Flips(w);
    Byte2Flips(w);
    Byte3Flips(w);
  }

  // ------------------------------------------------------------------- exchanges and rounds

  lemma XorFlips(a: bv32, t: bv32)
    ensures XorWords(Flip(a), t) == Flip(XorWords(a, t))
  {}

  lemma XorBoth(a: bv32, k: bv32)
    ensures XorWords(Flip(a), Flip(k)) == XorWords(a, k)
  {}

  lemma StaysBy1(a: bv32, b: bv32)
    ensures Exchanged(By1, Flip(a), Flip(b)) == Exchanged(By1, a, b)
  {}

  lemma StaysBy2(a: bv32, b: bv32)
    ensures Exchanged(By2, Flip(a), Flip(b)) == Exchanged(By2, a, b)
  {}

  lemma StaysBy4(a: bv32, b: bv32)
    ensures Exchanged(By4, Flip(a), Flip(b)) == Exchanged(By4, a, b)
  {}

  lemma StaysBy8(a: bv32, b: bv32)
    ensures Exchanged(By8, Flip(a), Flip(b)) == Exchanged(By8, a, b)
  {}

  lemma StaysBy16(a: bv32, b: bv32)
    ensures Exchanged(By16, Flip(a), Flip(b)) == Exchanged(By16, a, b)
  {}

  lemma ExchangedStays(k: Distance, a: bv32, b: bv32)
    ensures Exchanged(k, Flip(a), Flip(b)) == Exchanged(k, a, b)
  {
    match k
    case By1 => StaysBy1(a, b);
    case By2 => StaysBy2(a, b);
    case By4 => StaysBy4(a, b);
    case By8 => StaysBy8(a, b);
    case By16 => StaysBy16(a, b);
  }

  /** Mixing in what does not change under complement commutes with it. */
  lemma MixedIn<W(!new)>(xor: (W, W) -> W, flip: W -> W, a: W, t: W, t': W)
    requires t == t' && xor(flip(a), t) == flip(xor(a, t))
    ensures xor(flip(a), t') == flip(xor(a, t))
  {}

  lemma ShiftedFlips(k: Distance, a: bv32, b: bv32)
    ensures XorWords(Flip(a), Lift(k, Exchanged(k, Flip(a), Flip(b)))) == Flip(XorWords(a, Lift(k, Exchanged(k, a, b))))
  {
    ExchangedStays(k, a, b);
    XorFlips(a, Lift(k, Exchanged(k, a, b)));
    MixedIn(XorWords, Flip, a, Lift(k, Exchanged(k, a, b)), Lift(k, Exchanged(k, Flip(a), Flip(b))));
  }

  lemma OtherFlips(k: Distance, a: bv32, b: bv32)
    ensures XorWords(Flip(b), Exchanged(k, Flip(a), Flip(b))) == Flip(XorWords(b, Exchanged(k, a, b)))
  {
    ExchangedStays(k, a, b);
    XorFlips(b, Exchanged(k, a, b));
    MixedIn(XorWords, Flip, b, Exchanged(k, a, b), Exchanged(k, Flip(a), Flip(b)));
  }

  lemma PairFlips(k: Distance, a: bv32, b: bv32)
    ensures Shifted(k, Flip(a), Flip(b)) == Flip(Shifted(k, a, b))
    ensures Other(k, Flip(a), Flip(b)) == Flip(Other(k, a, b))
  {
    ShiftedFlips(k, a, b);
    OtherFlips(k, a, b);
  }

  lemma ApplyFlips(x: Exchange, h: Halves)
    ensures Apply(x, FlipHalves(h)) == FlipHalves(Apply(x, h))
  {
    PairFlips(x.k, h.r, h.l);
    PairFlips(x.k, h.l, h.r);
  }

  lemma {:induction false} PermuteFlips(xs: seq<Exchange>, h: Halves)
    ensures Permute(xs, FlipHalves(h)) == FlipHalves(Permute(xs, h))
    decreases |xs|
  {
    if xs != [] {
      ApplyFlips(xs[0], h);
      PermuteFlips(xs[1..], Apply(xs[0], h));
    }
  }

  function LowBit(x: bv32): (r: bv32) { x & 1 }
  function HighBits(x: bv32): (r: bv32) { x & 0xfffffffe }
  function Up(w: bv32): (r: bv32) { w << 1 }
  function Down(w: bv32): (r: bv32) { w >> 31 }

  lemma RotatedLow(w: bv32) ensures LowBit(Rotated(w)) == Down(w) {}
  lemma RotatedHigh(w: bv32) ensures HighBits(Rotated(w)) == Up(w) {}
  lemma DownFlips(w: bv32) ensures Down(Flip(w)) == LowBit(Flip(Down(w))) {}
  lemma LowOfFlip(x: bv32) ensures LowBit(Flip(x)) == LowBit(Flip(LowBit(x))) {}

  function FlipHigh(x: bv32): (r: bv32) { 0xfffffffe ^ x }

  lemma FlipHighTwice(x: bv32) ensures FlipHigh(FlipHigh(x)) == x {}
  lemma FlipHighOfFlip(x: bv32) ensures FlipHigh(HighBits(Flip(x))) == HighBits(x) {}
  lemma FlipHighOfUp(w: bv32) ensures FlipHigh(Up(Flip(w))) == Up(w) {}
  lemma HighTwice(x: bv32) ensures HighBits(HighBits(x)) == HighBits(x) {}
  lemma HighOfUp(w: bv32) ensures HighBits(Up(w)) == Up(w) {}

  lemma ByInvolution<W(!new)>(g: W -> W, a: W, b: W)
    requires g(g(a)) == a && g(g(b)) == b && g(a) == g(b)
    ensures a == b
  {}

  lemma UpFlips(w: bv32)
    ensures Up(Flip(w)) == HighBits(Flip(Up(w)))
  {
    var a, b := Up(Flip(w)), HighBits(Flip(Up(w)));
    FlipHighTwice(a);
    FlipHighTwice(b);
    FlipHighOfUp(w);
    FlipHighOfFlip(Up(w));
    HighOfUp(w);
    ByInvolution(FlipHigh, a, b);
  }

  lemma HighOfFlip(x: bv32)
    ensures HighBits(Flip(x)) == HighBits(Flip(HighBits(x)))
  {
    var a, b := HighBits(Flip(x)), HighBits(Flip(HighBits(x)));
    FlipHighTwice(a);
    FlipHighTwice(b);
    FlipHighOfFlip(x);
    FlipHighOfFlip(HighBits(x));
    HighTwice(x);
    ByInvolution(FlipHigh, a, b);
  }

  lemma JoinBits(a: bv32, b: bv32)
    requires LowBit(a) == LowBit(b) && HighBits(a) == HighBits(b)
    ensures a == b
  {}

  /** The part of a rotation that `part` selects is moved there by `move`, and commutes with the complement. */
  lemma PartFlips<W(!new)>(rot: W -> W, part: W -> W, move: W -> W, flip: W -> W, w: W)
    requires part(rot(w)) == move(w) && part(rot(flip(w))) == move(flip(w))
    requires move(flip(w)) == part(flip(move(w))) && part(flip(rot(w))) == part(flip(part(rot(w))))
    ensures part(rot(flip(w))) == part(flip(rot(w)))
  {}

  lemma LowFlips(w: bv32)
    ensures LowBit(Rotated(Flip(w))) == LowBit(Flip(Rotated(w)))
  {
    RotatedLow(w);
    RotatedLow(Flip(w));
    DownFlips(w);
    LowOfFlip(Rotated(w));
    PartFlips(Rotated, LowBit, Down, Flip, w);
  }

  lemma HighFlips(w: bv32)
    ensures HighBits(Rotated(Flip(w))) == HighBits(Flip(Rotated(w)))
  {
    RotatedHigh(w);
    RotatedHigh(Flip(w));
    UpFlips(w);
    HighOfFlip(Rotated(w));
    PartFlips(Rotated, HighBits, Up, Flip, w);
  }

  lemma RotatedFlips(w: bv32)
    ensures Rotated(Flip(w)) == Flip(Rotated(w))
  {
    LowFlips(w);
    HighFlips(w);
    JoinBits(Rotated(Flip(w)), Flip(Rotated(w)));
  }

  /** Exclusive-or with a complemented key cancels the complement of what it is applied to. */
  lemma KeyCancels<W(!new)>(xor: (W, W) -> W, flip: W -> W, x: W, x': W, k: W)
    requires x' == flip(x) && xor(flip(x), flip(k)) == xor(x, k)
    ensures xor(x', flip(k)) == xor(x, k)
  {}

  lemma KeyedStays(half: bv32, k: bv32)
    ensures XorWords(Rotated(Flip(half)), Flip(k)) == XorWords(Rotated(half), k)
  {
    RotatedFlips(half);
    XorBoth(Rotated(half), k);
    KeyCancels(XorWords, Flip, Rotated(half), Rotated(Flip(half)), k);
  }

  /** The key mixing cancels the complement: the tables see the same indices. */
  lemma MixStays(sp: Table, half: bv32, k0: bv32, k1: bv32)
    ensures Mix(sp, Flip(half), Flip(k0), Flip(k1)) == Mix(sp, half, k0, k1)
  {
    KeyedStays(half, k0);
    KeyedStays(half, k1);
  }

  lemma KeyedFlips(sp: Table, ks: Schedule, source: bv32, i: nat)
    requires i + 1 < 32
    ensures Keyed(sp, FlipSchedule(ks))(Flip(source), i) == Keyed(sp, ks)(source, i)
  {
    MixStays(sp, source, ks[i], ks[i + 1]);
  }

  lemma RoundFlips(f: Mixer, g: Mixer, target: bv32, source: bv32, i: nat)
    requires g(Flip(source), i) == f(source, i)
    ensures Round(g, Flip(target), Flip(source), i) == Flip(Round(f, target, source, i))
  {
    XorFlips(target, f(source, i));
    MixedIn(XorWords, Flip, target, f(source, i), g(Flip(source), i));
  }

  /** `g` does to complemented states what `f` does, complemented, for the key positions of sixteen rounds. */
  ghost predicate Commutes<H(!new)>(f: Step<H>, g: Step<H>, flip: H -> H) {
    forall h: H, i: nat, j: nat :: CommutesAt(f, g, flip, h, i, j)
  }

  ghost predicate CommutesAt<H>(f: Step<H>, g: Step<H>, flip: H -> H, h: H, i: nat, j: nat) {
    i < 31 && j < 31 ==> g(flip(h), i, j) == flip(f(h, i, j))
  }

  lemma {:induction false} ForwardFlips<H(!new)>(f: Step<H>, g: Step<H>, flip: H -> H, h: H, n: nat)
    requires Commutes(f, g, flip) && n <= 8
    ensures Forward(g, flip(h), n) == flip(Forward(f, h, n))
  {
    if n > 0 {
      ForwardFlips(f, g, flip, h, n - 1);
      assert CommutesAt(f, g, flip, Forward(f, h, n - 1), 4 * n - 4, 4 * n - 2);
    }
  }

  lemma {:induction false} BackwardFlips<H(!new)>(f: Step<H>, g: Step<H>, flip: H -> H, h: H, n: nat)
    requires Commutes(f, g, flip) && n <= 8
    ensures Backward(g, flip(h), n) == flip(Backward(f, h, n))
    decreases n
  {
    if n > 0 {
      assert CommutesAt(f, g, flip, h, 4 * n - 2, 4 * n - 4);
      BackwardFlips(f, g, flip, f(h, 4 * n - 2, 4 * n - 4), n - 1);
    }
  }

  lemma TwoRoundsFlip(sp: Table, ks: Schedule, h: Halves, i: nat, j: nat)
    requires i < 31 && j < 31
    ensures TwoRounds(Keyed(sp, FlipSchedule(ks)), FlipHalves(h), i, j) == FlipHalves(TwoRounds(Keyed(sp, ks), h, i, j))
  {
    var f, g := Keyed(sp, ks), Keyed(sp, FlipSchedule(ks));
    var l := Round(f, h.l, h.r, i);
    KeyedFlips(sp, ks, h.r, i);
    RoundFlips(f, g, h.l, h.r, i);
    KeyedFlips(sp, ks, l, j);
    RoundFlips(f, g, h.r, l, j);
  }

  lemma DoubleRoundFlips(sp: Table, ks: Schedule)
    ensures Commutes(DoubleRound(sp, ks), DoubleRound(sp, FlipSchedule(ks)), FlipHalves)
  {
    var f, g := DoubleRound(sp, ks), DoubleRound(sp, FlipSchedule(ks));
    forall h: Halves, i: nat, j: nat
      ensures CommutesAt(f, g, FlipHalves, h, i, j)
    {
      if i < 31 && j < 31 {
        TwoRoundsFlip(sp, ks, h, i, j);
      }
    }
  }

  lemma RoundsFlip(sp: Table, ks: Schedule, h: Halves, encrypt: bool)
    ensures Rounds(sp, FlipSchedule(ks), FlipHalves(h), encrypt) == FlipHalves(Rounds(sp, ks, h, encrypt))
  {
    DoubleRoundFlips(sp, ks);
    if encrypt {
      ForwardFlips(DoubleRound(sp, ks), DoubleRound(sp, FlipSchedule(ks)), FlipHalves, h, 8);
    } else {
      BackwardFlips(DoubleRound(sp, ks), DoubleRound(sp, FlipSchedule(ks)), FlipHalves, h, 8);
    }
  }

  /** Complementing block and schedule complements the result, in both directions and for every table. */
  lemma Complementation(sp: Table, ks: Schedule, b: Block, encrypt: bool)
    ensures Crypt(sp, FlipSchedule(ks), FlipBlock(b), encrypt) == FlipBlock(Crypt(sp, ks, b, encrypt))
  {
    LoadFlips(b);
    var h := LoadBlock(b);
    PermuteFlips(INITIAL, h);
    var g := Swap(Permute(INITIAL, h));
    RoundsFlip(sp, ks, g, encrypt);
    var r := Rounds(sp, ks, g, encrypt);
    PermuteFlips(Backwards(INITIAL), r);
    StoreFlips(Permute(Backwards(INITIAL), r));
  }
}
