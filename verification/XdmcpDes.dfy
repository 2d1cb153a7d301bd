/**
  The block cipher behind XDM-AUTHENTICATION-1 (the Data Encryption Standard, FIPS 46, in the form
  that works on two 32-bit halves), for arbitrary substitution and key-selection tables.
 */
module XdmcpDes {

  type Byte = bv8

  /** A table of eight rows indexed by six bits; the cipher's laws need nothing about its entries. */
  type Table = (nat, bv32) -> bv32

  datatype Halves = Halves(l: bv32, r: bv32)

  // ------------------------------------------------------------ bytes and words

  function Join(b0: Byte, b1: Byte, b2: Byte, b3: Byte): (w: bv32) {
    (b0 as bv32) | ((b1 as bv32) << 8) | ((b2 as bv32) << 16) | ((b3 as bv32) << 24)
  }

  function LowByte(w: bv32): (b: Byte) {
    (w & 0xff) as Byte
  }

  function LoadWord(b: seq<Byte>): (w: bv32)
    requires |b| == 4
  {
    Join(b[0], b[1], b[2], b[3])
  }

  function StoreWord(w: bv32): (b: seq<Byte>)
    ensures |b| == 4
  {
    [LowByte(w), LowByte(w >> 8), LowByte(w >> 16), LowByte(w >> 24)]
  }

  lemma JoinBytes(w: bv32)
    ensures Join(LowByte(w), LowByte(w >> 8), LowByte(w >> 16), LowByte(w >> 24)) == w
  {}

  lemma ByteOfJoin(b0: Byte, b1: Byte, b2: Byte, b3: Byte)
    ensures var w := Join(b0, b1, b2, b3);
      LowByte(w) == b0 && LowByte(w >> 8) == b1 && LowByte(w >> 16) == b2 && LowByte(w >> 24) == b3
  {}

  lemma LoadStore(w: bv32)
    ensures LoadWord(StoreWord(w)) == w
  {
    JoinBytes(w);
  }

  lemma StoreLoad(b: seq<Byte>)
    requires |b| == 4
    ensures StoreWord(LoadWord(b)) == b
  {
    ByteOfJoin(b[0], b[1], b[2], b[3]);
  }

  // ------------------------------------------------------- initial permutation

  function XorWords(a: bv32, b: bv32): (r: bv32) {
    a ^ b
  }

  /** The five shift distances of the initial permutation, each with its own mask. */
  datatype Distance = By1 | By2 | By4 | By8 | By16

  /** The bits PERM_OP exchanges between `a`, shifted down, and `b`. */
  function Exchanged(k: Distance, a: bv32, b: bv32): (t: bv32) {
    match k
    case By1 => ((a >> 1) ^ b) & 0x55555555
    case By2 => ((a >> 2) ^ b) & 0x33333333
    case By4 => ((a >> 4) ^ b) & 0x0f0f0f0f
    case By8 => ((a >> 8) ^ b) & 0x00ff00ff
    case By16 => ((a >> 16) ^ b) & 0x0000ffff
  }

  function Lift(k: Distance, t: bv32): (r: bv32) {
    match k
    case By1 => t << 1
    case By2 => t << 2
    case By4 => t << 4
    case By8 => t << 8
    case By16 => t << 16
  }

  lemma ExchangedAgain(k: Distance, a: bv32, b: bv32)
    ensures var t := Exchanged(k, a, b); Exchanged(k, XorWords(a, Lift(k, t)), XorWords(b, t)) == t
  {
    match k
    case By1 =>
    case By2 =>
    case By4 =>
    case By8 =>
    case By16 =>
  }

  lemma XorTwice(x: bv32, t: bv32)
    ensures XorWords(XorWords(x, t), t) == x
  {}

  /** One PERM_OP; `fromRight` says which half is the shifted one. */
  datatype Exchange = Exchange(k: Distance, fromRight: bool)

  /** The shifted half and the other half after an exchange. */
  function Shifted(k: Distance, a: bv32, b: bv32): (r: bv32) {
    XorWords(a, Lift(k, Exchanged(k, a, b)))
  }

  function Other(k: Distance, a: bv32, b: bv32): (r: bv32) {
    XorWords(b, Exchanged(k, a, b))
  }

  function Apply(x: Exchange, h: Halves): (r: Halves) {
    if x.fromRight then Halves(Other(x.k, h.r, h.l), Shifted(x.k, h.r, h.l))
    else Halves(Shifted(x.k, h.l, h.r), Other(x.k, h.l, h.r))
  }

  lemma PairBack(k: Distance, a: bv32, b: bv32)
    ensures var a', b' := Shifted(k, a, b), Other(k, a, b);
      Shifted(k, a', b') == a && Other(k, a', b') == b
  {
    var t := Exchanged(k, a, b);
    ExchangedAgain(k, a, b);
    XorTwice(a, Lift(k, t));
    XorTwice(b, t);
  }

  /** Every PERM_OP is its own inverse. */
  lemma ApplyInvolution(x: Exchange, h: Halves)
    ensures Apply(x, Apply(x, h)) == h
  {
    if x.fromRight {
      PairBack(x.k, h.r, h.l);
    } else {
      PairBack(x.k, h.l, h.r);
    }
  }

  function Permute(xs: seq<Exchange>, h: Halves): (r: Halves)
  {
    if xs == [] then h else Permute(xs[1..], Apply(xs[0], h))
  }

  function Backwards(xs: seq<Exchange>): (r: seq<Exchange>)
    ensures |r| == |xs|
    ensures forall i :: 0 <= i < |xs| ==> r[i] == xs[|xs| - 1 - i]
  {
    if xs == [] then [] else Backwards(xs[1..]) + [xs[0]]
  }

  lemma {:induction false} PermuteConcat(xs: seq<Exchange>, ys: seq<Exchange>, h: Halves)
    ensures Permute(xs + ys, h) == Permute(ys, Permute(xs, h))
  {
    if xs == [] {
      assert xs + ys == ys;
    } else {
      PermuteConcat(xs[1..], ys, Apply(xs[0], h));
      assert (xs + ys)[1..] == xs[1..] + ys;
    }
  }

  /** A network of exchanges is undone by the same exchanges in the opposite order. */
  lemma {:induction false} PermuteBack(xs: seq<Exchange>, h: Halves)
    ensures Permute(Backwards(xs), Permute(xs, h)) == h
  {
    if xs != [] {
      var rest := xs[1..];
      var h' := Apply(xs[0], h);
      PermuteBack(rest, h');
      PermuteConcat(Backwards(rest), [xs[0]], Permute(rest, h'));
      PermuteOne(xs[0], h');
      ApplyInvolution(xs[0], h);
    }
  }

  lemma PermuteOne(x: Exchange, h: Halves)
    ensures Permute([x], h) == Apply(x, h)
  {
    assert [x][1..] == [];
  }

  /** The order of exchanges before the rounds; afterwards they run backwards. */
  const INITIAL: seq<Exchange> :=
    [Exchange(By4, true), Exchange(By16, false), Exchange(By2, true), Exchange(By8, false), Exchange(By1, true)]

  // -------------------------------------------------------------------- rounds

  function Rotated(half: bv32): (x: bv32) {
    (half << 1) | (half >> 31)
  }

  function OrWords(a: bv32, b: bv32): (r: bv32) {
    a | b
  }

  function Down4(y: bv32): (t: bv32) {
    (y >> 4) | (y << 28)
  }

  /** The entries of four rows that a word selects with the lower six bits of its bytes. */
  function FourRows(sp: Table, first: nat, w: bv32): (r: bv32) {
    sp(first, w & 0x3f) | sp(first + 2, (w >> 8) & 0x3f) | sp(first + 4, (w >> 16) & 0x3f) | sp(first + 6, (w >> 24) & 0x3f)
  }

  /** The table entries that two keyed words select. */
  function Select(sp: Table, u: bv32, y: bv32): (r: bv32) {
    OrWords(FourRows(sp, 1, Down4(y)), FourRows(sp, 0, u))
  }

  /** What one round mixes into the other half. */
  function Mix(sp: Table, half: bv32, k0: bv32, k1: bv32): (r: bv32) {
    Select(sp, XorWords(Rotated(half), k0), XorWords(Rotated(half), k1))
  }

  /** The mixing function of a keyed cipher: what key pair `i` makes of a half. */
  type Mixer = (bv32, nat) -> bv32

  function Keyed(sp: Table, ks: seq<bv32>): (f: Mixer) {
    (half: bv32, i: nat) => if i + 1 < |ks| then Mix(sp, half, ks[i], ks[i + 1]) else 0
  }

  function Round(f: Mixer, target: bv32, source: bv32, i: nat): (r: bv32) {
    XorWords(target, f(source, i))
  }

  lemma RoundTwice(f: Mixer, target: bv32, source: bv32, i: nat)
    ensures Round(f, Round(f, target, source, i), source, i) == target
  {
    XorTwice(target, f(source, i));
  }

  /** Two rounds: the left half with key pair i, then the right half with key pair j. */
  function TwoRounds(f: Mixer, h: Halves, i: nat, j: nat): (r: Halves) {
    var l := Round(f, h.l, h.r, i);
    Halves(l, Round(f, h.r, l, j))
  }

  function Swap(h: Halves): (r: Halves) {
    Halves(h.r, h.l)
  }

  lemma TwoRoundsBack(f: Mixer, h: Halves, i: nat, j: nat)
    ensures TwoRounds(f, Swap(TwoRounds(f, h, i, j)), j, i) == Swap(h)
  {
    var l := Round(f, h.l, h.r, i);
    RoundTwice(f, h.r, l, j);
    RoundTwice(f, h.l, h.r, i);
  }

  /** A double round of some cipher on states of type H, taking two key positions. */
  type Step<!H> = (H, nat, nat) -> H

  /** The encryption rounds: key pairs forwards, `n` double rounds. */
  function Forward<H>(f: Step<H>, h: H, n: nat): (r: H) {
    if n == 0 then h else f(Forward(f, h, n - 1), 4 * n - 4, 4 * n - 2)
  }

  /** The decryption rounds: key pairs backwards, `n` double rounds. */
  function Backward<H>(f: Step<H>, h: H, n: nat): (r: H)
    decreases n
  {
    if n == 0 then h else Backward(f, f(h, 4 * n - 2, 4 * n - 4), n - 1)
  }

  /** A double round with its key positions exchanged undoes itself on swapped states. */
  ghost predicate Reversible<H(!new)>(f: Step<H>, swap: H -> H) {
    forall h: H, i: nat, j: nat :: f(swap(f(h, i, j)), j, i) == swap(h)
  }

  /** The rounds run backwards on a swapped state undo the rounds run forwards. */
  lemma {:induction false} BackwardForward<H(!new)>(f: Step<H>, swap: H -> H, h: H, n: nat)
    requires Reversible(f, swap)
    ensures Backward(f, swap(Forward(f, h, n)), n) == swap(h)
  {
    if n > 0 {
      BackwardForward(f, swap, h, n - 1);
    }
  }

  /** And the other way round. */
  lemma {:induction false} ForwardBackward<H(!new)>(f: Step<H>, swap: H -> H, h: H, n: nat)
    requires Reversible(f, swap)
    ensures Forward(f, swap(Backward(f, h, n)), n) == swap(h)
    decreases n
  {
    if n > 0 {
      ForwardBackward(f, swap, f(h, 4 * n - 2, 4 * n - 4), n - 1);
    }
  }

  function DoubleRound(sp: Table, ks: seq<bv32>): (f: Step<Halves>) {
    (h: Halves, i: nat, j: nat) => TwoRounds(Keyed(sp, ks), h, i, j)
  }

  lemma DoubleRoundReversible(sp: Table, ks: seq<bv32>)
    ensures Reversible(DoubleRound(sp, ks), Swap)
  {
    var f := DoubleRound(sp, ks);
    forall h: Halves, i: nat, j: nat
      ensures f(Swap(f(h, i, j)), j, i) == Swap(h)
    {
      TwoRoundsBack(Keyed(sp, ks), h, i, j);
    }
  }

  // --------------------------------------------------------------- whole blocks

  type Block = b: seq<Byte> | |b| == 8 witness [0, 0, 0, 0, 0, 0, 0, 0]

  type Schedule = k: seq<bv32> | |k| == 32 witness seq(32, _ => 0)

  function LoadBlock(b: Block): (h: Halves) {
    Halves(LoadWord(b[..4]), LoadWord(b[4..]))
  }

  function StoreBlock(h: Halves): (b: Block) {
    StoreWord(h.l) + StoreWord(h.r)
  }

  lemma BlockRoundTrip(b: Block)
    ensures StoreBlock(LoadBlock(b)) == b
  {
    StoreLoad(b[..4]);
    StoreLoad(b[4..]);
    assert b == b[..4] + b[4..];
  }

  lemma HalvesRoundTrip(h: Halves)
    ensures LoadBlock(StoreBlock(h)) == h
  {
    LoadStore(h.l);
    LoadStore(h.r);
    assert (StoreWord(h.l) + StoreWord(h.r))[..4] == StoreWord(h.l);
    assert (StoreWord(h.l) + StoreWord(h.r))[4..] == StoreWord(h.r);
  }

  function Rounds(sp: Table, ks: Schedule, h: Halves, encrypt: bool): (r: Halves) {
    if encrypt then Forward(DoubleRound(sp, ks), h, 8) else Backward(DoubleRound(sp, ks), h, 8)
  }

  /** The cipher on one block, in either direction. */
  function Crypt(sp: Table, ks: Schedule, b: Block, encrypt: bool): (r: Block) {
    StoreBlock(Permute(Backwards(INITIAL), Rounds(sp, ks, Swap(Permute(INITIAL, LoadBlock(b))), encrypt)))
  }

  lemma {:induction false} PermuteForth(xs: seq<Exchange>, h: Halves)
    ensures Permute(xs, Permute(Backwards(xs), h)) == h
  {
    PermuteBack(Backwards(xs), h);
    assert Backwards(Backwards(xs)) == xs;
  }

  lemma RoundsBack(sp: Table, ks: Schedule, h: Halves, encrypt: bool)
    ensures Rounds(sp, ks, Swap(Rounds(sp, ks, h, encrypt)), !encrypt) == Swap(h)
  {
    DoubleRoundReversible(sp, ks);
    if encrypt {
      BackwardForward(DoubleRound(sp, ks), Swap, h, 8);
    } else {
      ForwardBackward(DoubleRound(sp, ks), Swap, h, 8);
    }
  }

  /** Each direction undoes the other, for every schedule and every substitution table. */
  lemma CryptInverse(sp: Table, ks: Schedule, b: Block, encrypt: bool)
    ensures Crypt(sp, ks, Crypt(sp, ks, b, encrypt), !encrypt) == b
  {
    var h := Permute(INITIAL, LoadBlock(b));
    var g := Rounds(sp, ks, Swap(h), encrypt);
    HalvesRoundTrip(Permute(Backwards(INITIAL), g));
    PermuteForth(INITIAL, g);
    RoundsBack(sp, ks, Swap(h), encrypt);
    PermuteBack(INITIAL, LoadBlock(b));
    BlockRoundTrip(b);
  }

  // ------------------------------------------------------------------- the code

  /** The encryption loop: key positions 0, 2, 4, ... in steps of two rounds. */
  method RunForward<H>(f: Step<H>, h0: H, n: nat) returns (h: H)
    ensures h == Forward(f, h0, n)
  {
    h := h0;
    var i := 0;
    while i < 4 * n
      invariant 0 <= i <= 4 * n && i % 4 == 0
      invariant h == Forward(f, h0, i / 4)
    {
      h := f(h, i, i + 2);
      i := i + 4;
    }
  }

  /** The decryption loop: key positions from the last pair down. */
  method RunBackward<H>(f: Step<H>, h0: H, n: nat) returns (h: H)
    ensures h == Backward(f, h0, n)
  {
    h := h0;
    var i: int := 4 * n - 2;
    while i >= 0
      invariant -2 <= i <= 4 * n - 2 && (i + 2) % 4 == 0
      invariant Backward(f, h, (i + 2) / 4) == Backward(f, h0, n)
    {
      h := f(h, i, i - 2);
      i := i - 4;
    }
  }

  /** Runs a network of exchanges one by one. */
  method RunExchanges(xs: seq<Exchange>, h0: Halves) returns (h: Halves)
    ensures h == Permute(xs, h0)
  {
    h := h0;
    var i := 0;
    while i < |xs|
      invariant 0 <= i <= |xs|
      invariant Permute(xs[i..], h) == Permute(xs, h0)
    {
      assert xs[i..][1..] == xs[i + 1..];
      h := Apply(xs[i], h);
      i := i + 1;
    }
  }

  /** One block from `input` at `from` to `output` at `to`; the two may be the same array. */
  method AuthDoIt(sp: Table, ks: Schedule, input: array<Byte>, from: nat, output: array<Byte>, to: nat, encrypt: bool)
    requires from + 8 <= input.Length && to + 8 <= output.Length
    modifies output
    ensures output[..] == old(output[..to]) + Crypt(sp, ks, old(input[from..from + 8]), encrypt) + old(output[to + 8..])
  {
    ghost var block: Block := input[from..from + 8];
    var h := LoadBlock(input[from..from + 8]);
    h := RunExchanges(INITIAL, h);
    h := Swap(h);
    var f := DoubleRound(sp, ks);
    if encrypt {
      h := RunForward(f, h, 8);
    } else {
      h := RunBackward(f, h, 8);
    }
    h := RunExchanges(Backwards(INITIAL), h);
    var b := StoreBlock(h);
    assert b == Crypt(sp, ks, block, encrypt);
    StoreAt(output, to, b);
  }

  method StoreAt(output: array<Byte>, to: nat, b: Block)
    requires to + 8 <= output.Length
    modifies output
    ensures output[..] == old(output[..to]) + b + old(output[to + 8..])
  {
    var i := 0;
    while i < 8
      invariant 0 <= i <= 8
      invariant forall k :: 0 <= k < output.Length && !(to <= k < to + i) ==> output[k] == old(output[k])
      invariant forall k :: 0 <= k < i ==> output[to + k] == b[k]
    {
      output[to + i] := b[i];
      i := i + 1;
    }
  }
}
