/** Expansion of an XDMCP wrapper to a key of seven bits and odd parity a byte. */
module XdmcpKeys {
  import opened XdmcpDes

  // ------------------------------------------------------------- key expansion

  /** Folds a byte onto its lowest bit and inverts it: the bit that makes the number of ones odd. */
  function OddParity(c: Byte): (p: Byte) {
    var c1 := c ^ (c >> 4);
    var c2 := c1 ^ (c1 >> 2);
    var c3 := c2 ^ (c2 >> 1);
    !c3 & 1
  }

  function Bit(c: Byte, n: nat): (b: bool)
    requires n < 8
  {
    (c >> n) & 1 == 1
  }

  /** Whether a byte has an odd number of ones, counted bit by bit. */
  predicate OddOnes(c: Byte) {
    Bit(c, 0) != (Bit(c, 1) != (Bit(c, 2) != (Bit(c, 3) != (Bit(c, 4) != (Bit(c, 5) != (Bit(c, 6) != Bit(c, 7)))))))
  }

  /** The seven key bits that go into expanded byte `i`: low bits of one byte and high bits of the next. */
  function SevenBits(first: Byte, second: Byte, ashift: nat, bshift: nat): (c: Byte)
    requires ashift <= 7 && bshift <= 7
  {
    ((((first as bv16) << ashift) | ((second as bv16) >> bshift)) & 0x7f) as Byte
  }

  function WithParity(c: Byte): (b: Byte) {
    (c << 1) | OddParity(c)
  }

  function ExpandedByte(w: Block, i: nat): (b: Byte)
    requires i < 8
  {
    if i < 7 then WithParity(SevenBits(w[i], w[i + 1], 7 - i, i + 1)) else WithParity(w[7])
  }

  /** The wrapper's bytes 1 to 7 spread over the upper seven bits of eight bytes. */
  function Expand(w: Block): (e: Block)
    ensures forall i :: 0 <= i < 8 ==> e[i] == ExpandedByte(w, i)
  {
    seq(8, i requires 0 <= i < 8 => ExpandedByte(w, i))
  }

  /** The key bits of an expanded byte, without its parity bit. */
  function UpperSeven(b: Byte): (r: Byte) {
    b >> 1
  }

  function LowSeven(b: Byte): (r: Byte) {
    b & 0x7f
  }

  /** Wrapper byte k + 1, collected from the upper seven bits of two neighbouring expanded bytes. */
  function GatheredByte(upper: Byte, next: Byte, k: nat): (b: Byte)
    requires k < 7
  {
    (upper << (k + 1)) | (next >> (6 - k))
  }

  function Gather(e: Block): (w: seq<Byte>)
    ensures |w| == 7 && forall k :: 0 <= k < 7 ==> w[k] == GatheredByte(UpperSeven(e[k]), UpperSeven(e[k + 1]), k)
  {
    seq(7, k requires 0 <= k < 7 => GatheredByte(UpperSeven(e[k]), UpperSeven(e[k + 1]), k))
  }

  lemma ParityIsOdd(c: Byte)
    ensures OddOnes(WithParity(c)) <==> !Bit(c, 7)
    ensures UpperSeven(WithParity(c)) == LowSeven(c)
  {}

  lemma SevenBitsIsSeven(a: Byte, b: Byte, i: nat)
    requires i < 7
    ensures !Bit(SevenBits(a, b, 7 - i, i + 1), 7)
  {
    match i case 0 => case 1 => case 2 => case 3 => case 4 => case 5 => case 6 =>
  }

  /** The first seven expanded bytes have odd parity; the last has it exactly when wrapper byte 7 is below 128. */
  lemma ExpandParity(w: Block, i: nat)
    requires i < 8
    ensures OddOnes(Expand(w)[i]) <==> i < 7 || !Bit(w[7], 7)
  {
    if i < 7 {
      SevenBitsIsSeven(w[i], w[i + 1], i);
      ParityIsOdd(SevenBits(w[i], w[i + 1], 7 - i, i + 1));
    } else {
      ParityIsOdd(w[7]);
    }
  }

  lemma GatherPieces(a: Byte, b: Byte, c: Byte, k: nat)
    requires k < 6
    ensures GatheredByte(SevenBits(a, b, 7 - k, k + 1), SevenBits(b, c, 6 - k, k + 2), k) == b
  {
    match k case 0 => case 1 => case 2 => case 3 => case 4 => case 5 =>
  }

  lemma GatherLast(a: Byte, b: Byte)
    ensures GatheredByte(SevenBits(a, b, 1, 7), LowSeven(b), 6) == b
  {}

  lemma ExpandedUpper(w: Block, i: nat)
    requires i < 8
    ensures UpperSeven(Expand(w)[i]) == if i < 7 then SevenBits(w[i], w[i + 1], 7 - i, i + 1) else LowSeven(w[7])
  {
    if i < 7 {
      var c := SevenBits(w[i], w[i + 1], 7 - i, i + 1);
      SevenBitsIsSeven(w[i], w[i + 1], i);
      ParityIsOdd(c);
      TopClear(c);
    } else {
      ParityIsOdd(w[7]);
    }
  }

  lemma TopClear(c: Byte)
    requires !Bit(c, 7)
    ensures LowSeven(c) == c
  {}

  /** The upper seven bits of the expanded bytes are the 56 bits of wrapper bytes 1 to 7: they determine those bytes. */
  lemma GatherExpand(w: Block)
    ensures Gather(Expand(w)) == w[1..]
  {
    forall k: nat | k < 7
      ensures Gather(Expand(w))[k] == w[k + 1]
    {
      GatherAt(w, k);
    }
  }

  lemma GatherAt(w: Block, k: nat)
    requires k < 7
    ensures Gather(Expand(w))[k] == w[k + 1]
  {
    ExpandedUpper(w, k);
    ExpandedUpper(w, k + 1);
    if k < 6 {
      GatherPieces(w[k], w[k + 1], w[k + 2], k);
    } else {
      GatherLast(w[6], w[7]);
    }
  }

  ghost predicate SameUpper(e: Block, f: Block) {
    forall i :: 0 <= i < 8 ==> UpperSeven(e[i]) == UpperSeven(f[i])
  }

  lemma SameUpperSameGather(e: Block, f: Block)
    requires SameUpper(e, f)
    ensures Gather(e) == Gather(f)
  {
    forall k: nat | k < 7
      ensures Gather(e)[k] == Gather(f)[k]
    {
      assert UpperSeven(e[k]) == UpperSeven(f[k]) && UpperSeven(e[k + 1]) == UpperSeven(f[k + 1]);
    }
  }

  lemma SameBytesSameExpansion(w: Block, v: Block, i: nat)
    requires i < 8 && forall k :: 1 <= k < 8 ==> w[k] == v[k]
    ensures ExpandedByte(w, i) == ExpandedByte(v, i)
  {
    if i == 0 {
      FirstByteDropped(w[0], v[0], w[1]);
    }
  }

  /** Two wrappers expand to the same key bits exactly when they agree on bytes 1 to 7; byte 0 is not used. */
  lemma ExpandAgrees(w: Block, v: Block)
    ensures SameUpper(Expand(w), Expand(v)) <==> w[1..] == v[1..]
    ensures Expand(w) == Expand(v) <==> w[1..] == v[1..]
  {
    if SameUpper(Expand(w), Expand(v)) {
      GatherExpand(w);
      GatherExpand(v);
      SameUpperSameGather(Expand(w), Expand(v));
    }
    if w[1..] == v[1..] {
      assert forall k :: 1 <= k < 8 ==> w[k] == w[1..][k - 1] && v[k] == v[1..][k - 1];
      forall i: nat | i < 8
        ensures Expand(w)[i] == Expand(v)[i]
      {
        SameBytesSameExpansion(w, v, i);
      }
    }
  }

  lemma FirstByteDropped(a: Byte, b: Byte, c: Byte)
    ensures SevenBits(a, c, 7, 1) == SevenBits(b, c, 7, 1)
  {}

  // ------------------------------------------------------------------- the code

  /** Spreads a wrapper over eight bytes, with the two shift counters of the original loop. */
  method WrapperToOddParity(w: array<Byte>, out: array<Byte>)
    requires w.Length >= 8 && out.Length >= 8 && w != out
    modifies out
    ensures out[..8] == Expand(w[..8]) && out[8..] == old(out[8..])
  {
    var ashift, bshift := 7, 1;
    var i := 0;
    while i < 7
      invariant 0 <= i <= 7 && ashift == 7 - i && bshift == i + 1
      invariant forall k :: 0 <= k < i ==> out[k] == ExpandedByte(w[..8], k)
      invariant out[8..] == old(out[8..])
    {
      var c := SevenBits(w[i], w[i + 1], ashift, bshift);
      out[i] := WithParity(c);
      ashift, bshift, i := ashift - 1, bshift + 1, i + 1;
    }
    out[i] := WithParity(w[i]);
    assert out[7] == ExpandedByte(w[..8], 7);
  }
}
