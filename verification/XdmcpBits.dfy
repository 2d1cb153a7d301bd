/**
  Single bits of the words and bytes of the XDMCP wrapper.
 */
module XdmcpBits {
  import opened XdmcpDes

  predicate Bit(v: bv32, b: bv32)
    requires b < 32
  {
    (v >> b) & 1 == 1
  }

  predicate ByteBit(v: Byte, b: Byte)
    requires b < 8
  {
    (v >> b) & 1 == 1
  }

  /** Two places of `v` hold two bits of a word, eight places apart, the upper one first. */
  predicate HoldsTwo(v: bv32, from: bv32, w: bv32, low: bv32)
    requires from <= 30 && low < 24
  {
    (Bit(v, from) <==> Bit(w, low + 8)) && (Bit(v, from + 1) <==> Bit(w, low))
  }

  /** Four places of `v` from `from` on hold bit `k` of four bytes, the last byte first. */
  predicate HoldsColumn(v: bv32, from: bv32, bytes: seq<Byte>, k: Byte)
    requires |bytes| == 4 && from <= 28 && k < 8
  {
    && (Bit(v, from) <==> ByteBit(bytes[3], k)) && (Bit(v, from + 1) <==> ByteBit(bytes[2], k))
    && (Bit(v, from + 2) <==> ByteBit(bytes[1], k)) && (Bit(v, from + 3) <==> ByteBit(bytes[0], k))
  }

  lemma JoinBit(a: Byte, b: Byte, c: Byte, d: Byte, k: Byte)
    requires k < 8
    ensures var w, p := Join(a, b, c, d), k as bv32;
      && (Bit(w, p) <==> ByteBit(a, k)) && (Bit(w, 8 + p) <==> ByteBit(b, k))
      && (Bit(w, 16 + p) <==> ByteBit(c, k)) && (Bit(w, 24 + p) <==> ByteBit(d, k))
  {}

  lemma ColumnOfWord(v: bv32, from: bv32, bytes: seq<Byte>, k: Byte)
    requires |bytes| == 4 && from <= 28 && k < 8
    requires HoldsTwo(v, from, LoadWord(bytes), 16 + k as bv32) && HoldsTwo(v, from + 2, LoadWord(bytes), k as bv32)
    ensures HoldsColumn(v, from, bytes, k)
  {
    JoinBit(bytes[0], bytes[1], bytes[2], bytes[3], k);
  }

  lemma SameIndex(x: bv32, y: bv32)
    requires x < 64 && y < 64
    requires Bit(x, 0) == Bit(y, 0) && Bit(x, 1) == Bit(y, 1) && Bit(x, 2) == Bit(y, 2)
    requires Bit(x, 3) == Bit(y, 3) && Bit(x, 4) == Bit(y, 4) && Bit(x, 5) == Bit(y, 5)
    ensures x == y
  {}
}
