/**
  XdmcpWrap and XdmcpUnwrap: the chaining of `BlockChaining` over the cipher of `XdmcpDes`.
 */
module XdmcpWrap {
  import opened XdmcpDes
  import opened XdmcpKeys
  import opened XdmcpSchedule
  import C = BlockChaining

  function XorByte(a: Byte, b: Byte): (r: Byte) {
    a ^ b
  }

  lemma XorByteTwice(a: Byte, b: Byte)
    ensures XorByte(XorByte(a, b), b) == a
  {}

  function CryptBytes(sp: Table, ks: Schedule, b: seq<Byte>, encrypt: bool): (r: seq<Byte>) {
    if |b| == 8 then Crypt(sp, ks, b, encrypt) else b
  }

  function DesCipher(sp: Table, ks: Schedule): (c: C.Cipher<Byte>)
    ensures C.Lengths(c)
  {
    C.Cipher((b: seq<Byte>) => CryptBytes(sp, ks, b, true), (b: seq<Byte>) => CryptBytes(sp, ks, b, false), XorByte, 0)
  }

  lemma DesInverse(sp: Table, ks: Schedule)
    ensures C.Inverse(DesCipher(sp, ks))
  {
    var c := DesCipher(sp, ks);
    forall b: seq<Byte> | |b| == 8
      ensures c.decrypt(c.encrypt(b)) == b
    {
      CryptInverse(sp, ks, b, true);
    }
    forall a: Byte, b: Byte
      ensures c.xor(c.xor(a, b), b) == a
    {
      XorByteTwice(a, b);
    }
  }

  function WrapperCipher(sp: Table, skb: Table, w: Block): (c: C.Cipher<Byte>)
    ensures C.Lengths(c)
  {
    DesCipher(sp, KeySchedule(skb, Expand(w)))
  }

  /** For every wrapper, every table and every message: unwrap of wrap is the message with zero padding. */
  lemma WrapRoundTrip(sp: Table, skb: Table, w: Block, m: seq<Byte>)
    ensures var c := WrapperCipher(sp, skb, w);
      C.Unwrapped(c, C.Wrapped(c, m, []), []) == C.Padded(c, m)
  {
    DesInverse(sp, KeySchedule(skb, Expand(w)));
    C.UnwrapInvertsWrap(WrapperCipher(sp, skb, w), m, []);
  }

  /** The ciphertext depends on the wrapper only through bytes 1 to 7. */
  lemma WrapDependsOn56Bits(sp: Table, skb: Table, w: Block, v: Block, m: seq<Byte>)
    requires w[1..] == v[1..]
    ensures C.Wrapped(WrapperCipher(sp, skb, w), m, []) == C.Wrapped(WrapperCipher(sp, skb, v), m, [])
  {
    ExpandAgrees(w, v);
  }

  /** Nor does it see the parity bits of the expanded key. */
  lemma WrapIgnoresParity(sp: Table, skb: Table, e: Block, f: Block, m: seq<Byte>)
    requires SameUpper(e, f)
    ensures C.Wrapped(DesCipher(sp, KeySchedule(skb, e)), m, []) == C.Wrapped(DesCipher(sp, KeySchedule(skb, f)), m, [])
  {
    ScheduleIgnoresParity(skb, e, f);
  }

  lemma XorByteCommutes(a: Byte, b: Byte)
    ensures XorByte(a, b) == XorByte(b, a)
  {}

  lemma DesCommutes(sp: Table, ks: Schedule)
    ensures C.Commutes(DesCipher(sp, ks))
  {
    var c := DesCipher(sp, ks);
    forall a: Byte, b: Byte
      ensures c.xor(a, b) == c.xor(b, a)
    {
      XorByteCommutes(a, b);
    }
  }

  lemma DesChangeReaches(c: C.Cipher<Byte>, sp: Table, ks: Schedule, m: seq<Byte>, v: seq<Byte>, k: nat, n: nat)
    requires c == DesCipher(sp, ks) && |m| == |v| && k <= n && C.BLOCK * n < |m|
    requires forall j: nat :: j <= n ==> (C.InBlock(c, m, j) == C.InBlock(c, v, j) <==> j != k)
    ensures C.OutBlock(c, m, [], n) != C.OutBlock(c, v, [], n)
  {
    DesInverse(sp, ks);
    DesCommutes(sp, ks);
    C.ChangeReaches(c, m, v, k, n);
  }

  /** Two messages of one length that differ in block k: every output block from k to n differs, as long as the message
      blocks in between are the same. */
  lemma WrapChangeReaches(sp: Table, skb: Table, w: Block, m: seq<Byte>, v: seq<Byte>, k: nat, n: nat)
    requires |m| == |v| && k <= n && C.BLOCK * n < |m|
    requires var c := WrapperCipher(sp, skb, w);
      forall j: nat :: j <= n ==> (C.InBlock(c, m, j) == C.InBlock(c, v, j) <==> j != k)
    ensures var c := WrapperCipher(sp, skb, w); C.OutBlock(c, m, [], n) != C.OutBlock(c, v, [], n)
  {
    DesChangeReaches(WrapperCipher(sp, skb, w), sp, KeySchedule(skb, Expand(w)), m, v, k, n);
  }

  // ------------------------------------------------------------------- the code

  /** Expands the wrapper and sets up the schedule. */
  method Keyed(sp: Table, skb: Table, wrapper: array<Byte>) returns (c: C.Cipher<Byte>)
    requires wrapper.Length >= 8
    ensures c == WrapperCipher(sp, skb, wrapper[..8])
  {
    var key, schedule := new Byte[8], new bv32[32];
    WrapperToOddParity(wrapper, key);
    AuthSetup(skb, key, schedule);
    assert key[..8] == Expand(wrapper[..8]);
    c := DesCipher(sp, schedule[..]);
  }

  /** `output` must have room for whole blocks, and may be `input` or `wrapper`. */
  method Wrap(sp: Table, skb: Table, input: array<Byte>, wrapper: array<Byte>, output: array<Byte>, bytes: int)
    requires wrapper.Length >= 8 && bytes <= input.Length && (bytes > 0 ==> C.RoundUp(bytes) <= output.Length)
    modifies output
    ensures bytes <= 0 ==> output[..] == old(output[..])
    ensures bytes > 0 ==>
      output[..C.RoundUp(bytes)] == C.Wrapped(WrapperCipher(sp, skb, old(wrapper[..8])), old(input[..bytes]), [])
    ensures bytes > 0 ==> output[C.RoundUp(bytes)..] == old(output[C.RoundUp(bytes)..])
  {
    var c := Keyed(sp, skb, wrapper);
    if bytes > 0 {
      C.Wrap(c, input, output, bytes);
    }
  }

  method Unwrap(sp: Table, skb: Table, input: array<Byte>, wrapper: array<Byte>, output: array<Byte>, bytes: int)
    requires wrapper.Length >= 8 && bytes <= input.Length && (bytes > 0 ==> C.RoundDown(bytes) <= output.Length)
    modifies output
    ensures bytes <= 0 ==> output[..] == old(output[..])
    ensures bytes > 0 ==>
      output[..C.RoundDown(bytes)] == C.Unwrapped(WrapperCipher(sp, skb, old(wrapper[..8])), old(input[..bytes]), [])
    ensures bytes > 0 ==> output[C.RoundDown(bytes)..] == old(output[C.RoundDown(bytes)..])
  {
    var c := Keyed(sp, skb, wrapper);
    if bytes > 0 {
      C.Unwrap(c, input, output, bytes);
    }
  }
}
