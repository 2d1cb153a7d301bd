/**
  The text converters of the clipboard. Bytes are numbers below 256; the source's masks and shifts are written as
  range tests, remainders and multiplications.
 */
module ClipboardText {
  import opened TextPasses

  const REPLACEMENT: nat := 0xfffd

  predicate IsScalar(u: int) {
    0 <= u < 0xd800 || 0xe000 <= u < 0x110000
  }

  /** A Unicode scalar value. */
  type Scalar = u: int | 0 <= u < 0xd800 || 0xe000 <= u < 0x110000

  // ------------------------------------------------------------------- UTF-8 (section 3 of RFC 3629)

  /** The last six bits of a number and the rest. */
  function Lo(u: nat): (d: nat)
    ensures d < 64 && u == 64 * Hi(u) + d
  {
    u % 64
  }

  function Hi(u: nat): (q: nat) {
    u / 64
  }

  function Tail(d: nat): (b: Byte)
    requires d < 64
    ensures IsTail(b)
  {
    0x80 + d
  }

  function LeadByte(mark: Byte, d: nat): (b: Byte)
    requires mark + d < 256
  {
    mark + d
  }

  function EncodeOne(u: Scalar): (s: seq<Byte>)
    ensures 1 <= |s| <= 4
  {
    if u < 0x80 then [LeadByte(0, u)]
    else if u < 0x800 then [LeadByte(0xc0, Hi(u)), Tail(Lo(u))]
    else if u < 0x10000 then [LeadByte(0xe0, Hi(Hi(u))), Tail(Lo(Hi(u))), Tail(Lo(u))]
    else [LeadByte(0xf0, Hi(Hi(Hi(u)))), Tail(Lo(Hi(Hi(u)))), Tail(Lo(Hi(u))), Tail(Lo(u))]
  }

  function Encode(us: seq<Scalar>): (s: seq<Byte>) {
    if us == [] then [] else EncodeOne(us[0]) + Encode(us[1..])
  }

  predicate IsTail(b: Byte) {
    0x80 <= b < 0xc0
  }

  /** One character of the syntax in section 4 of RFC 3629. */
  predicate IsChar(s: seq<Byte>) {
    || (|s| == 1 && s[0] < 0x80)
    || (|s| == 2 && 0xc2 <= s[0] <= 0xdf && IsTail(s[1]))
    || (|s| == 3 && IsTail(s[1]) && IsTail(s[2]) && (
            || (s[0] == 0xe0 && 0xa0 <= s[1])
            || 0xe1 <= s[0] <= 0xec || (s[0] == 0xed && s[1] <= 0x9f) || 0xee <= s[0] <= 0xef))
    || (|s| == 4 && IsTail(s[1]) && IsTail(s[2]) && IsTail(s[3]) && (
            || (s[0] == 0xf0 && 0x90 <= s[1]) || 0xf1 <= s[0] <= 0xf3 || (s[0] == 0xf4 && s[1] <= 0x8f)))
  }

  function Bits(b: Byte): (d: nat)
    ensures IsTail(b) ==> b == 0x80 + d
  {
    b % 64
  }

  /** The value of a character of one to four bytes. */
  function Value(s: seq<Byte>): (u: nat)
    requires IsChar(s)
  {
    var lead: int := s[0];
    if |s| == 1 then lead
    else if |s| == 2 then (lead - 0xc0) * 64 + Bits(s[1])
    else if |s| == 3 then ((lead - 0xe0) * 64 + Bits(s[1])) * 64 + Bits(s[2])
    else (((lead - 0xf0) * 64 + Bits(s[1])) * 64 + Bits(s[2])) * 64 + Bits(s[3])
  }

  /** The syntax describes exactly the encodings. */
  lemma EncodingIsChar(u: Scalar)
    ensures IsChar(EncodeOne(u)) && Value(EncodeOne(u)) == u
  {
    if 0x800 <= u < 0x10000 {
      LongEncodingIsChar(u);
    } else if 0x10000 <= u {
      LongestEncodingIsChar(u);
    }
  }

  lemma LongEncodingIsChar(u: Scalar)
    requires 0x800 <= u < 0x10000
    ensures IsChar(EncodeOne(u)) && Value(EncodeOne(u)) == u
  {}

  lemma LongestEncodingIsChar(u: Scalar)
    requires 0x10000 <= u
    ensures IsChar(EncodeOne(u)) && Value(EncodeOne(u)) == u
  {}

  lemma HiLo(q: nat, d: nat)
    requires d < 64
    ensures Hi(q * 64 + d) == q && Lo(q * 64 + d) == d
  {}

  lemma CharIsEncoding(s: seq<Byte>)
    requires IsChar(s)
    ensures IsScalar(Value(s)) && EncodeOne(Value(s)) == s
  {
    var lead: int := s[0];
    if |s| == 2 {
      HiLo(lead - 0xc0, Bits(s[1]));
    } else if |s| == 3 {
      LongCharIsEncoding(s);
    } else if |s| == 4 {
      LongestCharIsEncoding(s);
    }
  }

  lemma LongCharIsEncoding(s: seq<Byte>)
    requires IsChar(s) && |s| == 3
    ensures IsScalar(Value(s)) && EncodeOne(Value(s)) == s
  {
    var q: nat := (s[0] as int - 0xe0) * 64 + Bits(s[1]);
    HiLo(s[0] as int - 0xe0, Bits(s[1]));
    HiLo(q, Bits(s[2]));
  }

  lemma LongestCharIsEncoding(s: seq<Byte>)
    requires IsChar(s) && |s| == 4
    ensures IsScalar(Value(s)) && EncodeOne(Value(s)) == s
  {
    var q: nat := (s[0] as int - 0xf0) * 64 + Bits(s[1]);
    HiLo(s[0] as int - 0xf0, Bits(s[1]));
    HiLo(q, Bits(s[2]));
    HiLo(q * 64 + Bits(s[2]), Bits(s[3]));
  }

  // ------------------------------------------------------------------- the decoder

  /** The number of tail bytes a leading byte announces, and its own bits; none for a byte that cannot lead. */
  datatype Lead = Lead(tails: nat, bits: nat) | NotLead

  function LeadOf(b: Byte): (l: Lead) {
    if b < 0x80 then Lead(0, b)
    else if 0xc0 <= b < 0xe0 then Lead(1, b % 32)
    else if 0xe0 <= b < 0xf0 then Lead(2, b % 16)
    else if 0xf0 <= b < 0xf8 then Lead(3, b % 8)
    else NotLead
  }

  /** How many tail bytes stand at position `i`, at most `max`. */
  function TailRun(s: seq<Byte>, i: nat, max: nat): (n: nat)
    ensures n <= max
    decreases max
  {
    if max == 0 || !IsTail(At(s, i)) then 0 else 1 + TailRun(s, i + 1, max - 1)
  }

  /** Reads `count` tail bytes from position `i`; gives the bytes consumed and the value. */
  function ReadTails(s: seq<Byte>, i: nat, count: nat, max: nat, value: nat): (r: (nat, nat))
    ensures r.0 >= i
    decreases count
  {
    if count == 0 then (i, if 0xd800 <= value < 0xe000 then REPLACEMENT else value)
    else if i >= max || !IsTail(At(s, i)) then (i + 1, REPLACEMENT)
    else ReadTails(s, i + 1, count - 1, max, value * 64 + Bits(At(s, i)))
  }

  lemma {:induction false} ReadTailsBound(s: seq<Byte>, i: nat, count: nat, max: nat, value: nat)
    ensures ReadTails(s, i, count, max, value).0 <= i + count
    decreases count
  {
    if count > 0 && i < max && IsTail(At(s, i)) {
      ReadTailsBound(s, i + 1, count - 1, max, value * 64 + Bits(At(s, i)));
    }
  }

  /** lorieUtf8ToUCS4: the bytes consumed, out of at most `max`, and the character. */
  function Decode(s: seq<Byte>, max: nat): (r: (nat, nat))
    ensures max > 0 ==> 0 < r.0 <= max + 3
  {
    if max == 0 then (0, REPLACEMENT)
    else match LeadOf(At(s, 0))
      case Lead(tails, bits) => ReadTailsBound(s, 1, tails, max, bits); ReadTails(s, 1, tails, max, bits)
      case NotLead => (1 + TailRun(s, 1, max - 1), REPLACEMENT)
  }

  /** Reading one tail byte appends its six bits. */
  lemma TailStep(s: seq<Byte>, i: nat, count: nat, max: nat, u: nat)
    requires count > 0 && i < max && At(s, i) == Tail(Lo(u))
    ensures ReadTails(s, i, count, max, Hi(u)) == ReadTails(s, i + 1, count - 1, max, u)
  {}

  /** The bits in the leading byte. */
  function Top(u: Scalar): (d: nat) {
    if u < 0x80 then u else if u < 0x800 then Hi(u) else if u < 0x10000 then Hi(Hi(u)) else Hi(Hi(Hi(u)))
  }

  /** On an encoded character followed by anything the decoder gives back the character and its length. */
  lemma DecodesOne(u: Scalar, rest: seq<Byte>, max: nat)
    requires |EncodeOne(u)| <= max
    ensures Decode(EncodeOne(u) + rest, max) == (|EncodeOne(u)|, u)
  {
    var e := EncodeOne(u);
    var s := e + rest;
    assert forall i :: 0 <= i < |e| ==> At(s, i) == e[i];
    TopLeads(u);
    if |e| == 2 {
      TailStep(s, 1, 1, max, u);
    } else if |e| == 3 {
      DecodesThree(s, max, u);
    } else if |e| == 4 {
      DecodesFour(s, max, u);
    }
  }

  lemma TopLeads(u: Scalar)
    ensures LeadOf(EncodeOne(u)[0]) == Lead(|EncodeOne(u)| - 1, Top(u))
  {}

  lemma DecodesThree(s: seq<Byte>, max: nat, u: Scalar)
    requires max >= 3 && 0x800 <= u < 0x10000 && At(s, 1) == Tail(Lo(Hi(u))) && At(s, 2) == Tail(Lo(u))
    ensures ReadTails(s, 1, 2, max, Hi(Hi(u))) == (3, u)
  {
    TailStep(s, 2, 1, max, u);
    TailStep(s, 1, 2, max, Hi(u));
  }

  lemma DecodesFour(s: seq<Byte>, max: nat, u: Scalar)
    requires max >= 4 && 0x10000 <= u
    requires At(s, 1) == Tail(Lo(Hi(Hi(u)))) && At(s, 2) == Tail(Lo(Hi(u))) && At(s, 3) == Tail(Lo(u))
    ensures ReadTails(s, 1, 3, max, Hi(Hi(Hi(u)))) == (4, u)
  {
    TailStep(s, 3, 1, max, u);
    TailStep(s, 2, 2, max, Hi(u));
    TailStep(s, 1, 3, max, Hi(Hi(u)));
  }

  lemma DecoderAdvances()
    ensures Advances(Decode)
  {}

  lemma EncodeNonzero(u: Scalar, rest: seq<Byte>)
    requires u != 0
    ensures At(EncodeOne(u) + rest, 0) == EncodeOne(u)[0] != 0
  {}

  /** On every well-formed string that fits the limit, a pass yields exactly its scalar values. */
  lemma {:induction false} DecodesAll(us: seq<Scalar>, limit: nat)
    requires 0 !in us && |Encode(us)| <= limit <= SIZE_MAX
    ensures DecodeAll(Decode, Encode(us), limit) == us
    decreases |us|
  {
    if us != [] {
      var e, rest := EncodeOne(us[0]), Encode(us[1..]);
      WholeDecodes(us[0], rest, limit);
      DecodesAll(us[1..], limit - |e|);
      assert us == [us[0]] + us[1..];
    }
  }

  // ------------------------------------------------------------------- Latin-1

  /** Two bytes for a character above 127, as the source computes them. */
  function Latin1One(b: Byte): (s: seq<Byte>) {
    if b < 128 then [b] else [LeadByte(0xc2, if b > 0xbf then 1 else 0), LeadByte(0x80, Bits(b))]
  }

  /** A C string's bytes before its terminator. */
  function Latin1ToUtf8(s: seq<Byte>): (r: seq<Byte>) {
    if s == [] || s[0] == 0 then [] else Latin1One(s[0]) + Latin1ToUtf8(s[1..])
  }

  lemma Latin1OneIsEncoding(b: Byte)
    ensures Latin1One(b) == EncodeOne(b)
  {}

  /** A character cut short by the limit decodes to the replacement character. */
  lemma CutDecodes(u: Scalar, rest: seq<Byte>, limit: nat)
    requires 0x80 <= u < 0x100 && limit == 1
    ensures var us := DecodeAll(Decode, EncodeOne(u) + rest, limit); us != [] && us[0] == REPLACEMENT
  {
    var s := EncodeOne(u) + rest;
    assert At(s, 0) == EncodeOne(u)[0];
    assert LeadOf(At(s, 0)) == Lead(1, Hi(u));
    assert ReadTails(s, 1, 1, limit, Hi(u)) == (2, REPLACEMENT);
  }

  /** One whole character decodes first. */
  lemma WholeDecodes(u: Scalar, rest: seq<Byte>, limit: nat)
    requires u != 0 && |EncodeOne(u)| <= limit <= SIZE_MAX
    ensures DecodeAll(Decode, EncodeOne(u) + rest, limit) == [u] + DecodeAll(Decode, rest, limit - |EncodeOne(u)|)
  {
    EncodeNonzero(u, rest);
    DecodesOne(u, rest, limit);
    assert From(EncodeOne(u) + rest, |EncodeOne(u)|) == rest;
  }

  /** What a pass makes of a Latin-1 character's encoding that fits the limit. */
  ghost predicate WholeAt(f: Pass, b: Byte, rest: seq<Byte>, limit: nat) {
    b != 0 && |Latin1One(b)| <= limit <= SIZE_MAX ==> f(Latin1One(b) + rest, limit) == [b] + f(rest, limit - |Latin1One(b)|)
  }

  /** What it makes of one that does not. */
  ghost predicate CutAt(f: Pass, b: Byte, rest: seq<Byte>, limit: nat) {
    limit < |Latin1One(b)| ==>
      var us := f(Latin1One(b) + rest, limit); us == [] || (b >= 0x80 && us[0] == REPLACEMENT)
  }

  ghost predicate Latin1Pass(f: Pass) {
    forall b: Byte, rest: seq<Byte>, limit: nat :: WholeAt(f, b, rest, limit) && CutAt(f, b, rest, limit)
  }

  lemma DecoderIsLatin1Pass()
    ensures Latin1Pass(PassOf(Decode))
  {
    forall b: Byte, rest: seq<Byte>, limit: nat
      ensures WholeAt(PassOf(Decode), b, rest, limit) && CutAt(PassOf(Decode), b, rest, limit)
    {
      PassIsLatin1At(b, rest, limit);
    }
  }

  lemma PassIsLatin1At(b: Byte, rest: seq<Byte>, limit: nat)
    ensures WholeAt(PassOf(Decode), b, rest, limit) && CutAt(PassOf(Decode), b, rest, limit)
  {
    Latin1OneIsEncoding(b);
    if b != 0 && |Latin1One(b)| <= limit <= SIZE_MAX {
      WholeDecodes(b, rest, limit);
    } else if limit == 1 && b >= 0x80 {
      CutDecodes(b, rest, limit);
    }
  }

  lemma ConsLatin(u: Byte, us: seq<nat>, s: seq<Byte>)
    requires s != [] && s[0] == u
    ensures LatinBytes([u] + us) == s <==> LatinBytes(us) == s[1..]
  {
    LatinCons(u, us);
    assert s == [s[0]] + s[1..];
    assert ([u] + LatinBytes(us))[1..] == LatinBytes(us);
  }

  lemma ReplacedDiffers(us: seq<nat>, s: seq<Byte>)
    requires s != [] && (us == [] || (s[0] >= 0x80 && us[0] == REPLACEMENT))
    ensures LatinBytes(us) != s
  {
    if us != [] {
      assert LatinBytes(us)[0] == 0x3f;
    }
  }

  lemma {:induction false} RoundTrip(f: Pass, s: seq<Byte>, limit: nat)
    requires Latin1Pass(f) && forall n: nat :: f([], n) == []
    requires limit <= SIZE_MAX && forall i :: 0 <= i < |s| ==> s[i] != 0
    ensures LatinBytes(f(Latin1ToUtf8(s), limit)) == s <==> |Latin1ToUtf8(s)| <= limit
    decreases |s|
  {
    if s != [] {
      var n, rest := |Latin1One(s[0])|, Latin1ToUtf8(s[1..]);
      assert WholeAt(f, s[0], rest, limit) && CutAt(f, s[0], rest, limit);
      if n <= limit {
        RoundTrip(f, s[1..], limit - n);
        ConsLatin(s[0], f(rest, limit - n), s);
      } else {
        ReplacedDiffers(f(Latin1ToUtf8(s), limit), s);
      }
    }
  }

  /** Latin-1 to UTF-8 and back: the identity on a string without NUL exactly when its UTF-8 form fits the limit. */
  lemma Latin1RoundTrip(s: seq<Byte>, limit: nat)
    requires limit <= SIZE_MAX && forall i :: 0 <= i < |s| ==> s[i] != 0
    ensures LatinBytes(DecodeAll(Decode, Latin1ToUtf8(s), limit)) == s <==> |Latin1ToUtf8(s)| <= limit
  {
    DecoderIsLatin1Pass();
    RoundTrip(PassOf(Decode), s, limit);
  }
}
