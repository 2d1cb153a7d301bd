/**
  The UTF-8 check, carriage-return removal, and the converters as the loops of the source.
 */
module ClipboardTextCode {
  import opened ClipboardText
  import opened TextPasses

  const CR: Byte := 13

  // ------------------------------------------------------------------- the UTF-8 check

  /** The length lorieCheckUTF8 takes a character at `i` to have, or zero if it rejects it. */
  function CheckedLength(m: seq<Byte>, i: nat): (n: nat) {
    var c := At(m, i);
    if c < 0x80 then 1
    else if !IsTail(At(m, i + 1)) then 0
    else if c < 0xe0 then 2
    else if !IsTail(At(m, i + 2)) then 0
    else if c < 0xf0 then 3
    else if c >= 0xf8 || !IsTail(At(m, i + 3)) then 0
    else 4
  }

  /** Whether the first `size` bytes of memory are accepted from position `i` on; the bytes behind them are read too. */
  predicate Accepts(m: seq<Byte>, size: nat, i: nat)
    decreases size - i
  {
    At(m, i) == 0 || i >= size || (CheckedLength(m, i) > 0 && Accepts(m, size, i + CheckedLength(m, i)))
  }

  /** What the check does not look at: bytes that cannot lead, and the limits on the second byte. */
  predicate LeadsWell(c: Byte, next: Byte) {
    && !(0x80 <= c <= 0xc1) && c <= 0xf4
    && (c == 0xe0 ==> 0xa0 <= next) && (c == 0xed ==> next <= 0x9f)
    && (c == 0xf0 ==> 0x90 <= next) && (c == 0xf4 ==> next <= 0x8f)
  }

  /** At every character start from `i` on the lead is a good one and the character ends within the size. */
  predicate StartsWell(m: seq<Byte>, size: nat, i: nat)
    decreases size - i
  {
    var n := CheckedLength(m, i);
    i >= size || (LeadsWell(At(m, i), At(m, i + 1)) && i + n <= size && (n > 0 ==> StartsWell(m, size, i + n)))
  }

  ghost predicate WellFormed(s: seq<Byte>) {
    exists us: seq<Scalar> :: Encode(us) == s
  }

  // Well-formed text as a sequence of characters of the syntax.

  function Joined(cs: seq<seq<Byte>>): (s: seq<Byte>) {
    if cs == [] then [] else cs[0] + Joined(cs[1..])
  }

  predicate AreChars(cs: seq<seq<Byte>>) {
    forall k :: 0 <= k < |cs| ==> IsChar(cs[k])
  }

  lemma JoinedCons(e: seq<Byte>, cs: seq<seq<Byte>>)
    ensures Joined([e] + cs) == e + Joined(cs)
  {
    assert ([e] + cs)[1..] == cs;
  }

  lemma {:induction false} CharsOf(us: seq<Scalar>) returns (cs: seq<seq<Byte>>)
    ensures AreChars(cs) && Joined(cs) == Encode(us)
    decreases |us|
  {
    if us == [] {
      cs := [];
    } else {
      cs := CharsOf(us[1..]);
      var e := EncodeOne(us[0]);
      EncodingIsChar(us[0]);
      JoinedCons(e, cs);
      cs := [e] + cs;
    }
  }

  lemma {:induction false} ScalarsOf(cs: seq<seq<Byte>>) returns (us: seq<Scalar>)
    requires AreChars(cs)
    ensures Encode(us) == Joined(cs)
    decreases |cs|
  {
    if cs == [] {
      us := [];
    } else {
      us := ScalarsOf(cs[1..]);
      us := EncodesMore(cs[0], us);
    }
  }

  lemma EncodesMore(e: seq<Byte>, us: seq<Scalar>) returns (vs: seq<Scalar>)
    requires IsChar(e)
    ensures Encode(vs) == e + Encode(us)
  {
    CharIsEncoding(e);
    vs := [Value(e)] + us;
    assert vs[1..] == us;
  }

  lemma WellFormedIsChars(s: seq<Byte>)
    ensures WellFormed(s) <==> exists cs :: AreChars(cs) && Joined(cs) == s
  {
    if us: seq<Scalar> :| Encode(us) == s {
      var cs := CharsOf(us);
    }
    if cs :| AreChars(cs) && Joined(cs) == s {
      var us := ScalarsOf(cs);
    }
  }

  lemma CheckedChar(m: seq<Byte>, i: nat, e: seq<Byte>)
    requires IsChar(e) && i + |e| <= |m| && m[i..i + |e|] == e
    ensures CheckedLength(m, i) == |e| && LeadsWell(At(m, i), At(m, i + 1))
  {
    forall j | 0 <= j < |e|
      ensures At(m, i + j) == e[j]
    {
      assert m[i..i + |e|][j] == m[i + j];
    }
    assert At(m, i + 0) == e[0];
  }

  lemma SplitAt(m: seq<Byte>, size: nat, i: nat, e: seq<Byte>, rest: seq<Byte>)
    requires i <= size <= |m| && m[i..size] == e + rest
    ensures i + |e| <= size && m[i..i + |e|] == e && m[i + |e|..size] == rest
  {
    assert m[i..size][..|e|] == m[i..i + |e|];
    assert m[i..size][|e|..] == m[i + |e|..size];
  }

  lemma {:induction false} AcceptsChars(m: seq<Byte>, size: nat, i: nat, cs: seq<seq<Byte>>)
    requires i <= size <= |m| && AreChars(cs) && m[i..size] == Joined(cs)
    ensures Accepts(m, size, i) && StartsWell(m, size, i)
    decreases |cs|
  {
    if cs != [] {
      SplitAt(m, size, i, cs[0], Joined(cs[1..]));
      AcceptsChars(m, size, i + |cs[0]|, cs[1..]);
      CheckedChar(m, i, cs[0]);
    }
  }

  /** Every well-formed string is accepted, whatever lies behind it and also when it contains NUL. */
  lemma AcceptsWellFormed(m: seq<Byte>, size: nat)
    requires size <= |m| && WellFormed(m[..size])
    ensures Accepts(m, size, 0) && StartsWell(m, size, 0)
  {
    WellFormedIsChars(m[..size]);
    var cs :| AreChars(cs) && Joined(cs) == m[..size];
    assert m[0..size] == m[..size];
    AcceptsChars(m, size, 0, cs);
  }

  lemma IsCharAt(m: seq<Byte>, size: nat, i: nat)
    requires i < size <= |m| && LeadsWell(At(m, i), At(m, i + 1))
    requires CheckedLength(m, i) > 0 && i + CheckedLength(m, i) <= size
    ensures IsChar(m[i..i + CheckedLength(m, i)])
  {
    var e := m[i..i + CheckedLength(m, i)];
    assert e[0] == At(m, i);
  }

  lemma {:induction false} ReadsChars(m: seq<Byte>, size: nat, i: nat) returns (cs: seq<seq<Byte>>)
    requires i <= size <= |m| && (forall j :: i <= j < size ==> m[j] != 0)
    requires Accepts(m, size, i) && StartsWell(m, size, i)
    ensures AreChars(cs) && Joined(cs) == m[i..size]
    decreases size - i
  {
    if i == size {
      cs := [];
    } else {
      var n := CheckedLength(m, i);
      cs := ReadsChars(m, size, i + n);
      IsCharAt(m, size, i);
      JoinedCons(m[i..i + n], cs);
      Rejoin(m, i, i + n, size);
      cs := [m[i..i + n]] + cs;
    }
  }

  lemma Rejoin(m: seq<Byte>, i: nat, j: nat, k: nat)
    requires i <= j <= k <= |m|
    ensures m[i..j] + m[j..k] == m[i..k]
  {}

  /** A text without NUL is well-formed exactly when the check accepts it and every character starts with a good lead and
      ends within the size. */
  lemma AcceptedIsWellFormed(m: seq<Byte>, size: nat)
    requires size <= |m| && forall j :: 0 <= j < size ==> m[j] != 0
    ensures WellFormed(m[..size]) <==> Accepts(m, size, 0) && StartsWell(m, size, 0)
  {
    if WellFormed(m[..size]) {
      AcceptsWellFormed(m, size);
    } else if Accepts(m, size, 0) && StartsWell(m, size, 0) {
      var cs := ReadsChars(m, size, 0);
      assert m[0..size] == m[..size];
      WellFormedIsChars(m[..size]);
    }
  }

  /** Accepted though not well-formed: a stray tail byte that leads, and a character that is finished by the byte behind
      the text. */
  lemma AcceptsStrayTail()
    ensures Accepts([0x80, 0x80], 2, 0) && !WellFormed([0x80, 0x80])
    ensures Accepts([0xc3, 0x80], 1, 0) && !WellFormed([0xc3])
  {
    var s: seq<Byte>, c: seq<Byte> := [0x80, 0x80], [0xc3, 0x80];
    assert CheckedLength(s, 0) == 2 && Accepts(s, 2, 2);
    assert CheckedLength(c, 0) == 2 && Accepts(c, 1, 2);
    assert s[..2] == s && c[..1] == [0xc3];
    AcceptedIsWellFormed(s, 2);
    AcceptedIsWellFormed(c, 1);
  }

  /** lorieCheckUTF8 on the first `size` bytes of memory. */
  method CheckUtf8(m: seq<Byte>, size: nat) returns (ok: bool)
    requires size <= |m|
    ensures ok == Accepts(m, size, 0)
    ensures NulFree(m[..size]) && StartsWell(m, size, 0) ==> (ok <==> WellFormed(m[..size]))
    ensures WellFormed(m[..size]) ==> ok
  {
    ghost var text := m[..size];
    if NulFree(text) {
      assert forall j :: 0 <= j < size ==> m[j] == text[j];
      AcceptedIsWellFormed(m, size);
    }
    if WellFormed(text) {
      AcceptsWellFormed(m, size);
    }
    ok := CheckLoop(m, size);
  }

  method CheckLoop(m: seq<Byte>, size: nat) returns (ok: bool)
    ensures ok == Accepts(m, size, 0)
  {
    var i := 0;
    while At(m, i) != 0 && i < size
      invariant 0 <= i && Accepts(m, size, i) == Accepts(m, size, 0)
      decreases size - i
    {
      var c := At(m, i);
      if c >= 0x80 {
        if !IsTail(At(m, i + 1)) { return false; }
        if c >= 0xe0 {
          if !IsTail(At(m, i + 2)) { return false; }
          if c >= 0xf0 {
            if c >= 0xf8 || !IsTail(At(m, i + 3)) { return false; }
            i := i + 4;
          } else {
            i := i + 3;
          }
        } else {
          i := i + 2;
        }
      } else {
        i := i + 1;
      }
    }
    ok := true;
  }

  // ------------------------------------------------------------------- carriage returns

  function WithoutCr(s: seq<Byte>): (r: seq<Byte>) {
    if s == [] then [] else if s[0] == CR then WithoutCr(s[1..]) else [s[0]] + WithoutCr(s[1..])
  }

  lemma {:induction false} WithoutCrHasNone(s: seq<Byte>)
    ensures |WithoutCr(s)| <= |s| && CR !in WithoutCr(s)
  {
    if s != [] {
      WithoutCrHasNone(s[1..]);
    }
  }

  lemma {:induction false} WithoutCrConcat(a: seq<Byte>, b: seq<Byte>)
    ensures WithoutCr(a + b) == WithoutCr(a) + WithoutCr(b)
    decreases |a|
  {
    if a == [] {
      assert a + b == b;
    } else {
      assert (a + b)[1..] == a[1..] + b;
      WithoutCrConcat(a[1..], b);
    }
  }

  lemma {:induction false} WithoutCrKeeps(s: seq<Byte>)
    requires CR !in s
    ensures WithoutCr(s) == s
  {
    if s != [] {
      WithoutCrKeeps(s[1..]);
    }
  }

  function WithoutCrScalars(us: seq<Scalar>): (r: seq<Scalar>) {
    if us == [] then [] else (if us[0] == CR then [] else [us[0]]) + WithoutCrScalars(us[1..])
  }

  lemma EncodeHasCr(u: Scalar)
    ensures CR in EncodeOne(u) <==> u == CR
  {}

  lemma EncodeConcat(a: seq<Scalar>, b: seq<Scalar>)
    requires |a| <= 1
    ensures Encode(a + b) == (if a == [] then [] else EncodeOne(a[0])) + Encode(b)
  {
    assert a != [] ==> (a + b)[1..] == b;
    assert a == [] ==> a + b == b;
  }

  /** Removing carriage returns from a well-formed string gives the well-formed string of the other characters. */
  lemma {:induction false} CrRemovalKeepsWellFormed(us: seq<Scalar>)
    ensures WithoutCr(Encode(us)) == Encode(WithoutCrScalars(us))
    decreases |us|
  {
    if us != [] {
      var e, rest := EncodeOne(us[0]), Encode(us[1..]);
      WithoutCrConcat(e, rest);
      CrRemovalKeepsWellFormed(us[1..]);
      EncodeHasCr(us[0]);
      EncodeConcat(if us[0] == CR then [] else [us[0]], WithoutCrScalars(us[1..]));
      if us[0] == CR {
        assert WithoutCr(e[1..]) == [];
      } else {
        WithoutCrKeeps(e);
      }
    }
  }

  lemma {:induction false} WithoutCrTail(s: seq<Byte>, i: nat, all: seq<Byte>, j: nat)
    requires i < |s| && j <= |all| && all[j..] == WithoutCr(s[i..])
    ensures if s[i] == CR then all[j..] == WithoutCr(s[i + 1..])
      else j < |all| && all[j] == s[i] && all[j + 1..] == WithoutCr(s[i + 1..])
  {
    assert s[i..][1..] == s[i + 1..];
    if s[i] != CR {
      assert all[j..][1..] == all[j + 1..];
      assert all[j] == all[j..][0];
    }
  }

  /** lorieConvertLF: `dst` begins with the filtered bytes and is otherwise unchanged. */
  method ConvertLf(src: seq<Byte>, dst: array<Byte>)
    requires |src| <= dst.Length
    modifies dst
    ensures forall k :: 0 <= k < dst.Length ==> dst[k] == var r := WithoutCr(src); if k < |r| then r[k] else old(dst[k])
  {
    ghost var all := WithoutCr(src);
    WithoutCrHasNone(src);
    assert src[0..] == src;
    var i, j := 0, 0;
    while i < |src|
      invariant 0 <= j <= |all| && 0 <= i <= |src|
      invariant all[j..] == WithoutCr(src[i..])
      invariant forall k :: 0 <= k < dst.Length ==> dst[k] == if k < j then all[k] else old(dst[k])
    {
      WithoutCrTail(src, i, all, j);
      if src[i] != CR {
        dst[j] := src[i];
        j := j + 1;
      }
      i := i + 1;
    }
  }

  // ------------------------------------------------------------------- converters

  lemma {:induction false} Latin1Length(s: seq<Byte>)
    ensures |Latin1ToUtf8(s)| <= 2 * |s|
  {
    if s != [] && s[0] != 0 {
      Latin1Length(s[1..]);
    }
  }

  /** Expands a C string byte by byte. */
  ghost predicate ExpandsAt(g: seq<Byte> -> seq<Byte>, s: seq<Byte>) {
    g(s) == if s == [] || s[0] == 0 then [] else Latin1One(s[0]) + g(s[1..])
  }

  ghost predicate Expands(g: seq<Byte> -> seq<Byte>) {
    forall s: seq<Byte> :: ExpandsAt(g, s)
  }

  lemma Latin1Expands()
    ensures Expands(Latin1ToUtf8)
  {
    forall s: seq<Byte>
      ensures ExpandsAt(Latin1ToUtf8, s)
    {}
  }

  lemma ExpandTail(e: seq<Byte>, rest: seq<Byte>, all: seq<Byte>, n: nat)
    requires n <= |all| && all[n..] == e + rest
    ensures n + |e| <= |all| && all[n..n + |e|] == e && all[n + |e|..] == rest
  {
    assert all[n..][|e|..] == all[n + |e|..];
    assert all[n..][..|e|] == all[n..n + |e|];
  }

  lemma ExpandStep(g: seq<Byte> -> seq<Byte>, s: seq<Byte>, i: nat, all: seq<Byte>, n: nat)
    requires Expands(g) && i < |s| && s[i] != 0 && n <= |all| && all[n..] == g(s[i..])
    ensures var e := Latin1One(s[i]);
      n + |e| <= |all| && all[n..n + |e|] == e && all[n + |e|..] == g(s[i + 1..])
  {
    assert ExpandsAt(g, s[i..]);
    assert s[i..][1..] == s[i + 1..];
    ExpandTail(Latin1One(s[i]), g(s[i + 1..]), all, n);
  }

  method PutLatin1(b: Byte, out: array<Byte>, n: nat) returns (next: nat)
    requires n + |Latin1One(b)| <= out.Length
    modifies out
    ensures next == n + |Latin1One(b)|
    ensures out[..] == old(out[..n]) + Latin1One(b) + old(out[n + |Latin1One(b)|..])
  {
    if b < 128 {
      out[n] := b;
      next := n + 1;
    } else {
      out[n] := LeadByte(0xc2, if b > 0xbf then 1 else 0);
      out[n + 1] := LeadByte(0x80, Bits(b));
      next := n + 2;
    }
  }

  lemma WroteMore(before: seq<Byte>, now: seq<Byte>, all: seq<Byte>, n: nat, e: seq<Byte>)
    requires Wrote(before, now, all, n) && n + |e| <= |all| <= |now| && all[n..n + |e|] == e
    ensures Wrote(before, now[..n] + e + now[n + |e|..], all, n + |e|)
  {
    forall k | 0 <= k < |e|
      ensures e[k] == all[n + k]
    {
      assert all[n..n + |e|][k] == all[n + k];
    }
  }

  /** lorieLatin1ToUTF8: writes the encoding of the C string in `src` to the front of `out`. */
  method Latin1ToUtf8Loop(src: seq<Byte>, out: array<Byte>) returns (n: nat)
    requires 2 * |src| <= out.Length
    modifies out
    ensures n == |Latin1ToUtf8(src)| && Wrote(old(out[..]), out[..], Latin1ToUtf8(src), n)
  {
    Latin1Length(src);
    Latin1Expands();
    n := ExpandLoop(Latin1ToUtf8, src, out);
  }

  method ExpandLoop(ghost g: seq<Byte> -> seq<Byte>, src: seq<Byte>, out: array<Byte>) returns (n: nat)
    requires Expands(g) && |g(src)| <= out.Length
    modifies out
    ensures n == |g(src)| && Wrote(old(out[..]), out[..], g(src), n)
  {
    ghost var all := g(src);
    assert src[0..] == src;
    n := 0;
    var i := 0;
    while At(src, i) != 0
      invariant 0 <= i <= |src| && n <= |all| && all[n..] == g(src[i..])
      invariant Wrote(old(out[..]), out[..], all, n)
      decreases |src| - i
    {
      ExpandStep(g, src, i, all, n);
      WroteMore(old(out[..]), out[..], all, n, Latin1One(src[i]));
      n := PutLatin1(src[i], out, n);
      i := i + 1;
    }
    assert ExpandsAt(g, src[i..]);
  }

  /** lorieUtf8ToUCS4 on the string from position `at` on. */
  method DecodeLoop(s: seq<Byte>, max: nat) returns (consumed: nat, u: nat)
    ensures (consumed, u) == Decode(s, max)
  {
    if max == 0 { return 0, REPLACEMENT; }
    var lead := LeadOf(At(s, 0));
    consumed := 1;
    if lead.NotLead? {
      var left := max - 1;
      while left > 0 && IsTail(At(s, consumed))
        invariant 0 <= left && consumed + TailRun(s, consumed, left) == 1 + TailRun(s, 1, max - 1)
      {
        consumed, left := consumed + 1, left - 1;
      }
      return consumed, REPLACEMENT;
    }
    u := lead.bits;
    var count := lead.tails;
    while count > 0
      invariant ReadTails(s, consumed, count, max, u) == ReadTails(s, 1, lead.tails, max, lead.bits)
    {
      count := count - 1;
      consumed := consumed + 1;
      if consumed - 1 >= max || !IsTail(At(s, consumed - 1)) {
        return consumed, REPLACEMENT;
      }
      u := u * 64 + Bits(At(s, consumed - 1));
    }
    if 0xd800 <= u < 0xe000 {
      u := REPLACEMENT;
    }
  }

  /** The limit does not matter to a string that is shorter. */
  lemma {:induction false} ReadTailsAgree(s: seq<Byte>, i: nat, count: nat, max: nat, more: nat, value: nat)
    requires |s| <= max && |s| <= more
    ensures ReadTails(s, i, count, max, value) == ReadTails(s, i, count, more, value)
    decreases count
  {
    if count > 0 && i < |s| && IsTail(At(s, i)) {
      ReadTailsAgree(s, i + 1, count - 1, max, more, value * 64 + Bits(At(s, i)));
    }
  }

  lemma {:induction false} TailRunAgree(s: seq<Byte>, i: nat, max: nat, more: nat)
    requires |s| <= i + max && |s| <= i + more
    ensures TailRun(s, i, max) == TailRun(s, i, more) && i + TailRun(s, i, max) <= if i < |s| then |s| else i
    decreases max
  {
    if max > 0 && more > 0 && IsTail(At(s, i)) {
      TailRunAgree(s, i + 1, max - 1, more - 1);
    }
  }

  lemma {:induction false} ReadTailsWithin(s: seq<Byte>, i: nat, count: nat, max: nat, value: nat)
    requires i <= |s|
    ensures ReadTails(s, i, count, max, value).0 <= |s| + 1
    decreases count
  {
    if count > 0 && i < max && IsTail(At(s, i)) {
      ReadTailsWithin(s, i + 1, count - 1, max, value * 64 + Bits(At(s, i)));
    }
  }

  lemma DecodeAgree(s: seq<Byte>, max: nat, more: nat)
    requires s != [] && |s| < max && |s| < more
    ensures Decode(s, max) == Decode(s, more) && Decode(s, max).0 <= |s| + 1
  {
    match LeadOf(At(s, 0))
    case Lead(tails, bits) =>
      ReadTailsAgree(s, 1, tails, max, more, bits);
      ReadTailsWithin(s, 1, tails, max, bits);
    case NotLead => TailRunAgree(s, 1, max - 1, more - 1);
  }

  lemma DecoderIsLimitFree()
    ensures LimitFree(Decode)
  {
    forall s: seq<Byte>, max: nat, more: nat
      ensures AgreesAt(Decode, s, max, more)
    {
      if s != [] && |s| < max && |s| < more {
        DecodeAgree(s, max, more);
      }
    }
  }

  function CString(s: seq<Byte>): (r: seq<Byte>) {
    if s == [] || s[0] == 0 then [] else [s[0]] + CString(s[1..])
  }

  lemma {:induction false} CStringOf(s: seq<Byte>)
    ensures CString(s + [0]) == CString(s)
    decreases |s|
  {
    if s != [] && s[0] != 0 {
      assert (s + [0])[1..] == s[1..] + [0];
      CStringOf(s[1..]);
    }
  }

  // ------------------------------------------------------------------- strings that end inside a character

  lemma {:induction false} ReadTailsLocal(s: seq<Byte>, m: seq<Byte>, i: nat, count: nat, max: nat, value: nat)
    requires i <= |s| && forall j :: 0 <= j <= |s| ==> At(m, j) == At(s, j)
    ensures ReadTails(m, i, count, max, value) == ReadTails(s, i, count, max, value)
    decreases count
  {
    if count > 0 && i < max && IsTail(At(s, i)) {
      ReadTailsLocal(s, m, i + 1, count - 1, max, value * 64 + Bits(At(s, i)));
    }
  }

  lemma {:induction false} TailRunLocal(s: seq<Byte>, m: seq<Byte>, i: nat, max: nat)
    requires i <= |s| && forall j :: 0 <= j <= |s| ==> At(m, j) == At(s, j)
    ensures TailRun(m, i, max) == TailRun(s, i, max)
    decreases max
  {
    if max > 0 && IsTail(At(s, i)) {
      TailRunLocal(s, m, i + 1, max - 1);
    }
  }

  lemma DecoderIsLocal()
    ensures Local(Decode)
  {
    forall text: seq<Byte>, behind: seq<Byte>, max: nat
      ensures LocalAt(Decode, text, behind, max)
    {
      if text != [] && max > 0 {
        var m := InMemory(text, behind);
        assert forall j :: 0 <= j <= |text| ==> At(m, j) == At(text, j);
        match LeadOf(At(text, 0))
        case Lead(tails, bits) => ReadTailsLocal(text, m, 1, tails, max, bits);
        case NotLead => TailRunLocal(text, m, 1, max - 1);
      }
    }
  }

  /** The string is one leading byte and fewer tail bytes than it announces. */
  predicate IsCut(s: seq<Byte>) {
    && s != [] && LeadOf(s[0]).Lead? && |s| <= LeadOf(s[0]).tails
    && forall j :: 1 <= j < |s| ==> IsTail(s[j])
  }

  /** The last character of the string is cut short. */
  predicate EndsCut(s: seq<Byte>)
    decreases |s|
  {
    s != [] && (IsCut(s) || EndsCut(From(s, Decode(s, |s| + 1).0)))
  }

  lemma {:induction false} ReadTailsPast(s: seq<Byte>, i: nat, count: nat, max: nat, value: nat)
    requires 1 <= i <= |s| < max && forall j :: 1 <= j < i ==> IsTail(s[j])
    ensures ReadTails(s, i, count, max, value).0 > |s|
      <==> |s| < i + count && forall j :: 1 <= j < |s| ==> IsTail(s[j])
    decreases count
  {
    if count > 0 && IsTail(At(s, i)) {
      ReadTailsPast(s, i + 1, count - 1, max, value * 64 + Bits(At(s, i)));
    }
  }

  /** One character takes the terminator along exactly when it is cut short. */
  lemma CutTakesTerminator(s: seq<Byte>)
    requires s != []
    ensures Decode(s, |s| + 1).0 > |s| <==> IsCut(s)
  {
    match LeadOf(s[0])
    case Lead(tails, bits) => ReadTailsPast(s, 1, tails, |s| + 1, bits);
    case NotLead => TailRunAgree(s, 1, |s|, |s|);
  }

  lemma {:induction false} RunsOutIfCut(s: seq<Byte>)
    requires Advances(Decode)
    ensures RunsOut(Decode, s) <==> EndsCut(s)
    decreases |s|
  {
    if s != [] {
      CutTakesTerminator(s);
      RunsOutIfCut(From(s, Decode(s, |s| + 1).0));
    }
  }

  /** What a pass finds of a string in memory. */
  ghost function Seen(text: seq<Byte>, behind: seq<Byte>, limit: nat): (us: seq<nat>)
    requires limit <= SIZE_MAX
  {
    DecodeAll(Decode, InMemory(text, behind), limit)
  }

  /** A pass yields the string's characters, and then those of what lies behind the terminator exactly when the last
      character of the string is cut short. */
  lemma ReadsBehind(text: seq<Byte>, behind: seq<Byte>, limit: nat)
    requires NulFree(text) && |InMemory(text, behind)| < limit <= SIZE_MAX
    ensures Seen(text, behind, limit) == DecodeAll(Decode, text, limit)
      + if EndsCut(text) then DecodeAll(Decode, behind, limit - |text| - 1) else []
  {
    DecoderAdvances();
    DecoderIsLimitFree();
    DecoderIsLocal();
    RunsOutIfCut(text);
    ReadsOn(Decode, text, behind, limit, EndsCut(text));
  }

  /** What lies behind the terminator does not matter exactly when the last character is not cut short. */
  lemma BehindMattersIfCut(text: seq<Byte>, limit: nat)
    requires NulFree(text) && |text| + 2 < limit <= SIZE_MAX
    ensures (forall behind: seq<Byte> :: |InMemory(text, behind)| < limit ==> Seen(text, behind, limit) == Seen(text, [], limit))
      <==> !EndsCut(text)
  {
    ReadsBehind(text, [], limit);
    ReadsBehind(text, [65], limit);
    if EndsCut(text) {
      OneLetter(limit - |text| - 1);
      assert |Seen(text, [65], limit)| == |Seen(text, [], limit)| + 1;
    } else {
      forall behind: seq<Byte> | |InMemory(text, behind)| < limit
        ensures Seen(text, behind, limit) == Seen(text, [], limit)
      {
        ReadsBehind(text, behind, limit);
      }
    }
  }

  lemma OneLetter(limit: nat)
    requires 0 < limit <= SIZE_MAX
    ensures |DecodeAll(Decode, [65], limit)| == 1 && DecodeAll(Decode, [], limit) == []
  {
    assert Decode([65], limit) == (1, 65);
    assert DecodeAll(Decode, From([65], 1), Left(limit, 1)) == [];
  }

  /** A lone leading byte: the pass goes on to the letter behind the terminator. */
  lemma LoneLeadReadsBehind(limit: nat)
    requires 3 < limit <= SIZE_MAX
    ensures EndsCut([0xc3]) && |Seen([0xc3], [65], limit)| == |Seen([0xc3], [], limit)| + 1
  {
    ReadsBehind([0xc3], [], limit);
    ReadsBehind([0xc3], [65], limit);
    assert IsCut([0xc3]);
    OneLetter(limit - 2);
  }

  lemma EncodeKeepsNulFree(u: Scalar)
    requires u != 0
    ensures NulFree(EncodeOne(u))
  {}

  /** Well-formed text never ends inside a character. */
  lemma {:induction false} WellFormedEndsWhole(us: seq<Scalar>)
    requires 0 !in us
    ensures NulFree(Encode(us)) && !EndsCut(Encode(us))
    decreases |us|
  {
    if us != [] {
      WellFormedEndsWhole(us[1..]);
      EncodeKeepsNulFree(us[0]);
      EndsWholeStep(us[0], Encode(us[1..]));
    }
  }

  lemma EndsWholeStep(u: Scalar, rest: seq<Byte>)
    requires !EndsCut(rest)
    ensures !EndsCut(EncodeOne(u) + rest)
  {
    var s := EncodeOne(u) + rest;
    DecodesOne(u, rest, |s| + 1);
    CutTakesTerminator(s);
    assert From(s, |EncodeOne(u)|) == rest;
  }

  /** The memory from the pointer on holds a NUL where the passes stop. */
  ghost predicate Readable(m: seq<Byte>) {
    DecoderAdvances();
    Stops(Decode, m) && |m| < SECOND_LIMIT
  }

  /** A terminated string is readable as it stands exactly when its last character is not cut short. */
  lemma TerminatedIsReadable(text: seq<Byte>, behind: seq<Byte>)
    requires NulFree(text) && |InMemory(text, behind)| < SECOND_LIMIT
    ensures Readable(InMemory(text, behind)) <==> !EndsCut(text) || Readable(behind)
  {
    DecoderAdvances();
    DecoderIsLimitFree();
    DecoderIsLocal();
    MemoryStops(Decode, text, behind);
    RunsOutIfCut(text);
  }

  /** lorieUtf8ToLatin1 on the memory from the pointer on. */
  method Utf8ToLatin1(m: seq<Byte>) returns (r: seq<Byte>)
    requires Readable(m)
    ensures r == CString(LatinBytes(DecodeAll(Decode, m, SECOND_LIMIT)))
  {
    DecoderAdvances();
    DecoderIsLimitFree();
    DecodeAllSteps(Decode);
    ghost var f := PassOf(Decode);
    var size := CountPass(Decode, f, m, SIZE_MAX);
    PassesAgree(Decode, m, SECOND_LIMIT, SIZE_MAX);
    var out := new Byte[size + 1](_ => 0);
    ConvertPass(Decode, f, m, SECOND_LIMIT, out);
    ghost var text := LatinBytes(DecodeAll(Decode, m, SECOND_LIMIT));
    assert out[..] == text + [0];
    CStringOf(text);
    r := CString(out[..]);
  }

  /** On well-formed text, Latin-1 characters come out as they are and all others as question marks. */
  lemma {:induction false} LatinHasNoNul(us: seq<Scalar>)
    requires forall i :: 0 <= i < |us| ==> us[i] != 0
    ensures CString(LatinBytes(us)) == LatinBytes(us)
  {
    if us != [] {
      LatinHasNoNul(us[1..]);
      assert LatinBytes(us)[1..] == LatinBytes(us[1..]);
    }
  }

  lemma SeesWellFormed(us: seq<Scalar>, behind: seq<Byte>, limit: nat)
    requires 0 !in us && |InMemory(Encode(us), behind)| < limit <= SIZE_MAX
    ensures Seen(Encode(us), behind, limit) == us
  {
    WellFormedEndsWhole(us);
    ReadsBehind(Encode(us), behind, limit);
    DecodesAll(us, limit);
  }

  lemma Utf8ToLatin1Exact(us: seq<Scalar>, behind: seq<Byte>)
    requires 0 !in us && |InMemory(Encode(us), behind)| < SECOND_LIMIT
    ensures Readable(InMemory(Encode(us), behind))
    ensures CString(LatinBytes(DecodeAll(Decode, InMemory(Encode(us), behind), SECOND_LIMIT))) == LatinBytes(us)
  {
    WellFormedEndsWhole(us);
    TerminatedIsReadable(Encode(us), behind);
    SeesWellFormed(us, behind, SECOND_LIMIT);
    LatinHasNoNul(us);
  }
}
