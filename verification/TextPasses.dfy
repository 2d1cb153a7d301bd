/**
  The two passes of lorieUtf8ToLatin1 over a C string, for any decoder of one character.
 */
module TextPasses {

  type Byte = b: int | 0 <= b < 256

  const SIZE_MAX: nat := 0xffff_ffff_ffff_ffff
  const SECOND_LIMIT: nat := 0xffff_ffff

  /** Gives the bytes consumed, out of at most the given number, and the character. */
  type Decoder = (seq<Byte>, nat) -> (nat, nat)

  ghost predicate AdvancesAt(d: Decoder, s: seq<Byte>, max: nat) {
    max > 0 ==> 0 < d(s, max).0 <= max + 3
  }

  ghost predicate Advances(d: Decoder) {
    forall s: seq<Byte>, max: nat :: AdvancesAt(d, s, max)
  }

  ghost predicate AgreesAt(d: Decoder, s: seq<Byte>, max: nat, more: nat) {
    s != [] && |s| < max && |s| < more ==> d(s, max) == d(s, more) && d(s, max).0 <= |s| + 1
  }

  /** The limit does not matter to a string that is shorter, and at most the terminator is read past. */
  ghost predicate LimitFree(d: Decoder) {
    forall s: seq<Byte>, max: nat, more: nat :: AgreesAt(d, s, max, more)
  }

  /** A byte of a C string: the terminator follows the last one. */
  function At(s: seq<Byte>, i: nat): (b: Byte) {
    if i < |s| then s[i] else 0
  }

  function From(s: seq<Byte>, n: nat): (r: seq<Byte>)
    ensures n > 0 && s != [] ==> |r| < |s|
  {
    if n <= |s| then s[n..] else []
  }

  /** The size_t left after reading `n` of `limit` bytes; it wraps below zero. */
  function Left(limit: nat, n: nat): (r: nat)
    requires limit <= SIZE_MAX && n <= limit + 3
    ensures r <= SIZE_MAX
  {
    if n <= limit then limit - n else limit + SIZE_MAX + 1 - n
  }

  /** One pass over a string, with its initial length limit. */
  ghost function DecodeAll(d: Decoder, s: seq<Byte>, limit: nat): (us: seq<nat>)
    requires Advances(d) && limit <= SIZE_MAX
    decreases |s|
  {
    if limit == 0 || At(s, 0) == 0 then []
    else
      assert AdvancesAt(d, s, limit);
      var n := d(s, limit).0;
      [d(s, limit).1] + DecodeAll(d, From(s, n), Left(limit, n))
  }

  function LatinByte(u: nat): (b: Byte) {
    if u > 0xff then 0x3f else u
  }

  function LatinBytes(us: seq<nat>): (s: seq<Byte>)
    ensures |s| == |us|
  {
    if us == [] then [] else [LatinByte(us[0])] + LatinBytes(us[1..])
  }

  lemma LatinCons(u: nat, us: seq<nat>)
    ensures LatinBytes([u] + us) == [LatinByte(u)] + LatinBytes(us)
  {
    assert ([u] + us)[1..] == us;
  }

  // ------------------------------------------------------------------- a pass by its steps

  /** What a pass yields for a string and a limit. */
  type Pass = (seq<Byte>, nat) -> seq<nat>

  /** A pass decodes one character and goes on behind it, and ends at the terminator. */
  ghost predicate StepsAt(d: Decoder, f: Pass, s: seq<Byte>, limit: nat) {
    if s == [] || s[0] == 0 then f(s, limit) == []
    else |s| < limit <= SIZE_MAX ==>
      && 0 < d(s, limit).0 <= |s| + 1
      && f(s, limit) == [d(s, limit).1] + f(From(s, d(s, limit).0), limit - d(s, limit).0)
  }

  ghost predicate Steps(d: Decoder, f: Pass) {
    forall s: seq<Byte>, limit: nat :: StepsAt(d, f, s, limit)
  }

  ghost function PassOf(d: Decoder): (f: Pass)
    requires Advances(d)
  {
    (s: seq<Byte>, limit: nat) => if limit <= SIZE_MAX then DecodeAll(d, s, limit) else []
  }

  lemma DecodeAllSteps(d: Decoder)
    requires Advances(d) && LimitFree(d)
    ensures Steps(d, PassOf(d))
  {
    forall s: seq<Byte>, limit: nat
      ensures StepsAt(d, PassOf(d), s, limit)
    {
      assert AdvancesAt(d, s, limit) && AgreesAt(d, s, limit, limit);
    }
  }

  lemma LimitStep(d: Decoder, f: Pass, s: seq<Byte>, limit: nat, more: nat)
    requires Steps(d, f) && LimitFree(d) && s != [] && s[0] != 0 && |s| < limit <= SIZE_MAX && |s| < more <= SIZE_MAX
    ensures d(s, limit) == d(s, more) && 0 < d(s, limit).0 <= |s| + 1
    ensures f(s, limit) == [d(s, limit).1] + f(From(s, d(s, limit).0), limit - d(s, limit).0)
    ensures f(s, more) == [d(s, limit).1] + f(From(s, d(s, limit).0), more - d(s, limit).0)
  {
    assert StepsAt(d, f, s, limit) && StepsAt(d, f, s, more) && AgreesAt(d, s, limit, more);
  }

  lemma {:induction false} LimitsAgree(d: Decoder, f: Pass, s: seq<Byte>, limit: nat, more: nat)
    requires Steps(d, f) && LimitFree(d) && (s == [] || (|s| < limit <= SIZE_MAX && |s| < more <= SIZE_MAX))
    ensures f(s, limit) == f(s, more)
    decreases |s|
  {
    if s == [] || s[0] == 0 {
      assert StepsAt(d, f, s, limit) && StepsAt(d, f, s, more);
    } else {
      LimitStep(d, f, s, limit, more);
      var n := d(s, limit).0;
      LimitsAgree(d, f, From(s, n), limit - n, more - n);
    }
  }

  /** The two passes agree on every string shorter than both limits. */
  lemma PassesAgree(d: Decoder, s: seq<Byte>, limit: nat, more: nat)
    requires Advances(d) && LimitFree(d) && |s| < limit <= SIZE_MAX && |s| < more <= SIZE_MAX
    ensures DecodeAll(d, s, limit) == DecodeAll(d, s, more)
  {
    DecodeAllSteps(d);
    LimitsAgree(d, PassOf(d), s, limit, more);
  }

  // ------------------------------------------------------------------- what lies behind the terminator

  predicate NulFree(s: seq<Byte>) {
    forall i :: 0 <= i < |s| ==> s[i] != 0
  }

  /** A string in memory, and whatever lies behind its terminator. */
  function InMemory(text: seq<Byte>, behind: seq<Byte>): (m: seq<Byte>) {
    text + [0] + behind
  }

  ghost predicate LocalAt(d: Decoder, text: seq<Byte>, behind: seq<Byte>, max: nat) {
    text != [] && NulFree(text) && |text| < max ==> d(InMemory(text, behind), max) == d(text, max)
  }

  /** Decoding one character reads nothing behind the terminator. */
  ghost predicate Local(d: Decoder) {
    forall text: seq<Byte>, behind: seq<Byte>, max: nat :: LocalAt(d, text, behind, max)
  }

  /** The last character of a string takes the terminator with it. */
  ghost predicate RunsOut(d: Decoder, text: seq<Byte>)
    requires Advances(d)
    decreases |text|
  {
    text != [] && (assert AdvancesAt(d, text, |text| + 1);
      d(text, |text| + 1).0 > |text| || RunsOut(d, From(text, d(text, |text| + 1).0)))
  }

  lemma FromMemory(text: seq<Byte>, behind: seq<Byte>, n: nat)
    requires n <= |text| + 1
    ensures From(InMemory(text, behind), n) == if n <= |text| then InMemory(From(text, n), behind) else behind
  {}

  /** One step of a pass over a string in memory, beside the same step over the string alone. */
  lemma MemoryStep(d: Decoder, f: Pass, text: seq<Byte>, behind: seq<Byte>, limit: nat)
    requires Advances(d) && Steps(d, f) && LimitFree(d) && Local(d)
    requires text != [] && NulFree(text) && |InMemory(text, behind)| < limit <= SIZE_MAX
    ensures d(text, |text| + 1) == d(text, limit) && 0 < d(text, limit).0 <= |text| + 1
    ensures f(text, limit) == [d(text, limit).1] + f(From(text, d(text, limit).0), limit - d(text, limit).0)
    ensures f(InMemory(text, behind), limit)
      == [d(text, limit).1] + f(From(InMemory(text, behind), d(text, limit).0), limit - d(text, limit).0)
  {
    assert LocalAt(d, text, behind, limit);
    assert AgreesAt(d, text, limit, |text| + 1);
    assert StepsAt(d, f, text, limit);
    assert InMemory(text, behind)[0] == text[0];
    assert StepsAt(d, f, InMemory(text, behind), limit);
  }

  lemma Regroup(u: nat, a: seq<nat>, b: seq<nat>)
    ensures [u] + (a + b) == ([u] + a) + b
  {}

  /** What a pass reads behind the terminator. */
  ghost function Extra(d: Decoder, f: Pass, text: seq<Byte>, behind: seq<Byte>, limit: nat): (us: seq<nat>)
    requires Advances(d) && |text| < limit
  {
    if RunsOut(d, text) then f(behind, limit - |text| - 1) else []
  }

  lemma ExtraStep(d: Decoder, f: Pass, text: seq<Byte>, behind: seq<Byte>, limit: nat, n: nat)
    requires Advances(d) && text != [] && |text| < limit && n == d(text, |text| + 1).0 && 0 < n <= |text| + 1
    ensures Extra(d, f, text, behind, limit)
      == if n <= |text| then Extra(d, f, From(text, n), behind, limit - n) else f(behind, limit - n)
  {}

  /** A pass over a string in memory yields the string's characters, and goes on behind the terminator exactly when the
      last one takes it along. */
  lemma {:induction false} MemoryPass(d: Decoder, f: Pass, text: seq<Byte>, behind: seq<Byte>, limit: nat)
    requires Advances(d) && Steps(d, f) && LimitFree(d) && Local(d)
    requires NulFree(text) && |InMemory(text, behind)| < limit <= SIZE_MAX
    ensures f(InMemory(text, behind), limit)
      == f(text, limit) + Extra(d, f, text, behind, limit)
    decreases |text|
  {
    if text == [] {
      assert StepsAt(d, f, text, limit) && StepsAt(d, f, InMemory(text, behind), limit);
    } else {
      MemoryStep(d, f, text, behind, limit);
      var (n, u) := d(text, limit);
      FromMemory(text, behind, n);
      ExtraStep(d, f, text, behind, limit, n);
      if n <= |text| {
        MemoryPass(d, f, From(text, n), behind, limit - n);
        Regroup(u, f(From(text, n), limit - n), Extra(d, f, From(text, n), behind, limit - n));
      } else {
        assert StepsAt(d, f, From(text, n), limit - n);
      }
    }
  }

  lemma ReadsOn(d: Decoder, text: seq<Byte>, behind: seq<Byte>, limit: nat, out: bool)
    requires Advances(d) && LimitFree(d) && Local(d) && out == RunsOut(d, text)
    requires NulFree(text) && |InMemory(text, behind)| < limit <= SIZE_MAX
    ensures DecodeAll(d, InMemory(text, behind), limit)
      == DecodeAll(d, text, limit) + if out then DecodeAll(d, behind, limit - |text| - 1) else []
  {
    DecodeAllSteps(d);
    MemoryPass(d, PassOf(d), text, behind, limit);
  }

  /** A pass over this memory comes to a NUL inside it. */
  ghost predicate Stops(d: Decoder, m: seq<Byte>)
    requires Advances(d)
    decreases |m|
  {
    m != [] && (m[0] == 0 || (assert AdvancesAt(d, m, |m| + 1); Stops(d, From(m, d(m, |m| + 1).0))))
  }

  /** The readable memory is enough unless the last character takes the terminator along and what follows is not. */
  lemma {:induction false} MemoryStops(d: Decoder, text: seq<Byte>, behind: seq<Byte>)
    requires Advances(d) && LimitFree(d) && Local(d) && NulFree(text)
    ensures Stops(d, InMemory(text, behind)) <==> !RunsOut(d, text) || Stops(d, behind)
    decreases |text|
  {
    if text != [] {
      var m := InMemory(text, behind);
      assert LocalAt(d, text, behind, |m| + 1) && AgreesAt(d, text, |m| + 1, |text| + 1) && AdvancesAt(d, text, |text| + 1);
      var n := d(text, |text| + 1).0;
      FromMemory(text, behind, n);
      assert m[0] == text[0];
      if n <= |text| {
        MemoryStops(d, From(text, n), behind);
      }
    }
  }

  // ------------------------------------------------------------------- the passes as loops

  /** The first pass: counts the characters. */
  method CountPass(d: Decoder, ghost f: Pass, s: seq<Byte>, limit: nat) returns (count: nat)
    requires Steps(d, f) && |s| < limit <= SIZE_MAX
    ensures count == |f(s, limit)|
  {
    count := 0;
    var rest, left := s, limit;
    while left > 0 && At(rest, 0) != 0
      invariant (|rest| < left || rest == []) && 0 <= left <= SIZE_MAX
      invariant count + |f(rest, left)| == |f(s, limit)|
      decreases |rest|
    {
      assert StepsAt(d, f, rest, left);
      var (n, _) := d(rest, left);
      rest, left := From(rest, n), left - n;
      count := count + 1;
    }
    assert StepsAt(d, f, rest, left);
  }

  lemma ConvertStep(all: seq<Byte>, p: nat, u: nat, us: seq<nat>)
    requires p <= |all| && all[p..] == LatinBytes([u] + us)
    ensures p < |all| && all[p] == LatinByte(u) && all[p + 1..] == LatinBytes(us)
  {
    LatinCons(u, us);
    assert all[p..][1..] == all[p + 1..];
    assert all[p] == all[p..][0];
  }

  /** The bytes written so far. */
  ghost predicate Wrote(before: seq<Byte>, now: seq<Byte>, all: seq<Byte>, p: nat) {
    p <= |all| && |now| == |before| && forall k :: 0 <= k < |now| ==> now[k] == if k < p then all[k] else before[k]
  }

  lemma WroteOne(before: seq<Byte>, now: seq<Byte>, all: seq<Byte>, p: nat)
    requires Wrote(before, now, all, p) && p < |all| <= |now|
    ensures Wrote(before, now[p := all[p]], all, p + 1)
  {}

  /** The second pass: writes one byte for each character decoded. */
  method ConvertPass(d: Decoder, ghost f: Pass, s: seq<Byte>, limit: nat, out: array<Byte>)
    requires Steps(d, f) && |s| < limit <= SIZE_MAX && |f(s, limit)| <= out.Length
    modifies out
    ensures Wrote(old(out[..]), out[..], LatinBytes(f(s, limit)), |f(s, limit)|)
  {
    var position := 0;
    ghost var all := LatinBytes(f(s, limit));
    var rest, left := s, limit;
    while left > 0 && At(rest, 0) != 0
      invariant (|rest| < left || rest == []) && 0 <= left <= SIZE_MAX
      invariant 0 <= position <= |all| && all[position..] == LatinBytes(f(rest, left))
      invariant Wrote(old(out[..]), out[..], all, position)
      decreases |rest|
    {
      assert StepsAt(d, f, rest, left);
      var (n, u) := d(rest, left);
      ConvertStep(all, position, u, f(From(rest, n), left - n));
      WroteOne(old(out[..]), out[..], all, position);
      rest, left := From(rest, n), left - n;
      out[position] := LatinByte(u);
      position := position + 1;
    }
    assert StepsAt(d, f, rest, left);
  }
}
