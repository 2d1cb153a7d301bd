/**
  The block chaining of XdmcpWrap and XdmcpUnwrap, over any block cipher and any exclusive-or:
  eight-byte blocks, zero padding, input and output possibly the same array.
 */
module BlockChaining {

  const BLOCK: nat := 8

  /** A keyed block cipher in both directions, with the exclusive-or of its bytes. */
  datatype Cipher<!T> = Cipher(encrypt: seq<T> -> seq<T>, decrypt: seq<T> -> seq<T>, xor: (T, T) -> T, zero: T)

  ghost predicate Lengths<T(!new)>(c: Cipher<T>) {
    forall b: seq<T> :: |b| == BLOCK ==> |c.encrypt(b)| == BLOCK && |c.decrypt(b)| == BLOCK
  }

  ghost predicate Inverse<T(!new)>(c: Cipher<T>) {
    && (forall b: seq<T> :: |b| == BLOCK ==> c.decrypt(c.encrypt(b)) == b)
    && (forall a: T, b: T :: c.xor(c.xor(a, b), b) == a)
  }

  function Xor<T>(c: Cipher<T>, a: seq<T>, b: seq<T>): (r: seq<T>)
    requires |a| == |b|
    ensures |r| == |a| && forall i :: 0 <= i < |a| ==> r[i] == c.xor(a[i], b[i])
  {
    seq(|a|, i requires 0 <= i < |a| => c.xor(a[i], b[i]))
  }

  /** The block before: none in front of the first one. */
  ghost predicate IsPrev<T>(prev: seq<T>) {
    prev == [] || |prev| == BLOCK
  }

  ghost function Chain<T>(c: Cipher<T>, b: seq<T>, prev: seq<T>): (r: seq<T>)
    requires |b| == BLOCK && IsPrev(prev)
    ensures |r| == BLOCK
  {
    if prev == [] then b else Xor(c, b, prev)
  }

  lemma ChainTwice<T(!new)>(c: Cipher<T>, b: seq<T>, prev: seq<T>)
    requires Inverse(c) && |b| == BLOCK && IsPrev(prev)
    ensures Chain(c, Chain(c, b, prev), prev) == b
  {}

  function Zeros<T>(c: Cipher<T>, n: nat): (z: seq<T>)
    ensures |z| == n && forall i :: 0 <= i < n ==> z[i] == c.zero
  {
    seq(n, _ => c.zero)
  }

  /** A message's next block: its first eight bytes, padded with zeros. */
  function FirstBlock<T>(c: Cipher<T>, m: seq<T>): (b: seq<T>)
    ensures |b| == BLOCK
    ensures forall i :: 0 <= i < BLOCK ==> b[i] == if i < |m| then m[i] else c.zero
  {
    if |m| >= BLOCK then m[..BLOCK] else m + Zeros(c, BLOCK - |m|)
  }

  function Rest<T>(m: seq<T>): (r: seq<T>) {
    if |m| >= BLOCK then m[BLOCK..] else []
  }

  /** A length rounded up, and down, to whole blocks. */
  function RoundUp(n: nat): (r: nat)
    ensures n <= r < n + BLOCK
  {
    if n == 0 then 0 else if n <= BLOCK then BLOCK else BLOCK + RoundUp(n - BLOCK)
  }

  function RoundDown(n: nat): (r: nat)
    ensures r <= n < r + BLOCK
  {
    if n < BLOCK then 0 else BLOCK + RoundDown(n - BLOCK)
  }

  lemma {:induction false} RoundsToBlocks(n: nat)
    ensures RoundUp(n) == (n + BLOCK - 1) / BLOCK * BLOCK && RoundDown(n) == n / BLOCK * BLOCK
  {
    if n >= BLOCK {
      RoundsToBlocks(n - BLOCK);
    }
  }

  ghost function NextOut<T(!new)>(c: Cipher<T>, m: seq<T>, prev: seq<T>): (out: seq<T>)
    requires Lengths(c) && IsPrev(prev)
    ensures |out| == BLOCK
  {
    c.encrypt(Chain(c, FirstBlock(c, m), prev))
  }

  /** Cipher block chaining: each block is combined with the previous output before encryption. */
  ghost function Wrapped<T(!new)>(c: Cipher<T>, m: seq<T>, prev: seq<T>): (r: seq<T>)
    requires Lengths(c) && IsPrev(prev)
    ensures |r| == RoundUp(|m|)
    decreases |m|
  {
    if m == [] then [] else NextOut(c, m, prev) + Wrapped(c, Rest(m), NextOut(c, m, prev))
  }

  ghost function NextPlain<T(!new)>(c: Cipher<T>, x: seq<T>, prev: seq<T>): (out: seq<T>)
    requires Lengths(c) && IsPrev(prev) && |x| >= BLOCK
    ensures |out| == BLOCK
  {
    Chain(c, c.decrypt(x[..BLOCK]), prev)
  }

  /** The inverse: each decrypted block is combined with the previous input; an incomplete block ends it. */
  ghost function Unwrapped<T(!new)>(c: Cipher<T>, x: seq<T>, prev: seq<T>): (r: seq<T>)
    requires Lengths(c) && IsPrev(prev)
    ensures |r| == RoundDown(|x|)
    decreases |x|
  {
    if |x| < BLOCK then [] else NextPlain(c, x, prev) + Unwrapped(c, x[BLOCK..], x[..BLOCK])
  }

  /** One unfolding of `Unwrapped` on a block followed by the rest. */
  lemma UnwrappedStep<T(!new)>(c: Cipher<T>, out: seq<T>, rest: seq<T>, prev: seq<T>)
    requires Lengths(c) && IsPrev(prev) && |out| == BLOCK
    ensures Unwrapped(c, out + rest, prev) == Chain(c, c.decrypt(out), prev) + Unwrapped(c, rest, out)
  {
    var all := out + rest;
    assert all[..BLOCK] == out && all[BLOCK..] == rest;
  }

  /** A message zero-padded to whole blocks. */
  function Padded<T>(c: Cipher<T>, m: seq<T>): (p: seq<T>)
    ensures |p| == RoundUp(|m|) && p[..|m|] == m && forall i :: |m| <= i < |p| ==> p[i] == c.zero
  {
    m + Zeros(c, RoundUp(|m|) - |m|)
  }

  lemma PaddedStep<T>(c: Cipher<T>, m: seq<T>)
    requires m != []
    ensures Padded(c, m) == FirstBlock(c, m) + Padded(c, Rest(m))
  {
    var p, q := Padded(c, m), FirstBlock(c, m) + Padded(c, Rest(m));
    assert |p| == |q|;
    forall i | 0 <= i < |p|
      ensures p[i] == q[i]
    {
      assert i < |m| ==> p[i] == p[..|m|][i];
      assert |m| >= BLOCK && BLOCK <= i < |m| ==> Padded(c, Rest(m))[..|Rest(m)|][i - BLOCK] == m[i];
    }
  }

  /** Unwrapping undoes wrapping, for messages of every length: what comes back is the message, zero-padded. */
  lemma {:induction false} UnwrapInvertsWrap<T(!new)>(c: Cipher<T>, m: seq<T>, prev: seq<T>)
    requires Lengths(c) && Inverse(c) && IsPrev(prev)
    ensures Unwrapped(c, Wrapped(c, m, prev), prev) == Padded(c, m)
    decreases |m|
  {
    if m != [] {
      var out := NextOut(c, m, prev);
      UnwrappedStep(c, out, Wrapped(c, Rest(m), out), prev);
      ChainTwice(c, FirstBlock(c, m), prev);
      UnwrapInvertsWrap(c, Rest(m), out);
      PaddedStep(c, m);
    }
  }

  // ------------------------------------------------------------------- block by block

  lemma {:induction false} HasBlock(len: nat, n: nat)
    requires BLOCK * n < len
    ensures BLOCK * n + BLOCK <= RoundUp(len)
  {
    if n > 0 {
      HasBlock(len - BLOCK, n - 1);
    }
  }

  function Block<T>(s: seq<T>, n: nat): (b: seq<T>)
    requires BLOCK * n + BLOCK <= |s|
    ensures |b| == BLOCK
  {
    s[BLOCK * n..BLOCK * n + BLOCK]
  }

  ghost function InBlock<T>(c: Cipher<T>, m: seq<T>, n: nat): (b: seq<T>)
    requires BLOCK * n < |m|
    ensures |b| == BLOCK
  {
    HasBlock(|m|, n);
    Block(Padded(c, m), n)
  }

  ghost function OutBlock<T(!new)>(c: Cipher<T>, m: seq<T>, prev: seq<T>, n: nat): (b: seq<T>)
    requires Lengths(c) && IsPrev(prev) && BLOCK * n < |m|
    ensures |b| == BLOCK
  {
    HasBlock(|m|, n);
    Block(Wrapped(c, m, prev), n)
  }

  lemma LaterBlock<T>(b: seq<T>, rest: seq<T>, n: nat)
    requires |b| == BLOCK && n > 0 && BLOCK * n <= |rest|
    ensures Block(b + rest, n) == Block(rest, n - 1)
  {
    var k := BLOCK * n;
    assert (b + rest)[k..k + BLOCK] == rest[k - BLOCK..k];
  }

  lemma BlocksOfRest<T(!new)>(c: Cipher<T>, m: seq<T>, prev: seq<T>, n: nat)
    requires Lengths(c) && IsPrev(prev) && n > 0 && BLOCK * n < |m|
    ensures InBlock(c, m, n) == InBlock(c, Rest(m), n - 1)
    ensures OutBlock(c, m, prev, n) == OutBlock(c, Rest(m), NextOut(c, m, prev), n - 1)
  {
    HasBlock(|Rest(m)|, n - 1);
    PaddedStep(c, m);
    LaterBlock(FirstBlock(c, m), Padded(c, Rest(m)), n);
    LaterBlock(NextOut(c, m, prev), Wrapped(c, Rest(m), NextOut(c, m, prev)), n);
  }

  lemma BlocksAtFirst<T(!new)>(c: Cipher<T>, m: seq<T>, prev: seq<T>)
    requires Lengths(c) && IsPrev(prev) && m != []
    ensures InBlock(c, m, 0) == FirstBlock(c, m) && OutBlock(c, m, prev, 0) == NextOut(c, m, prev)
  {
    HasBlock(|m|, 0);
    PaddedStep(c, m);
  }

  /** Output block n is the encryption of message block n combined with output block n - 1; the first is combined with
      what came before the message, if anything did. */
  lemma {:induction false} BlockIsChained<T(!new)>(c: Cipher<T>, m: seq<T>, prev: seq<T>, n: nat)
    requires Lengths(c) && IsPrev(prev) && BLOCK * n < |m|
    ensures n > 0 ==> OutBlock(c, m, prev, n) == c.encrypt(Xor(c, InBlock(c, m, n), OutBlock(c, m, prev, n - 1)))
    ensures n == 0 ==> OutBlock(c, m, prev, n) == c.encrypt(if prev == [] then InBlock(c, m, n) else Xor(c, InBlock(c, m, n), prev))
    decreases n
  {
    BlocksAtFirst(c, m, prev);
    if n > 0 {
      var out := NextOut(c, m, prev);
      BlocksOfRest(c, m, prev, n);
      BlockIsChained(c, Rest(m), out, n - 1);
      if n > 1 {
        BlocksOfRest(c, m, prev, n - 1);
      }
    }
  }

  /** The outputs are the same up to the first block that differs. */
  lemma {:induction false} SameUpTo<T(!new)>(c: Cipher<T>, m: seq<T>, w: seq<T>, n: nat)
    requires Lengths(c) && |m| == |w| && BLOCK * n < |m|
    requires forall j: nat :: j <= n ==> InBlock(c, m, j) == InBlock(c, w, j)
    ensures OutBlock(c, m, [], n) == OutBlock(c, w, [], n)
  {
    BlockIsChained(c, m, [], n);
    BlockIsChained(c, w, [], n);
    if n > 0 {
      SameUpTo(c, m, w, n - 1);
    }
  }

  lemma Distinct<T(!new)>(c: Cipher<T>, a: seq<T>, b: seq<T>)
    requires Lengths(c) && Inverse(c) && |a| == |b| == BLOCK && a != b
    ensures c.encrypt(a) != c.encrypt(b)
  {
    assert c.decrypt(c.encrypt(a)) == a && c.decrypt(c.encrypt(b)) == b;
  }

  ghost predicate Commutes<T(!new)>(c: Cipher<T>) {
    forall a: T, b: T :: c.xor(a, b) == c.xor(b, a)
  }

  lemma DistinctXor<T(!new)>(c: Cipher<T>, a: seq<T>, p: seq<T>, q: seq<T>)
    requires Inverse(c) && Commutes(c) && |a| == |p| == |q| && p != q
    ensures Xor(c, a, p) != Xor(c, a, q)
  {
    var i :| 0 <= i < |p| && p[i] != q[i];
    assert c.xor(p[i], a[i]) == c.xor(a[i], p[i]) && c.xor(q[i], a[i]) == c.xor(a[i], q[i]);
    assert c.xor(c.xor(p[i], a[i]), a[i]) == p[i] && c.xor(c.xor(q[i], a[i]), a[i]) == q[i];
    assert Xor(c, a, p)[i] != Xor(c, a, q)[i];
  }

  lemma DistinctChained<T(!new)>(c: Cipher<T>, a: seq<T>, b: seq<T>, p: seq<T>)
    requires Inverse(c) && |a| == |b| == |p| && a != b
    ensures Xor(c, a, p) != Xor(c, b, p)
  {
    var i :| 0 <= i < |a| && a[i] != b[i];
    assert c.xor(c.xor(a[i], p[i]), p[i]) == a[i] && c.xor(c.xor(b[i], p[i]), p[i]) == b[i];
    assert Xor(c, a, p)[i] != Xor(c, b, p)[i];
  }

  lemma ChangeStarts<T(!new)>(c: Cipher<T>, m: seq<T>, w: seq<T>, n: nat)
    requires Lengths(c) && Inverse(c) && |m| == |w| && BLOCK * n < |m| && InBlock(c, m, n) != InBlock(c, w, n)
    requires n > 0 ==> OutBlock(c, m, [], n - 1) == OutBlock(c, w, [], n - 1)
    ensures OutBlock(c, m, [], n) != OutBlock(c, w, [], n)
  {
    BlockIsChained(c, m, [], n);
    BlockIsChained(c, w, [], n);
    var a, b := InBlock(c, m, n), InBlock(c, w, n);
    if n > 0 {
      var prev := OutBlock(c, m, [], n - 1);
      DistinctChained(c, a, b, prev);
      Distinct(c, Xor(c, a, prev), Xor(c, b, prev));
    } else {
      Distinct(c, a, b);
    }
  }

  lemma ChangeGoesOn<T(!new)>(c: Cipher<T>, m: seq<T>, w: seq<T>, n: nat)
    requires Lengths(c) && Inverse(c) && Commutes(c) && |m| == |w| && n > 0 && BLOCK * n < |m|
    requires InBlock(c, m, n) == InBlock(c, w, n) && OutBlock(c, m, [], n - 1) != OutBlock(c, w, [], n - 1)
    ensures OutBlock(c, m, [], n) != OutBlock(c, w, [], n)
  {
    BlockIsChained(c, m, [], n);
    BlockIsChained(c, w, [], n);
    var a, p, q := InBlock(c, m, n), OutBlock(c, m, [], n - 1), OutBlock(c, w, [], n - 1);
    DistinctXor(c, a, p, q);
    Distinct(c, Xor(c, a, p), Xor(c, a, q));
  }

  /** A change in one block changes the output from that block on: in every later block, too, as long as the message
      blocks there are the same. */
  lemma {:induction false} ChangeReaches<T(!new)>(c: Cipher<T>, m: seq<T>, w: seq<T>, k: nat, n: nat)
    requires Lengths(c) && Inverse(c) && Commutes(c) && |m| == |w| && k <= n && BLOCK * n < |m|
    requires forall j: nat :: j <= n ==> (InBlock(c, m, j) == InBlock(c, w, j) <==> j != k)
    ensures OutBlock(c, m, [], n) != OutBlock(c, w, [], n)
    decreases n
  {
    if k < n {
      ChangeReaches(c, m, w, k, n - 1);
      ChangeGoesOn(c, m, w, n);
    } else {
      if n > 0 {
        SameUpTo(c, m, w, n - 1);
      }
      ChangeStarts(c, m, w, n);
    }
  }

  // ------------------------------------------------------------------- progress through a buffer

  /** What is left of a message from position `j` on. */
  function From<T>(m: seq<T>, j: nat): (r: seq<T>) {
    if j < |m| then m[j..] else []
  }

  /** The block of `s` that ends at `j`. */
  ghost function PrevBlock<T>(s: seq<T>, j: nat): (b: seq<T>)
    requires j <= |s| && (j > 0 ==> j >= BLOCK)
    ensures IsPrev(b)
  {
    if j == 0 then [] else s[j - BLOCK..j]
  }

  lemma TailSplit<T>(all: seq<T>, j: nat, out: seq<T>, rest: seq<T>)
    requires j <= |all| && all[j..] == out + rest
    ensures j + |out| <= |all| && all[j..j + |out|] == out && all[j + |out|..] == rest
  {
    assert |all| - j == |out| + |rest|;
    assert all[j..j + |out|] == all[j..][..|out|];
    assert all[j + |out|..] == all[j..][|out|..];
  }

  lemma RestFrom<T>(m: seq<T>, j: nat)
    requires j < |m|
    ensures From(m, j) == m[j..] && Rest(m[j..]) == From(m, j + BLOCK)
  {}

  lemma WrappedAt<T(!new)>(c: Cipher<T>, m: seq<T>, all: seq<T>, j: nat, prev: seq<T>)
    requires Lengths(c) && j < |m| && IsPrev(prev) && j <= |all| && all[j..] == Wrapped(c, From(m, j), prev)
    ensures var out := NextOut(c, m[j..], prev);
      j + BLOCK <= |all| && all[j..j + BLOCK] == out && all[j + BLOCK..] == Wrapped(c, From(m, j + BLOCK), out)
  {
    RestFrom(m, j);
    var out := NextOut(c, m[j..], prev);
    TailSplit(all, j, out, Wrapped(c, From(m, j + BLOCK), out));
  }

  /** How far wrapping `m` has come: `out` holds the result's first `j` bytes, and the rest is still to chain. */
  ghost predicate WrapProgress<T(!new)>(c: Cipher<T>, m: seq<T>, all: seq<T>, out: seq<T>, j: nat)
    requires Lengths(c)
  {
    && j <= |all| <= |out| && (j == 0 || j >= BLOCK)
    && out[..j] == all[..j]
    && all[j..] == Wrapped(c, From(m, j), PrevBlock(out, j))
  }

  /** A sequence with its eight elements from `j` on replaced. */
  ghost function Replaced<T>(s: seq<T>, j: nat, b: seq<T>): (r: seq<T>)
    requires |b| == BLOCK && j + BLOCK <= |s|
    ensures |r| == |s| && r[j..j + BLOCK] == b && r[..j] == s[..j]
    ensures forall k :: 0 <= k < |s| && !(j <= k < j + BLOCK) ==> r[k] == s[k]
  {
    s[..j] + b + s[j + BLOCK..]
  }

  lemma ReplacedIs<T>(s: seq<T>, j: nat, b: seq<T>, r: seq<T>)
    requires |b| == BLOCK && j + BLOCK <= |s| == |r|
    requires forall k :: 0 <= k < |s| ==> r[k] == if j <= k < j + BLOCK then b[k - j] else s[k]
    ensures r == Replaced(s, j, b)
  {
    var t := Replaced(s, j, b);
    forall k | 0 <= k < |s|
      ensures r[k] == t[k]
    {
      if j <= k < j + BLOCK {
        assert t[k] == t[j..j + BLOCK][k - j];
      }
    }
  }

  lemma PrefixGrows<T>(all: seq<T>, out: seq<T>, j: nat, next: seq<T>)
    requires |next| == BLOCK && j + BLOCK <= |all| <= |out| && out[..j] == all[..j] && all[j..j + BLOCK] == next
    requires j == 0 || j >= BLOCK
    ensures var after := Replaced(out, j, next);
      |after| == |out| && after[..j + BLOCK] == all[..j + BLOCK] && PrevBlock(after, j + BLOCK) == next
  {
    var after := Replaced(out, j, next);
    assert all[..j + BLOCK] == all[..j] + next;
    assert after[..j + BLOCK] == out[..j] + next;
  }

  lemma WrapAdvances<T(!new)>(c: Cipher<T>, m: seq<T>, all: seq<T>, out: seq<T>, j: nat)
    requires Lengths(c) && j < |m| && WrapProgress(c, m, all, out, j)
    ensures j + BLOCK <= |out|
    ensures WrapProgress(c, m, all, Replaced(out, j, NextOut(c, m[j..], PrevBlock(out, j))), j + BLOCK)
  {
    var next := NextOut(c, m[j..], PrevBlock(out, j));
    WrappedAt(c, m, all, j, PrevBlock(out, j));
    PrefixGrows(all, out, j, next);
  }

  lemma WrapEnds<T(!new)>(c: Cipher<T>, m: seq<T>, all: seq<T>, out: seq<T>, j: nat)
    requires Lengths(c) && |m| <= j && WrapProgress(c, m, all, out, j)
    ensures j == |all| && out[..|all|] == all
  {
    assert From(m, j) == [];
    assert |all[j..]| == 0;
  }

  /** How far unwrapping `x` has come. */
  ghost predicate UnwrapProgress<T(!new)>(c: Cipher<T>, x: seq<T>, all: seq<T>, out: seq<T>, j: nat)
    requires Lengths(c)
  {
    && j <= |all| <= |out| && j <= |x| && (j == 0 || j >= BLOCK)
    && out[..j] == all[..j]
    && all[j..] == Unwrapped(c, From(x, j), PrevBlock(x, j))
  }

  lemma FromSplit<T>(x: seq<T>, j: nat)
    requires j + BLOCK <= |x|
    ensures From(x, j) == x[j..j + BLOCK] + From(x, j + BLOCK)
  {}

  lemma UnwrappedAt<T(!new)>(c: Cipher<T>, x: seq<T>, all: seq<T>, j: nat, prev: seq<T>)
    requires Lengths(c) && IsPrev(prev) && j + BLOCK <= |x| && j <= |all| && all[j..] == Unwrapped(c, From(x, j), prev)
    ensures var b := x[j..j + BLOCK];
      && j + BLOCK <= |all| && all[j..j + BLOCK] == Chain(c, c.decrypt(b), prev)
      && all[j + BLOCK..] == Unwrapped(c, From(x, j + BLOCK), b)
  {
    var b := x[j..j + BLOCK];
    FromSplit(x, j);
    UnwrappedStep(c, b, From(x, j + BLOCK), prev);
    TailSplit(all, j, Chain(c, c.decrypt(b), prev), Unwrapped(c, From(x, j + BLOCK), b));
  }

  lemma UnwrapAdvances<T(!new)>(c: Cipher<T>, x: seq<T>, all: seq<T>, out: seq<T>, j: nat)
    requires Lengths(c) && j + BLOCK <= |x| && UnwrapProgress(c, x, all, out, j)
    ensures j + BLOCK <= |out|
    ensures UnwrapProgress(c, x, all, Replaced(out, j, Chain(c, c.decrypt(x[j..j + BLOCK]), PrevBlock(x, j))), j + BLOCK)
  {
    var next := Chain(c, c.decrypt(x[j..j + BLOCK]), PrevBlock(x, j));
    UnwrappedAt(c, x, all, j, PrevBlock(x, j));
    PrefixGrows(all, out, j, next);
  }

  lemma UnwrapEnds<T(!new)>(c: Cipher<T>, x: seq<T>, all: seq<T>, out: seq<T>, j: nat)
    requires Lengths(c) && |x| - j < BLOCK && UnwrapProgress(c, x, all, out, j)
    ensures j == |all| && out[..|all|] == all
  {
    assert |all[j..]| == 0;
  }

  // ------------------------------------------------------------------- the code

  /** The next chained block: up to eight input bytes, zero-padded, combined with the block before it in the output. */
  method ChainBlock<T(!new)>(c: Cipher<T>, input: array<T>, output: array<T>, j: nat, bytes: nat, ghost m: seq<T>)
    returns (tmp: array<T>)
    requires bytes == |m| && forall k :: j <= k < bytes <= input.Length ==> input[k] == m[k]
    requires j < bytes <= input.Length && j <= output.Length && (j > 0 ==> j >= BLOCK)
    ensures fresh(tmp) && tmp.Length == BLOCK
    ensures tmp[..] == Chain(c, FirstBlock(c, m[j..]), PrevBlock(output[..], j))
  {
    tmp := new T[BLOCK](_ => c.zero);
    var len := if bytes - j < BLOCK then bytes - j else BLOCK;
    var i := 0;
    while i < len
      invariant 0 <= i <= len
      invariant forall k :: 0 <= k < i ==>
        tmp[k] == if j == 0 then input[k] else c.xor(input[j + k], output[j - BLOCK + k])
    {
      tmp[i] := if j == 0 then input[i] else c.xor(input[j + i], output[j - BLOCK + i]);
      i := i + 1;
    }
    while i < BLOCK
      invariant len <= i <= BLOCK
      invariant forall k :: 0 <= k < i ==>
        tmp[k] == var x := if k < len then input[j + k] else c.zero; if j == 0 then x else c.xor(x, output[j - BLOCK + k])
    {
      tmp[i] := if j == 0 then c.zero else c.xor(c.zero, output[j - BLOCK + i]);
      i := i + 1;
    }
  }

  method StoreBlock<T>(output: array<T>, to: nat, b: seq<T>)
    requires |b| == BLOCK && to + BLOCK <= output.Length
    modifies output
    ensures output[..] == Replaced(old(output[..]), to, b)
    ensures forall k :: to + BLOCK <= k < output.Length ==> output[k] == old(output[k])
  {
    var i := 0;
    while i < BLOCK
      invariant 0 <= i <= BLOCK
      invariant forall k :: 0 <= k < output.Length ==> output[k] == if to <= k < to + i then b[k - to] else old(output[k])
    {
      output[to + i] := b[i];
      i := i + 1;
    }
    ReplacedIs(old(output[..]), to, b, output[..]);
  }

  /** Wraps `bytes` bytes of `input` into `output`, which may be the same array. */
  method Wrap<T(!new)>(c: Cipher<T>, input: array<T>, output: array<T>, bytes: nat)
    requires Lengths(c) && bytes <= input.Length && RoundUp(bytes) <= output.Length
    modifies output
    ensures output[..RoundUp(bytes)] == Wrapped(c, old(input[..bytes]), [])
    ensures output[RoundUp(bytes)..] == old(output[RoundUp(bytes)..])
  {
    ghost var m := input[..bytes];
    ghost var all := Wrapped(c, m, []);
    var j := 0;
    while j < bytes
      invariant 0 <= j && WrapProgress(c, m, all, output[..], j)
      invariant forall k :: j <= k < bytes ==> input[k] == m[k]
      invariant forall k :: j <= k < output.Length ==> output[k] == old(output[k])
    {
      WrapAdvances(c, m, all, output[..], j);
      var tmp := ChainBlock(c, input, output, j, bytes, m);
      StoreBlock(output, j, c.encrypt(tmp[..]));
      j := j + BLOCK;
    }
    WrapEnds(c, m, all, output[..], j);
  }

  /** Combines a decrypted block with the saved one and stores it; the first block is stored as it is. */
  method StoreChained<T>(c: Cipher<T>, tmp: seq<T>, output: array<T>, j: nat, prev: seq<T>)
    requires |tmp| == BLOCK && j + BLOCK <= output.Length && (j > 0 ==> |prev| == BLOCK)
    modifies output
    ensures output[..] == Replaced(old(output[..]), j, Chain(c, tmp, if j == 0 then [] else prev))
    ensures forall i :: j + BLOCK <= i < output.Length ==> output[i] == old(output[i])
  {
    ghost var b := Chain(c, tmp, if j == 0 then [] else prev);
    var i := 0;
    while i < BLOCK
      invariant 0 <= i <= BLOCK
      invariant forall n :: 0 <= n < output.Length ==> output[n] == if j <= n < j + i then b[n - j] else old(output[n])
    {
      output[j + i] := if j == 0 then tmp[i] else c.xor(tmp[i], prev[i]);
      i := i + 1;
    }
    ReplacedIs(old(output[..]), j, b, output[..]);
  }

  /** Reads the input block at `j`. */
  method TakeBlock<T>(input: array<T>, j: nat, ghost x: seq<T>) returns (b: seq<T>)
    requires j + BLOCK <= |x| <= input.Length && forall i :: j <= i < |x| ==> input[i] == x[i]
    ensures b == x[j..j + BLOCK]
  {
    b := input[j..j + BLOCK];
  }

  /** Decrypts the input block at `j` and stores it combined with the block before it. */
  method UnwrapBlock<T(!new)>(c: Cipher<T>, b: seq<T>, output: array<T>, j: nat, prev: seq<T>, ghost x: seq<T>, ghost all: seq<T>)
    requires Lengths(c) && UnwrapProgress(c, x, all, output[..], j) && j + BLOCK <= |x| && b == x[j..j + BLOCK]
    requires j > 0 ==> prev == PrevBlock(x, j)
    modifies output
    ensures UnwrapProgress(c, x, all, output[..], j + BLOCK)
    ensures forall i :: j + BLOCK <= i < output.Length ==> output[i] == old(output[i])
  {
    UnwrapAdvances(c, x, all, output[..], j);
    StoreChained(c, c.decrypt(b), output, j, prev);
  }

  /** The two saved blocks. */
  datatype Slots<T> = Slots(zero: seq<T>, one: seq<T>)

  function Slot<T>(s: Slots<T>, k: int): (b: seq<T>) {
    if k == 0 then s.zero else s.one
  }

  function Saved<T>(s: Slots<T>, k: int, b: seq<T>): (t: Slots<T>) {
    if k == 0 then s.(zero := b) else s.(one := b)
  }

  ghost predicate TracksAt<T(!new)>(p: (seq<T>, nat) -> bool, c: Cipher<T>, x: seq<T>, all: seq<T>, out: seq<T>, j: nat)
    requires Lengths(c)
  {
    p(out, j) <==> UnwrapProgress(c, x, all, out, j)
  }

  /** `p` says how far unwrapping `x` has come. */
  ghost predicate Tracks<T(!new)>(p: (seq<T>, nat) -> bool, c: Cipher<T>, x: seq<T>, all: seq<T>)
    requires Lengths(c)
  {
    forall out: seq<T>, j: nat :: TracksAt(p, c, x, all, out, j)
  }

  /** One round of the loop: the block at `j` is saved in slot `k`, and the other slot holds the block before it. */
  method UnwrapRound<T(!new)>(c: Cipher<T>, input: array<T>, output: array<T>, j: nat, slots: Slots<T>, k: int,
                              ghost x: seq<T>, ghost all: seq<T>, ghost p: (seq<T>, nat) -> bool)
    returns (saved: Slots<T>)
    requires Lengths(c) && Tracks(p, c, x, all) && p(output[..], j) && j + BLOCK <= |x| <= input.Length && 0 <= k < 2
    requires forall i :: j <= i < |x| ==> input[i] == x[i]
    requires j > 0 ==> j >= BLOCK && Slot(slots, 1 - k) == x[j - BLOCK..j]
    modifies output
    ensures p(output[..], j + BLOCK) && Slot(saved, k) == x[j..j + BLOCK]
    ensures forall i :: j + BLOCK <= i < output.Length ==> output[i] == old(output[i])
  {
    assert TracksAt(p, c, x, all, output[..], j);
    var b := TakeBlock(input, j, x);
    saved := Saved(slots, k, b);
    UnwrapBlock(c, b, output, j, Slot(saved, 1 - k), x, all);
    assert TracksAt(p, c, x, all, output[..], j + BLOCK);
  }

  /** The loop over the blocks. */
  method UnwrapLoop<T(!new)>(c: Cipher<T>, input: array<T>, output: array<T>, bytes: nat, ghost x: seq<T>, ghost all: seq<T>,
                             ghost p: (seq<T>, nat) -> bool)
    returns (j: nat)
    requires Lengths(c) && Tracks(p, c, x, all) && bytes == |x| <= input.Length && p(output[..], 0)
    requires forall i :: 0 <= i < bytes ==> input[i] == x[i]
    modifies output
    ensures bytes - j < BLOCK && p(output[..], j)
    ensures forall i :: j <= i < output.Length ==> output[i] == old(output[i])
  {
    var slots, k := Slots([], []), 0;
    j := 0;
    // an incomplete last block ends the loop like the end of the input
    while bytes - j >= BLOCK
      invariant 0 <= k < 2 && p(output[..], j)
      invariant forall i :: j <= i < bytes ==> input[i] == x[i]
      invariant forall i :: j <= i < output.Length ==> output[i] == old(output[i])
      invariant j > 0 ==> BLOCK <= j <= bytes && Slot(slots, 1 - k) == x[j - BLOCK..j]
    {
      slots := UnwrapRound(c, input, output, j, slots, k, x, all, p);
      k := if k == 0 then 1 else 0;
      j := j + BLOCK;
    }
  }

  /** Unwraps the whole blocks of `input` into `output`, which may be the same array. */
  method Unwrap<T(!new)>(c: Cipher<T>, input: array<T>, output: array<T>, bytes: nat)
    requires Lengths(c) && bytes <= input.Length && RoundDown(bytes) <= output.Length
    modifies output
    ensures output[..RoundDown(bytes)] == Unwrapped(c, old(input[..bytes]), [])
    ensures output[RoundDown(bytes)..] == old(output[RoundDown(bytes)..])
  {
    ghost var x := input[..bytes];
    ghost var all := Unwrapped(c, x, []);
    assert From(x, 0) == x;
    ghost var p := (out: seq<T>, j: nat) => UnwrapProgress(c, x, all, out, j);
    var j := UnwrapLoop(c, input, output, bytes, x, all, p);
    UnwrapEnds(c, x, all, output[..], j);
  }

  lemma {:induction false} RoundUpIsWhole(n: nat)
    ensures RoundDown(RoundUp(n)) == RoundUp(n)
  {
    if n > BLOCK {
      RoundUpIsWhole(n - BLOCK);
    }
  }

  /** Wrapping a buffer in place and unwrapping the whole blocks in place gives the message back, zero-padded. */
  method WrapAndUnwrapInPlace<T(!new)>(c: Cipher<T>, buffer: array<T>, bytes: nat)
    requires Lengths(c) && Inverse(c) && RoundUp(bytes) <= buffer.Length
    modifies buffer
    ensures buffer[..RoundUp(bytes)] == Padded(c, old(buffer[..bytes]))
    ensures buffer[RoundUp(bytes)..] == old(buffer[RoundUp(bytes)..])
  {
    ghost var m := buffer[..bytes];
    RoundUpIsWhole(bytes);
    Wrap(c, buffer, buffer, bytes);
    Unwrap(c, buffer, buffer, RoundUp(bytes));
    UnwrapInvertsWrap(c, m, []);
  }
}
