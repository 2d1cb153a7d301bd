/**
  The XDMCP wire format ("Data Types" of the X Display Manager Control Protocol): big-endian cards, and arrays that begin
  with their length. Writing and reading are described on byte sequences; `XdmcpBuffers` holds the code.
 */
module XdmcpCodec {

  type Byte = b: int | 0 <= b < 256

  /** The outcome of a read: a value and the position after it, or the position where the bytes ran out. */
  datatype Got<T> = Got(value: T, at: nat) | Fail(at: nat)

  // ------------------------------------------------------------------- cards

  function Power(k: nat): (n: nat)
    ensures n > 0
  {
    if k == 0 then 1 else 256 * Power(k - 1)
  }

  /** A card of `k` bytes, most significant first. */
  function Card(v: nat, k: nat): (s: seq<Byte>)
    ensures |s| == k
  {
    if k == 0 then [] else Card(v / 256, k - 1) + [v % 256]
  }

  lemma MulMonotone(d: nat, a: int, b: int)
    requires a <= b
    ensures d * a <= d * b
  {}

  lemma FactorLarge(d: nat, k: int)
    requires k != 0
    ensures d * k >= d || d + d * k <= 0
  {
    if k > 0 {
      MulMonotone(d, 1, k);
    } else {
      MulMonotone(d, k, -1);
    }
  }

  lemma QuotientIs(v: nat, d: nat, q: nat, r: nat)
    requires v == d * q + r && r < d
    ensures v / d == q
  {
    var k := v / d - q;
    assert v == d * (v / d) + v % d;
    assert d * k == d * (v / d) - d * q;
    if k != 0 {
      FactorLarge(d, k);
    }
  }

  lemma QuotientTwice(v: nat, b: nat)
    requires b > 0
    ensures v / 256 / b == v / (256 * b)
  {
    var q, s, r := v / 256 / b, v / 256 % b, v % 256;
    assert v / 256 == b * q + s;
    assert v == 256 * (b * q + s) + r == (256 * b) * q + (256 * s + r);
    assert 256 * s + r < 256 * b;
    QuotientIs(v, 256 * b, q, 256 * s + r);
  }

  /** Byte `i` of a card has weight 256 to the power of the number of bytes behind it. */
  lemma {:induction false} CardIsBigEndian(v: nat, k: nat, i: nat)
    requires i < k
    ensures Card(v, k)[i] == v / Power(k - 1 - i) % 256
    decreases k
  {
    if i < k - 1 {
      CardIsBigEndian(v / 256, k - 1, i);
      QuotientTwice(v, Power(k - 2 - i));
    }
  }

  function ReadCardFrom(s: seq<Byte>, p: nat, k: nat, value: nat): (r: Got<nat>)
    decreases k
  {
    if k == 0 then Got(value, p) else if p >= |s| then Fail(p) else ReadCardFrom(s, p + 1, k - 1, value * 256 + s[p])
  }

  function ReadCard(s: seq<Byte>, p: nat, k: nat): (r: Got<nat>) {
    ReadCardFrom(s, p, k, 0)
  }

  /** `e` stands in `s` at position `p`. */
  predicate StandsAt(s: seq<Byte>, p: nat, e: seq<Byte>) {
    p + |e| <= |s| && s[p..p + |e|] == e
  }

  lemma StandsSplit(s: seq<Byte>, p: nat, a: seq<Byte>, b: seq<Byte>)
    ensures StandsAt(s, p, a + b) <==> StandsAt(s, p, a) && StandsAt(s, p + |a|, b)
  {
    if p + |a| + |b| <= |s| {
      assert s[p..p + |a + b|] == s[p..p + |a|] + s[p + |a|..p + |a| + |b|];
      assert (a + b)[..|a|] == a && (a + b)[|a|..] == b;
      assert s[p..p + |a + b|][..|a|] == s[p..p + |a|];
      assert s[p..p + |a + b|][|a|..] == s[p + |a|..p + |a| + |b|];
    }
  }

  /** Reading appends one byte at a time, so the last byte can be read last. */
  lemma {:induction false} ReadLast(s: seq<Byte>, p: nat, k: nat, value: nat)
    requires k > 0 && p + k <= |s|
    ensures ReadCardFrom(s, p, k - 1, value).Got?
    ensures ReadCardFrom(s, p, k, value) == Got(ReadCardFrom(s, p, k - 1, value).value * 256 + s[p + k - 1], p + k)
    decreases k
  {
    if k > 1 {
      ReadLast(s, p + 1, k - 1, value * 256 + s[p]);
    }
  }

  /** Every card that fits its width is read back. */
  lemma {:induction false} CardRoundTrip(s: seq<Byte>, p: nat, v: nat, k: nat)
    requires v < Power(k) && StandsAt(s, p, Card(v, k))
    ensures ReadCard(s, p, k) == Got(v, p + k)
    decreases k
  {
    if k > 0 {
      StandsSplit(s, p, Card(v / 256, k - 1), [v % 256]);
      CardRoundTrip(s, p, v / 256, k - 1);
      assert s[p + k - 1] == s[p + k - 1..p + k][0] == v % 256;
      ReadLast(s, p, k, 0);
    }
  }

  // ------------------------------------------------------------------- repeated items

  type Reader<!T> = (seq<Byte>, nat) -> Got<T>
  type Writer<!T> = T -> seq<Byte>

  function WriteItems<T>(w: Writer<T>, items: seq<T>): (s: seq<Byte>) {
    if items == [] then [] else w(items[0]) + WriteItems(w, items[1..])
  }

  function ReadItems<T>(f: Reader<T>, s: seq<Byte>, p: nat, n: nat): (r: Got<seq<T>>)
    decreases n
  {
    if n == 0 then Got([], p)
    else match f(s, p)
      case Fail(at) => Fail(at)
      case Got(v, at) =>
        match ReadItems(f, s, at, n - 1)
        case Fail(end) => Fail(end)
        case Got(rest, end) => Got([v] + rest, end)
  }

  /** Items read earlier, in front of the outcome of reading the rest. */
  function Prepend<T>(items: seq<T>, r: Got<seq<T>>): (t: Got<seq<T>>) {
    if r.Fail? then r else Got(items + r.value, r.at)
  }

  lemma ReadItemsStep<T>(f: Reader<T>, s: seq<Byte>, p: nat, n: nat, items: seq<T>)
    requires n > 0
    ensures f(s, p).Fail? ==> Prepend(items, ReadItems(f, s, p, n)) == Fail(f(s, p).at)
    ensures f(s, p).Got? ==>
      Prepend(items, ReadItems(f, s, p, n)) == Prepend(items + [f(s, p).value], ReadItems(f, s, f(s, p).at, n - 1))
  {
    if f(s, p).Got? {
      var rest := ReadItems(f, s, f(s, p).at, n - 1);
      if rest.Got? {
        assert items + ([f(s, p).value] + rest.value) == (items + [f(s, p).value]) + rest.value;
      }
    }
  }

  lemma PrependEnds<T>(f: Reader<T>, s: seq<Byte>, p: nat, items: seq<T>, r: Got<seq<T>>)
    ensures Prepend(items, ReadItems(f, s, p, 0)) == Got(items, p) && Prepend([], r) == r
  {
    assert items + [] == items;
    if r.Got? {
      assert [] + r.value == r.value;
    }
  }

  ghost predicate InvertsAt<T>(f: Reader<T>, w: Writer<T>, v: T, s: seq<Byte>, p: nat) {
    StandsAt(s, p, w(v)) ==> f(s, p) == Got(v, p + |w(v)|)
  }

  /** Wherever a value's bytes stand, they read back as the value. */
  ghost predicate Inverts<T(!new)>(f: Reader<T>, w: Writer<T>, v: T) {
    forall s: seq<Byte>, p: nat :: InvertsAt(f, w, v, s, p)
  }

  /** Items read back one after another. */
  lemma {:induction false} ItemsRoundTrip<T(!new)>(f: Reader<T>, w: Writer<T>, s: seq<Byte>, p: nat, items: seq<T>)
    requires (forall i :: 0 <= i < |items| ==> Inverts(f, w, items[i])) && StandsAt(s, p, WriteItems(w, items))
    ensures ReadItems(f, s, p, |items|) == Got(items, p + |WriteItems(w, items)|)
    decreases |items|
  {
    if items != [] {
      var e := w(items[0]);
      StandsSplit(s, p, e, WriteItems(w, items[1..]));
      assert Inverts(f, w, items[0]) && InvertsAt(f, w, items[0], s, p);
      ItemsRoundTrip(f, w, s, p + |e|, items[1..]);
      assert items == [items[0]] + items[1..];
    }
  }

  // ------------------------------------------------------------------- items up to the end

  ghost predicate MovesAt<T>(f: Reader<T>, s: seq<Byte>, p: nat) {
    f(s, p).Got? ==> p < f(s, p).at <= |s|
  }

  ghost predicate Moves<T(!new)>(f: Reader<T>) {
    forall s: seq<Byte>, p: nat :: MovesAt(f, s, p)
  }

  /** All items from a position on, up to the first that cannot be read. */
  ghost function ReadUntil<T(!new)>(f: Reader<T>, s: seq<Byte>, p: nat): (items: seq<T>)
    requires Moves(f)
    decreases |s| - p
  {
    assert MovesAt(f, s, p);
    if f(s, p).Fail? then [] else [f(s, p).value] + ReadUntil(f, s, f(s, p).at)
  }

  lemma UntilStep<T(!new)>(f: Reader<T>, w: Writer<T>, s: seq<Byte>, p: nat, v: T, rest: seq<Byte>)
    requires Moves(f) && Inverts(f, w, v) && StandsAt(s, p, w(v) + rest)
    ensures StandsAt(s, p + |w(v)|, rest) && ReadUntil(f, s, p) == [v] + ReadUntil(f, s, p + |w(v)|)
  {
    StandsSplit(s, p, w(v), rest);
    assert InvertsAt(f, w, v, s, p) && MovesAt(f, s, p);
  }

  lemma Consing<T>(items: seq<T>, all: seq<T>, tail: seq<T>, rest: seq<T>)
    requires items != [] && all == [items[0]] + tail && tail == items[1..] + rest
    ensures all == items + rest
  {}

  /** Any concatenation of written items reads back as those items in order; what follows is read after them. */
  lemma {:induction false} UntilRoundTrip<T(!new)>(f: Reader<T>, w: Writer<T>, s: seq<Byte>, p: nat, items: seq<T>)
    requires Moves(f) && (forall i :: 0 <= i < |items| ==> Inverts(f, w, items[i])) && StandsAt(s, p, WriteItems(w, items))
    ensures ReadUntil(f, s, p) == items + ReadUntil(f, s, p + |WriteItems(w, items)|)
    decreases |items|
  {
    if items != [] {
      UntilStep(f, w, s, p, items[0], WriteItems(w, items[1..]));
      UntilRoundTrip(f, w, s, p + |w(items[0])|, items[1..]);
      Consing(items, ReadUntil(f, s, p), ReadUntil(f, s, p + |w(items[0])|), ReadUntil(f, s, p + |WriteItems(w, items)|));
    }
  }

  // ------------------------------------------------------------------- arrays

  function WriteArray<T>(w: Writer<T>, lengthWidth: nat, items: seq<T>): (s: seq<Byte>) {
    Card(|items|, lengthWidth) + WriteItems(w, items)
  }

  function ReadArray<T>(f: Reader<T>, lengthWidth: nat, s: seq<Byte>, p: nat): (r: Got<seq<T>>) {
    match ReadCard(s, p, lengthWidth)
    case Fail(at) => Fail(at)
    case Got(n, at) => ReadItems(f, s, at, n)
  }

  lemma ArrayRoundTrip<T(!new)>(f: Reader<T>, w: Writer<T>, lengthWidth: nat, s: seq<Byte>, p: nat, items: seq<T>)
    requires |items| < Power(lengthWidth) && forall i :: 0 <= i < |items| ==> Inverts(f, w, items[i])
    requires StandsAt(s, p, WriteArray(w, lengthWidth, items))
    ensures ReadArray(f, lengthWidth, s, p) == Got(items, p + |WriteArray(w, lengthWidth, items)|)
  {
    StandsSplit(s, p, Card(|items|, lengthWidth), WriteItems(w, items));
    CardRoundTrip(s, p, |items|, lengthWidth);
    ItemsRoundTrip(f, w, s, p + lengthWidth, items);
  }

  function CardWriter(k: nat): (w: Writer<nat>) {
    (v: nat) => Card(v, k)
  }

  function CardReader(k: nat): (f: Reader<nat>) {
    (s: seq<Byte>, p: nat) => ReadCard(s, p, k)
  }

  lemma CardInverts(k: nat, v: nat)
    requires v < Power(k)
    ensures Inverts(CardReader(k), CardWriter(k), v)
  {
    forall s: seq<Byte>, p: nat
      ensures InvertsAt(CardReader(k), CardWriter(k), v, s, p)
    {
      if StandsAt(s, p, Card(v, k)) {
        CardRoundTrip(s, p, v, k);
      }
    }
  }

  /** ARRAY8, ARRAY16 and ARRAY32: cards of one width behind a length of another. */
  function WriteCards(lengthWidth: nat, width: nat, items: seq<nat>): (s: seq<Byte>) {
    WriteArray(CardWriter(width), lengthWidth, items)
  }

  function ReadCards(lengthWidth: nat, width: nat, s: seq<Byte>, p: nat): (r: Got<seq<nat>>) {
    ReadArray(CardReader(width), lengthWidth, s, p)
  }

  /** An array value of the given widths. */
  predicate IsCards(lengthWidth: nat, width: nat, items: seq<nat>) {
    |items| < Power(lengthWidth) && forall i :: 0 <= i < |items| ==> items[i] < Power(width)
  }

  lemma CardsRoundTrip(lengthWidth: nat, width: nat, s: seq<Byte>, p: nat, items: seq<nat>)
    requires IsCards(lengthWidth, width, items) && StandsAt(s, p, WriteCards(lengthWidth, width, items))
    ensures ReadCards(lengthWidth, width, s, p) == Got(items, p + |WriteCards(lengthWidth, width, items)|)
  {
    forall i | 0 <= i < |items|
      ensures Inverts(CardReader(width), CardWriter(width), items[i])
    {
      CardInverts(width, items[i]);
    }
    ArrayRoundTrip(CardReader(width), CardWriter(width), lengthWidth, s, p, items);
  }

  function Array8Writer(): (w: Writer<seq<nat>>) {
    (a: seq<nat>) => WriteCards(2, 1, a)
  }

  function Array8Reader(): (f: Reader<seq<nat>>) {
    (s: seq<Byte>, p: nat) => ReadCards(2, 1, s, p)
  }

  lemma Array8Inverts(a: seq<nat>)
    requires IsCards(2, 1, a)
    ensures Inverts(Array8Reader(), Array8Writer(), a)
  {
    forall s: seq<Byte>, p: nat
      ensures InvertsAt(Array8Reader(), Array8Writer(), a, s, p)
    {
      if StandsAt(s, p, WriteCards(2, 1, a)) {
        CardsRoundTrip(2, 1, s, p, a);
      }
    }
  }

  /** ARRAYofARRAY8. */
  function WriteArrays(items: seq<seq<nat>>): (s: seq<Byte>) {
    WriteArray(Array8Writer(), 1, items)
  }

  function ReadArrays(s: seq<Byte>, p: nat): (r: Got<seq<seq<nat>>>) {
    ReadArray(Array8Reader(), 1, s, p)
  }

  lemma ArraysRoundTrip(s: seq<Byte>, p: nat, items: seq<seq<nat>>)
    requires |items| < Power(1) && (forall i :: 0 <= i < |items| ==> IsCards(2, 1, items[i]))
    requires StandsAt(s, p, WriteArrays(items))
    ensures ReadArrays(s, p) == Got(items, p + |WriteArrays(items)|)
  {
    forall i | 0 <= i < |items|
      ensures Inverts(Array8Reader(), Array8Writer(), items[i])
    {
      Array8Inverts(items[i]);
    }
    ArrayRoundTrip(Array8Reader(), Array8Writer(), 1, s, p, items);
  }

  // ------------------------------------------------------------------- headers

  datatype Header = Header(version: nat, opcode: nat, length: nat)

  function WriteHeader(h: Header): (s: seq<Byte>)
    ensures |s| == 6
  {
    Card(h.version, 2) + (Card(h.opcode, 2) + Card(h.length, 2))
  }

  function ReadHeader(s: seq<Byte>, p: nat): (r: Got<Header>) {
    match ReadCard(s, p, 2)
    case Fail(at) => Fail(at)
    case Got(version, p1) =>
      match ReadCard(s, p1, 2)
      case Fail(at) => Fail(at)
      case Got(opcode, p2) =>
        match ReadCard(s, p2, 2)
        case Fail(at) => Fail(at)
        case Got(length, p3) => Got(Header(version, opcode, length), p3)
  }

  lemma HeaderRoundTrip(s: seq<Byte>, p: nat, h: Header)
    requires h.version < Power(2) && h.opcode < Power(2) && h.length < Power(2) && StandsAt(s, p, WriteHeader(h))
    ensures ReadHeader(s, p) == Got(h, p + 6)
  {
    StandsSplit(s, p, Card(h.version, 2), Card(h.opcode, 2) + Card(h.length, 2));
    StandsSplit(s, p + 2, Card(h.opcode, 2), Card(h.length, 2));
    CardRoundTrip(s, p, h.version, 2);
    CardRoundTrip(s, p + 2, h.opcode, 2);
    CardRoundTrip(s, p + 4, h.length, 2);
  }

  // ------------------------------------------------------------------- layouts

  /** A card of two bytes, the upper one first. */
  lemma TwoBytes(v: nat)
    ensures Card(v, 2) == [v / 256 % 256, v % 256]
  {
    assert Card(v / 256, 1) == Card(v / 256 / 256, 0) + [v / 256 % 256] == [v / 256 % 256];
  }

  /** A header on the wire: version, opcode and length, each with its upper byte first. */
  lemma HeaderBytes(h: Header)
    ensures WriteHeader(h) == [h.version / 256 % 256, h.version % 256, h.opcode / 256 % 256, h.opcode % 256,
                               h.length / 256 % 256, h.length % 256]
  {
    TwoBytes(h.version);
    TwoBytes(h.opcode);
    TwoBytes(h.length);
  }

  lemma SliceBehind(first: seq<Byte>, rest: seq<Byte>, at: nat, n: nat)
    requires at + n <= |rest|
    ensures (first + rest)[|first| + at..|first| + at + n] == rest[at..at + n]
  {}

  lemma OneMore(n: nat, width: nat)
    ensures (n + 1) * width == width + n * width
  {}

  lemma {:induction false} ItemsLength<T>(w: Writer<T>, width: nat, items: seq<T>)
    requires forall v <- items :: |w(v)| == width
    ensures |WriteItems(w, items)| == |items| * width
    decreases |items|
  {
    if items != [] {
      var rest := items[1..];
      ItemsLength(w, width, rest);
      OneMore(|rest|, width);
      assert |w(items[0])| == width;
    }
  }

  lemma {:induction false} ItemStands<T>(w: Writer<T>, width: nat, items: seq<T>, k: nat)
    requires k < |items| && forall v <- items :: |w(v)| == width
    ensures StandsAt(WriteItems(w, items), k * width, w(items[k]))
    decreases k
  {
    var first, rest := w(items[0]), WriteItems(w, items[1..]);
    if k == 0 {
      assert (first + rest)[..width] == first;
    } else {
      ItemStands(w, width, items[1..], k - 1);
      OneMore(k - 1, width);
      SliceBehind(first, rest, (k - 1) * width, width);
    }
  }

  /** An array on the wire: its length first, then item k at k times the item width. */
  lemma CardsLayout(lengthWidth: nat, width: nat, items: seq<nat>, k: nat)
    requires k < |items|
    ensures var s, at := WriteCards(lengthWidth, width, items), lengthWidth + k * width;
      && at + width <= |s| == lengthWidth + |items| * width
      && s[..lengthWidth] == Card(|items|, lengthWidth) && s[at..at + width] == Card(items[k], width)
  {
    var head, tail := Card(|items|, lengthWidth), WriteItems(CardWriter(width), items);
    ItemsLength(CardWriter(width), width, items);
    ItemStands(CardWriter(width), width, items, k);
    SliceBehind(head, tail, k * width, width);
  }

  // ------------------------------------------------------------------- bounded writing

  /** How many of `n` bytes fit from position `p` on. */
  function Fitting(size: nat, p: nat, n: nat): (r: nat)
    ensures r <= n && (r > 0 ==> p + r <= size)
  {
    if p + n <= size then n else if p < size then size - p else 0
  }

  predicate Fits(size: nat, p: nat, n: nat) {
    n == 0 || p + n <= size
  }

  /** The buffer after writing as many of the bytes as fit. */
  function Written(s: seq<Byte>, p: nat, e: seq<Byte>): (r: seq<Byte>)
    ensures |r| == |s|
  {
    var n := Fitting(|s|, p, |e|);
    if n == 0 then s else s[..p] + e[..n] + s[p + n..]
  }

  /** Writing two pieces in turn, the second only if the first fitted, is writing them together. */
  lemma WrittenTwice(s: seq<Byte>, p: nat, a: seq<Byte>, b: seq<Byte>)
    ensures Fits(|s|, p, |a|) ==> Written(s, p, a + b) == Written(Written(s, p, a), p + |a|, b)
    ensures Fits(|s|, p, |a|) ==> Fitting(|s|, p, |a + b|) == |a| + Fitting(|s|, p + |a|, |b|)
    ensures Fits(|s|, p, |a|) ==> (Fits(|s|, p, |a + b|) <==> Fits(|s|, p + |a|, |b|))
    ensures !Fits(|s|, p, |a|) ==> Written(s, p, a + b) == Written(s, p, a) && !Fits(|s|, p, |a + b|)
    ensures !Fits(|s|, p, |a|) ==> Fitting(|s|, p, |a + b|) == Fitting(|s|, p, |a|)
  {
    if Fits(|s|, p, |a|) {
      WrittenBoth(s, p, a, b);
    } else {
      var n := Fitting(|s|, p, |a|);
      assert (a + b)[..n] == a[..n];
    }
  }

  lemma WrittenBoth(s: seq<Byte>, p: nat, a: seq<Byte>, b: seq<Byte>)
    requires Fits(|s|, p, |a|)
    ensures Written(s, p, a + b) == Written(Written(s, p, a), p + |a|, b)
  {
    var r, t := Written(s, p, a + b), Written(Written(s, p, a), p + |a|, b);
    forall i | 0 <= i < |s|
      ensures r[i] == t[i]
    {
      WrittenAt(s, p, a + b, i);
      WrittenAt(s, p, a, i);
      WrittenAt(Written(s, p, a), p + |a|, b, i);
    }
  }

  lemma WrittenAt(s: seq<Byte>, p: nat, e: seq<Byte>, i: nat)
    requires i < |s|
    ensures Written(s, p, e)[i] == if p <= i < p + Fitting(|s|, p, |e|) then e[i - p] else s[i]
  {}

  /** What was written stands in the buffer. */
  lemma WrittenStands(s: seq<Byte>, p: nat, e: seq<Byte>)
    requires p <= |s| && Fits(|s|, p, |e|)
    ensures StandsAt(Written(s, p, e), p, e)
  {}

  /** A buffer being written: its bytes and the position. */
  datatype Out = Out(bytes: seq<Byte>, at: nat)

  predicate CanPut(o: Out, e: seq<Byte>) {
    Fits(|o.bytes|, o.at, |e|)
  }

  function Put(o: Out, e: seq<Byte>): (r: Out) {
    Out(Written(o.bytes, o.at, e), o.at + Fitting(|o.bytes|, o.at, |e|))
  }

  lemma PutTwice(o: Out, a: seq<Byte>, b: seq<Byte>)
    ensures CanPut(o, a) ==> Put(o, a + b) == Put(Put(o, a), b) && CanPut(o, a + b) == CanPut(Put(o, a), b)
    ensures !CanPut(o, a) ==> Put(o, a + b) == Put(o, a) && !CanPut(o, a + b)
  {
    WrittenTwice(o.bytes, o.at, a, b);
  }

  /** A successful write can be read back: the bytes stand where the position was, and the position is behind them. */
  lemma PutStands(o: Out, e: seq<Byte>)
    requires o.at <= |o.bytes| && CanPut(o, e)
    ensures StandsAt(Put(o, e).bytes, o.at, e) && Put(o, e).at == o.at + |e|
  {
    WrittenStands(o.bytes, o.at, e);
  }

  lemma ItemsStep<T>(w: Writer<T>, items: seq<T>, i: nat)
    requires i < |items|
    ensures WriteItems(w, items[i..]) == w(items[i]) + WriteItems(w, items[i + 1..])
  {
    assert items[i..][1..] == items[i + 1..];
  }
}
