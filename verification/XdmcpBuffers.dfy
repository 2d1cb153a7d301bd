/**
  The read and write functions over a buffer with a size, a fill count and a current position.
 */
module XdmcpBuffers {
  import opened XdmcpCodec

  const MAX_MESSAGE: nat := 8192

  /** An array's data pointer after a read. */
  datatype Arr<T> = Null | Data(items: seq<T>)

  function Items<T>(a: Arr<T>): (s: seq<T>) {
    if a.Null? then [] else a.items
  }

  class Buffer {
    var data: array<Byte>
    var count: nat
    var pointer: nat

    ghost predicate Ok()
      reads this
    {
      count <= data.Length
    }

    /** The bytes a read may see. */
    ghost function Seen(): (s: seq<Byte>)
      requires Ok()
      reads this, data
    {
      data[..count]
    }

    constructor (size: nat)
      ensures Ok() && fresh(data) && data.Length == size && count == 0 && pointer == 0
    {
      data := new Byte[size](_ => 0);
      count, pointer := 0, 0;
    }

    // ----------------------------------------------------------------- writing

    ghost function Now(): (o: Out)
      reads this, data
    {
      Out(data[..], pointer)
    }

    /** As many of the bytes as fit were stored at the position, which moved past them. */
    twostate predicate Wrote(e: seq<Byte>, ok: bool)
      reads this, data
    {
      && data == old(data) && count == old(count)
      && Now() == Put(old(Now()), e) && (ok <==> CanPut(old(Now()), e))
    }

    method WriteCard8(v: nat) returns (ok: bool)
      modifies this, data
      ensures Wrote(Card(v, 1), ok)
    {
      assert Card(v, 1) == [v % 256];
      if pointer >= data.Length { return false; }
      data[pointer] := v % 256;
      pointer := pointer + 1;
      ok := true;
    }

    method WriteCard16(v: nat) returns (ok: bool)
      modifies this, data
      ensures Wrote(Card(v, 2), ok)
    {
      PutTwice(Now(), Card(v / 256, 1), [v % 256]);
      ok := WriteCard8(v / 256);
      if !ok { return; }
      assert Card(v, 1) == [v % 256];
      ok := WriteCard8(v);
    }

    method WriteCard32(v: nat) returns (ok: bool)
      modifies this, data
      ensures Wrote(Card(v, 4), ok)
    {
      var high := v / 256 / 256;
      assert Card(v, 4) == Card(high, 2) + Card(v, 2);
      PutTwice(Now(), Card(high, 2), Card(v, 2));
      ok := WriteCard16(high);
      if !ok { return; }
      ok := WriteCard16(v);
    }

    method WriteCard(v: nat, width: nat) returns (ok: bool)
      requires width == 1 || width == 2 || width == 4
      modifies this, data
      ensures Wrote(Card(v, width), ok)
    {
      if width == 1 {
        ok := WriteCard8(v);
      } else if width == 2 {
        ok := WriteCard16(v);
      } else {
        ok := WriteCard32(v);
      }
    }

    method WriteCardItem(ghost w: Writer<nat>, width: nat, v: nat) returns (ok: bool)
      requires (width == 1 || width == 2 || width == 4) && WritesCards(w, width)
      modifies this, data
      ensures Wrote(w(v), ok)
    {
      assert WritesCardAt(w, width, v);
      ok := WriteCard(v, width);
    }

    /** The loop over an array of cards. */
    method WriteCardItems(ghost w: Writer<nat>, width: nat, items: seq<nat>) returns (ok: bool)
      requires (width == 1 || width == 2 || width == 4) && WritesCards(w, width)
      modifies this, data
      ensures Wrote(WriteItems(w, items), ok)
    {
      ghost var start := Now();
      assert items[0..] == items;
      var i := 0;
      while i < |items|
        invariant 0 <= i <= |items| && data == old(data) && count == old(count)
        invariant Put(Now(), WriteItems(w, items[i..])) == Put(start, WriteItems(w, items))
        invariant CanPut(Now(), WriteItems(w, items[i..])) == CanPut(start, WriteItems(w, items))
      {
        ItemsStep(w, items, i);
        PutTwice(Now(), w(items[i]), WriteItems(w, items[i + 1..]));
        ok := WriteCardItem(w, width, items[i]);
        if !ok { return; }
        i := i + 1;
      }
      ok := true;
    }

    /** ARRAY8, ARRAY16 and ARRAY32. */
    method WriteCards(lengthWidth: nat, width: nat, items: seq<nat>) returns (ok: bool)
      requires (width == 1 || width == 2 || width == 4) && (lengthWidth == 1 || lengthWidth == 2)
      modifies this, data
      ensures Wrote(XdmcpCodec.WriteCards(lengthWidth, width, items), ok)
    {
      ghost var w := CardWriter(width);
      CardWriterWrites(width);
      PutTwice(Now(), Card(|items|, lengthWidth), WriteItems(w, items));
      ok := WriteCard(|items|, lengthWidth);
      if !ok { return; }
      ok := WriteCardItems(w, width, items);
    }

    method WriteArrayItem(ghost w: Writer<seq<nat>>, v: seq<nat>) returns (ok: bool)
      requires WritesArrays(w)
      modifies this, data
      ensures Wrote(w(v), ok)
    {
      assert WritesArrayAt(w, v);
      ok := WriteCards(2, 1, v);
    }

    /** The loop over an array of arrays. */
    method WriteArrayItems(ghost w: Writer<seq<nat>>, items: seq<seq<nat>>) returns (ok: bool)
      requires WritesArrays(w)
      modifies this, data
      ensures Wrote(WriteItems(w, items), ok)
    {
      ghost var start := Now();
      assert items[0..] == items;
      var i := 0;
      while i < |items|
        invariant 0 <= i <= |items| && data == old(data) && count == old(count)
        invariant Put(Now(), WriteItems(w, items[i..])) == Put(start, WriteItems(w, items))
        invariant CanPut(Now(), WriteItems(w, items[i..])) == CanPut(start, WriteItems(w, items))
      {
        ItemsStep(w, items, i);
        PutTwice(Now(), w(items[i]), WriteItems(w, items[i + 1..]));
        ok := WriteArrayItem(w, items[i]);
        if !ok { return; }
        i := i + 1;
      }
      ok := true;
    }

    /** ARRAYofARRAY8. */
    method WriteArrays(items: seq<seq<nat>>) returns (ok: bool)
      modifies this, data
      ensures Wrote(XdmcpCodec.WriteArrays(items), ok)
    {
      ghost var w := Array8Writer();
      Array8WriterWrites();
      PutTwice(Now(), Card(|items|, 1), WriteItems(w, items));
      ok := WriteCard8(|items|);
      if !ok { return; }
      ok := WriteArrayItems(w, items);
    }

    /** Starts a message; a buffer too small for it is replaced by one of the largest message size. */
    method WriteHeader(h: Header, mem: bool) returns (ok: bool)
      modifies this, data
      ensures ok <==> mem || old(data.Length) >= 6 + h.length
      ensures ok ==> pointer == 6 && StandsAt(data[..], 0, XdmcpCodec.WriteHeader(h))
      ensures ok ==> data.Length == if old(data.Length) < 6 + h.length then MAX_MESSAGE else old(data.Length)
      ensures data == old(data) || (fresh(data) && data.Length == MAX_MESSAGE)
      ensures !ok ==> data == old(data) && data[..] == old(data[..]) && pointer == old(pointer)
      ensures count == old(count)
    {
      if data.Length < 6 + h.length {
        if !mem { return false; }
        data := new Byte[MAX_MESSAGE](_ => 0);
      }
      pointer := 0;
      ghost var start := Now();
      ghost var tail := Card(h.opcode, 2) + Card(h.length, 2);
      PutTwice(start, Card(h.version, 2), tail);
      PutTwice(Put(start, Card(h.version, 2)), Card(h.opcode, 2), Card(h.length, 2));
      PutStands(start, XdmcpCodec.WriteHeader(h));
      ok := WriteCard16(h.version);
      ok := WriteCard16(h.opcode);
      ok := WriteCard16(h.length);
    }

    // ----------------------------------------------------------------- reading

    /** The position moved to where the described read ends; nothing else changed. */
    twostate predicate ReadTo<T>(new r: Got<T>)
      requires Ok()
      reads this, data
    {
      data == old(data) && count == old(count) && data[..] == old(data[..]) && pointer == r.at
    }

    method ReadCard8() returns (ok: bool, v: nat)
      requires Ok()
      modifies this`pointer
      ensures Ok() && ReadTo(ReadCard(Seen(), old(pointer), 1)) && (pointer <= old(pointer) || pointer <= count)
      ensures ok <==> ReadCard(Seen(), old(pointer), 1).Got?
      ensures ok ==> ReadCard(Seen(), old(pointer), 1).value == v < 256
    {
      if pointer >= count { return false, 0; }
      ok, v := true, data[pointer];
      pointer := pointer + 1;
    }

    method ReadCard16() returns (ok: bool, v: nat)
      requires Ok()
      modifies this`pointer
      ensures Ok() && ReadTo(ReadCard(Seen(), old(pointer), 2)) && (pointer <= old(pointer) || pointer <= count)
      ensures ok <==> ReadCard(Seen(), old(pointer), 2).Got?
      ensures ok ==> ReadCard(Seen(), old(pointer), 2).value == v
    {
      var high, low;
      ok, high := ReadCard8();
      if !ok { return false, 0; }
      ok, low := ReadCard8();
      v := high * 256 + low;
    }

    method ReadCard32() returns (ok: bool, v: nat)
      requires Ok()
      modifies this`pointer
      ensures Ok() && ReadTo(ReadCard(Seen(), old(pointer), 4)) && (pointer <= old(pointer) || pointer <= count)
      ensures ok <==> ReadCard(Seen(), old(pointer), 4).Got?
      ensures ok ==> ReadCard(Seen(), old(pointer), 4).value == v
    {
      ReadCardSplit(Seen(), pointer, 2, 2, 0);
      assert Power(2) == 256 * Power(1) == 65536;
      var high, low;
      ok, high := ReadCard16();
      if !ok { return false, 0; }
      ok, low := ReadCard16();
      v := high * 65536 + low;
    }

    method ReadCardOf(width: nat) returns (ok: bool, v: nat)
      requires Ok() && (width == 1 || width == 2 || width == 4)
      modifies this`pointer
      ensures Ok() && ReadTo(ReadCard(Seen(), old(pointer), width)) && (pointer <= old(pointer) || pointer <= count)
      ensures ok <==> ReadCard(Seen(), old(pointer), width).Got?
      ensures ok ==> ReadCard(Seen(), old(pointer), width).value == v
    {
      if width == 1 {
        ok, v := ReadCard8();
      } else if width == 2 {
        ok, v := ReadCard16();
      } else {
        ok, v := ReadCard32();
      }
    }

    method ReadCardItem(ghost f: Reader<nat>, width: nat) returns (ok: bool, v: nat)
      requires Ok() && (width == 1 || width == 2 || width == 4) && ReadsCards(f, width)
      modifies this`pointer
      ensures Ok() && ReadTo(f(Seen(), old(pointer))) && (pointer <= old(pointer) || pointer <= count)
      ensures ok <==> f(Seen(), old(pointer)).Got?
      ensures ok ==> f(Seen(), old(pointer)).value == v
    {
      assert ReadsCardAt(f, width, Seen(), pointer);
      ok, v := ReadCardOf(width);
    }

    /** The loop that fills an array of cards. */
    method ReadCardItems(ghost f: Reader<nat>, width: nat, n: nat) returns (ok: bool, items: seq<nat>)
      requires Ok() && (width == 1 || width == 2 || width == 4) && ReadsCards(f, width)
      modifies this`pointer
      ensures Ok() && (pointer <= old(pointer) || pointer <= count)
      ensures ReadTo(ReadItems(f, Seen(), old(pointer), n))
      ensures ok <==> ReadItems(f, Seen(), old(pointer), n).Got?
      ensures ok ==> ReadItems(f, Seen(), old(pointer), n).value == items && |items| == n
    {
      ghost var s := Seen();
      ghost var all := ReadItems(f, s, pointer, n);
      items := [];
      PrependEnds(f, s, pointer, items, all);
      while |items| < n
        invariant Ok() && Seen() == s && |items| <= n && (pointer <= old(pointer) || pointer <= count)
        invariant Prepend(items, ReadItems(f, s, pointer, n - |items|)) == all
      {
        ReadItemsStep(f, s, pointer, n - |items|, items);
        var v;
        ok, v := ReadCardItem(f, width);
        if !ok { return; }
        items := items + [v];
      }
      PrependEnds(f, s, pointer, items, all);
      ok := true;
    }

    /** ARRAY8, ARRAY16 and ARRAY32; `mem` is the allocation's success. A failed read leaves the data pointer null. */
    method ReadCards(lengthWidth: nat, width: nat, mem: bool) returns (ok: bool, array_: Arr<nat>)
      requires Ok() && (width == 1 || width == 2 || width == 4) && (lengthWidth == 1 || lengthWidth == 2)
      modifies this`pointer
      ensures Ok() && (pointer <= old(pointer) || pointer <= count)
      ensures !ok ==> array_.Null?
      ensures ok ==> array_.Null? == (Items(array_) == [])
      ensures ok ==> XdmcpCodec.ReadCards(lengthWidth, width, Seen(), old(pointer)) == Got(Items(array_), pointer)
      ensures mem ==> ReadTo(XdmcpCodec.ReadCards(lengthWidth, width, Seen(), old(pointer)))
      ensures mem ==> (ok <==> XdmcpCodec.ReadCards(lengthWidth, width, Seen(), old(pointer)).Got?)
    {
      var n, items;
      ok, n := ReadCardOf(lengthWidth);
      if !ok || n == 0 { return ok, Null; }
      if !mem { return false, Null; }
      CardReaderReads(width);
      ok, items := ReadCardItems(CardReader(width), width, n);
      return ok, if ok then Data(items) else Null;
    }

    method ReadArrayItem(ghost f: Reader<seq<nat>>, mem: bool) returns (ok: bool, v: seq<nat>)
      requires Ok() && ReadsArrays(f)
      modifies this`pointer
      ensures Ok() && (pointer <= old(pointer) || pointer <= count)
      ensures ok ==> f(Seen(), old(pointer)) == Got(v, pointer)
      ensures mem ==> ReadTo(f(Seen(), old(pointer))) && (ok <==> f(Seen(), old(pointer)).Got?)
    {
      assert ReadsArrayAt(f, Seen(), pointer);
      var array_;
      ok, array_ := ReadCards(2, 1, mem);
      v := Items(array_);
    }

    /** The loop that fills an array of arrays. */
    method ReadArrayItems(ghost f: Reader<seq<nat>>, n: nat, memOf: nat -> bool) returns (ok: bool, items: seq<seq<nat>>)
      requires Ok() && ReadsArrays(f)
      modifies this`pointer
      ensures Ok() && (pointer <= old(pointer) || pointer <= count)
      ensures ok ==> ReadItems(f, Seen(), old(pointer), n) == Got(items, pointer) && |items| == n
      ensures (forall i :: memOf(i)) ==> ReadTo(ReadItems(f, Seen(), old(pointer), n))
      ensures (forall i :: memOf(i)) ==> (ok <==> ReadItems(f, Seen(), old(pointer), n).Got?)
    {
      ghost var s := Seen();
      ghost var all := ReadItems(f, s, pointer, n);
      items := [];
      PrependEnds(f, s, pointer, items, all);
      while |items| < n
        invariant Ok() && Seen() == s && |items| <= n && (pointer <= old(pointer) || pointer <= count)
        invariant Prepend(items, ReadItems(f, s, pointer, n - |items|)) == all
      {
        ReadItemsStep(f, s, pointer, n - |items|, items);
        var v;
        ok, v := ReadArrayItem(f, memOf(|items|));
        if !ok { return; }
        items := items + [v];
      }
      PrependEnds(f, s, pointer, items, all);
      ok := true;
    }

    /** ARRAYofARRAY8; `memOf` is the success of the allocation for each element. */
    method ReadArrays(mem: bool, memOf: nat -> bool) returns (ok: bool, array_: Arr<seq<nat>>)
      requires Ok()
      modifies this`pointer
      ensures Ok() && (pointer <= old(pointer) || pointer <= count)
      ensures !ok ==> array_.Null?
      ensures ok ==> array_.Null? == (Items(array_) == [])
      ensures ok ==> XdmcpCodec.ReadArrays(Seen(), old(pointer)) == Got(Items(array_), pointer)
      ensures mem && (forall i :: memOf(i)) ==> ReadTo(XdmcpCodec.ReadArrays(Seen(), old(pointer)))
      ensures mem && (forall i :: memOf(i)) ==> (ok <==> XdmcpCodec.ReadArrays(Seen(), old(pointer)).Got?)
    {
      var n, items;
      ok, n := ReadCard8();
      if !ok || n == 0 { return ok, Null; }
      if !mem { return false, Null; }
      Array8ReaderReads();
      ok, items := ReadArrayItems(Array8Reader(), n, memOf);
      return ok, if ok then Data(items) else Null;
    }

    method ReadHeader() returns (ok: bool, h: Header)
      requires Ok()
      modifies this`pointer
      ensures Ok() && ReadTo(XdmcpCodec.ReadHeader(Seen(), old(pointer)))
      ensures ok <==> XdmcpCodec.ReadHeader(Seen(), old(pointer)).Got?
      ensures ok ==> XdmcpCodec.ReadHeader(Seen(), old(pointer)).value == h
    {
      h := Header(0, 0, 0);
      var version, opcode, length;
      ok, version := ReadCard16();
      if !ok { return; }
      ok, opcode := ReadCard16();
      if !ok { return; }
      ok, length := ReadCard16();
      h := Header(version, opcode, length);
    }
  }

  // ------------------------------------------------------------------- there and back

  lemma StandsBelow(s: seq<Byte>, p: nat, e: seq<Byte>, n: nat)
    requires StandsAt(s, p, e) && p + |e| <= n <= |s|
    ensures StandsAt(s[..n], p, e)
  {
    assert s[..n][p..p + |e|] == s[p..p + |e|];
  }

  /** The bytes just written are all a reader sees from the old position on. */
  method Rewind(b: Buffer, start: nat, ghost e: seq<Byte>)
    requires StandsAt(b.data[..], start, e) && b.pointer == start + |e|
    modifies b
    ensures b.Ok() && b.data == old(b.data) && b.pointer == start && b.count == start + |e|
    ensures StandsAt(b.Seen(), start, e)
  {
    StandsBelow(b.data[..], start, e, b.pointer);
    b.count := b.pointer;
    b.pointer := start;
    assert b.Seen() == b.data[..][..b.count];
  }

  /** Cards that could be written read back the same, and the reader ends where the writer did. */
  method CardsComeBack(b: Buffer, lengthWidth: nat, width: nat, items: seq<nat>) returns (ok: bool, back: seq<nat>)
    requires (width == 1 || width == 2 || width == 4) && (lengthWidth == 1 || lengthWidth == 2)
    requires IsCards(lengthWidth, width, items)
    modifies b, b.data
    ensures ok <==> CanPut(old(b.Now()), XdmcpCodec.WriteCards(lengthWidth, width, items))
    ensures ok ==> back == items && b.pointer == old(b.pointer) + |XdmcpCodec.WriteCards(lengthWidth, width, items)|
  {
    var start := b.pointer;
    ghost var e := XdmcpCodec.WriteCards(lengthWidth, width, items);
    ok := b.WriteCards(lengthWidth, width, items);
    if !ok { return false, []; }
    PutStands(old(b.Now()), e);
    Rewind(b, start, e);
    CardsRoundTrip(lengthWidth, width, b.Seen(), start, items);
    var array_;
    ok, array_ := b.ReadCards(lengthWidth, width, true);
    back := Items(array_);
  }

  /** The same for arrays of arrays. */
  method ArraysComeBack(b: Buffer, items: seq<seq<nat>>) returns (ok: bool, back: seq<seq<nat>>)
    requires |items| < Power(1) && forall i :: 0 <= i < |items| ==> IsCards(2, 1, items[i])
    modifies b, b.data
    ensures ok <==> CanPut(old(b.Now()), XdmcpCodec.WriteArrays(items))
    ensures ok ==> back == items && b.pointer == old(b.pointer) + |XdmcpCodec.WriteArrays(items)|
  {
    var start := b.pointer;
    ghost var e := XdmcpCodec.WriteArrays(items);
    ok := b.WriteArrays(items);
    if !ok { return false, []; }
    PutStands(old(b.Now()), e);
    Rewind(b, start, e);
    ArraysRoundTrip(b.Seen(), start, items);
    var array_;
    ok, array_ := b.ReadArrays(true, _ => true);
    back := Items(array_);
  }

  /** The same for headers, also in a buffer that had to be replaced. */
  method HeaderComesBack(b: Buffer, h: Header, mem: bool) returns (ok: bool, back: Header)
    requires h.version < Power(2) && h.opcode < Power(2) && h.length < Power(2)
    modifies b, b.data
    ensures ok <==> mem || old(b.data.Length) >= 6 + h.length
    ensures ok ==> back == h && b.pointer == 6
  {
    ok := b.WriteHeader(h, mem);
    if !ok { return false, h; }
    ghost var e := XdmcpCodec.WriteHeader(h);
    Rewind(b, 0, e);
    HeaderRoundTrip(b.Seen(), 0, h);
    ok, back := b.ReadHeader();
  }

  // The writers and readers of single items, by what they write and read.

  ghost predicate WritesCardAt(w: Writer<nat>, width: nat, v: nat) {
    w(v) == Card(v, width)
  }

  ghost predicate WritesCards(w: Writer<nat>, width: nat) {
    forall v: nat :: WritesCardAt(w, width, v)
  }

  lemma CardWriterWrites(width: nat)
    ensures WritesCards(CardWriter(width), width)
  {
    forall v: nat
      ensures WritesCardAt(CardWriter(width), width, v)
    {}
  }

  ghost predicate WritesArrayAt(w: Writer<seq<nat>>, v: seq<nat>) {
    w(v) == XdmcpCodec.WriteCards(2, 1, v)
  }

  ghost predicate WritesArrays(w: Writer<seq<nat>>) {
    forall v: seq<nat> :: WritesArrayAt(w, v)
  }

  lemma Array8WriterWrites()
    ensures WritesArrays(Array8Writer())
  {
    forall v: seq<nat>
      ensures WritesArrayAt(Array8Writer(), v)
    {}
  }

  ghost predicate ReadsCardAt(f: Reader<nat>, width: nat, s: seq<Byte>, p: nat) {
    f(s, p) == ReadCard(s, p, width)
  }

  ghost predicate ReadsCards(f: Reader<nat>, width: nat) {
    forall s: seq<Byte>, p: nat :: ReadsCardAt(f, width, s, p)
  }

  lemma CardReaderReads(width: nat)
    ensures ReadsCards(CardReader(width), width)
  {
    forall s: seq<Byte>, p: nat
      ensures ReadsCardAt(CardReader(width), width, s, p)
    {}
  }

  ghost predicate ReadsArrayAt(f: Reader<seq<nat>>, s: seq<Byte>, p: nat) {
    f(s, p) == XdmcpCodec.ReadCards(2, 1, s, p)
  }

  ghost predicate ReadsArrays(f: Reader<seq<nat>>) {
    forall s: seq<Byte>, p: nat :: ReadsArrayAt(f, s, p)
  }

  lemma Array8ReaderReads()
    ensures ReadsArrays(Array8Reader())
  {
    forall s: seq<Byte>, p: nat
      ensures ReadsArrayAt(Array8Reader(), s, p)
    {}
  }

  /** Reads `k` more bytes behind a card already read. */
  function ReadMore(r: Got<nat>, s: seq<Byte>, k: nat): (t: Got<nat>) {
    if r.Fail? then r
    else
      var low := ReadCard(s, r.at, k);
      if low.Fail? then low else Got(r.value * Power(k) + low.value, low.at)
  }

  /** A wide card is two narrower ones, the first counting more. */
  lemma {:induction false} ReadCardSplit(s: seq<Byte>, p: nat, j: nat, k: nat, value: nat)
    ensures ReadCardFrom(s, p, j + k, value) == ReadMore(ReadCardFrom(s, p, j, value), s, k)
    decreases j
  {
    if j == 0 {
      ReadCardBase(s, p, k, value, 0);
    } else if p < |s| {
      ReadCardSplit(s, p + 1, j - 1, k, value * 256 + s[p]);
    }
  }

  /** What was read before only adds to the value. */
  lemma {:induction false} ReadCardBase(s: seq<Byte>, p: nat, k: nat, a: nat, b: nat)
    ensures var r, t := ReadCardFrom(s, p, k, a + b), ReadCardFrom(s, p, k, b);
      r == if t.Fail? then t else Got(a * Power(k) + t.value, t.at)
    decreases k
  {
    if k > 0 && p < |s| {
      ReadCardBase(s, p + 1, k - 1, a * 256, b * 256 + s[p]);
      assert (a + b) * 256 + s[p] == a * 256 + (b * 256 + s[p]);
      assert a * 256 * Power(k - 1) == a * Power(k);
    }
  }
}
