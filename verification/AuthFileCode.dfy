/**
  Reading and writing the authority file, and the scan for the best record.
 */
module AuthFileCode {
  import opened XdmcpCodec
  import opened AuthFile

  /** A file being written: its contents and how many bytes its device still takes. */
  datatype Sink = Sink(bytes: seq<Byte>, room: nat)

  predicate CanSend(o: Sink, e: seq<Byte>) {
    |e| <= o.room
  }

  /** As many of the bytes as there is room for. */
  function Send(o: Sink, e: seq<Byte>): (r: Sink) {
    var n := if |e| <= o.room then |e| else o.room;
    Sink(o.bytes + e[..n], o.room - n)
  }

  /** Two writes in turn, the second only after the first succeeded, are one write. */
  lemma SendTwice(o: Sink, a: seq<Byte>, b: seq<Byte>)
    ensures CanSend(o, a) ==> Send(o, a + b) == Send(Send(o, a), b) && CanSend(o, a + b) == CanSend(Send(o, a), b)
    ensures !CanSend(o, a) ==> Send(o, a + b) == Send(o, a) && !CanSend(o, a + b)
  {
    if CanSend(o, a) {
      var n := if |b| <= o.room - |a| then |b| else o.room - |a|;
      assert a[..|a|] == a;
      assert (a + b)[..|a| + n] == a + b[..n];
      assert o.bytes + (a + b[..n]) == (o.bytes + a) + b[..n];
    } else {
      assert (a + b)[..o.room] == a[..o.room];
    }
  }

  /** An open file: its contents, the position in it, and the room left on its device. */
  class Stream {
    var bytes: seq<Byte>
    var position: nat
    var room: nat

    constructor (contents: seq<Byte>, free: nat)
      ensures bytes == contents && position == 0 && room == free
    {
      bytes, position, room := contents, 0, free;
    }

    ghost function Now(): (o: Sink)
      reads this
    {
      Sink(bytes, room)
    }

    twostate predicate Sent(e: seq<Byte>, ok: bool)
      reads this
    {
      Now() == Send(old(Now()), e) && (ok <==> CanSend(old(Now()), e)) && position == old(position)
    }

    /** fwrite: appends what fits and reports whether that was all. */
    method Write(e: seq<Byte>) returns (ok: bool)
      modifies this
      ensures Sent(e, ok)
    {
      ok := |e| <= room;
      var n := if ok then |e| else room;
      bytes := bytes + e[..n];
      room := room - n;
    }

    method WriteShort(v: nat) returns (ok: bool)
      modifies this
      ensures Sent(Card(v, 2), ok)
    {
      assert Card(v, 2) == Card(v / 256, 1) + [v % 256] == [v / 256 % 256, v % 256];
      ok := Write([v / 256 % 256, v % 256]);
    }

    method WriteCountedString(t: seq<Byte>) returns (ok: bool)
      modifies this
      ensures Sent(WriteString(t), ok)
    {
      SendTwice(Now(), Card(|t|, 2), t);
      ok := WriteShort(|t|);
      if !ok { return; }
      ok := Write(t);
    }

    /** Appends one record; on a full device only a part of it, and says so. */
    method WriteAuth(r: Record) returns (ok: bool)
      modifies this
      ensures Sent(WriteRecord(r), ok)
    {
      SendTwice(Now(), Card(r.family, 2), WriteItems(StringWriter(), Fields(r)));
      ok := WriteShort(r.family);
      if !ok { return; }
      ok := WriteStrings(Fields(r));
    }

    method WriteStrings(ts: seq<seq<Byte>>) returns (ok: bool)
      modifies this
      ensures Sent(WriteItems(StringWriter(), ts), ok)
    {
      ghost var w := StringWriter();
      assert ts[0..] == ts;
      ghost var start := Now();
      var i := 0;
      while i < |ts|
        invariant 0 <= i <= |ts| && position == old(position)
        invariant Send(Now(), WriteItems(w, ts[i..])) == Send(start, WriteItems(w, ts))
        invariant CanSend(Now(), WriteItems(w, ts[i..])) == CanSend(start, WriteItems(w, ts))
      {
        ItemsStep(w, ts, i);
        SendTwice(Now(), w(ts[i]), WriteItems(w, ts[i + 1..]));
        ok := WriteCountedString(ts[i]);
        if !ok { return; }
        i := i + 1;
      }
      assert bytes + [] == bytes;
      ok := true;
    }

    method ReadShort() returns (ok: bool, v: nat)
      modifies this`position
      ensures ok <==> ReadCard(bytes, old(position), 2).Got?
      ensures ok ==> ReadCard(bytes, old(position), 2) == Got(v, position)
    {
      if position + 2 > |bytes| { return false, 0; }
      var high: int := bytes[position];
      v := high * 256 + bytes[position + 1];
      position := position + 2;
      ok := true;
    }

    method ReadCountedString() returns (ok: bool, t: seq<Byte>)
      modifies this`position
      ensures ok <==> ReadString(bytes, old(position)).Got?
      ensures ok ==> ReadString(bytes, old(position)) == Got(t, position)
    {
      var n;
      ReadCardEnd(bytes, position, 2);
      ok, n := ReadShort();
      if !ok { return false, []; }
      if position + n > |bytes| { return false, []; }
      t := bytes[position..position + n];
      position := position + n;
    }

    /** The four strings of a record. */
    method ReadStrings() returns (ok: bool, ts: seq<seq<Byte>>)
      modifies this`position
      ensures ok <==> ReadItems(StringReader(), bytes, old(position), FIELDS).Got?
      ensures ok ==> |ts| == FIELDS && ReadItems(StringReader(), bytes, old(position), FIELDS) == Got(ts, position)
    {
      ghost var f, all := StringReader(), ReadItems(StringReader(), bytes, position, FIELDS);
      ts := [];
      PrependEnds(f, bytes, position, ts, all);
      while |ts| < FIELDS
        invariant |ts| <= FIELDS && Prepend(ts, ReadItems(f, bytes, position, FIELDS - |ts|)) == all
      {
        ReadItemsStep(f, bytes, position, FIELDS - |ts|, ts);
        var t;
        ok, t := ReadCountedString();
        if !ok { return; }
        ts := ts + [t];
      }
      PrependEnds(f, bytes, position, ts, all);
      ok := true;
    }

    /** Reads one record. */
    method ReadAuth() returns (ok: bool, r: Record)
      modifies this`position
      ensures ok <==> ReadRecord(bytes, old(position)).Got?
      ensures ok ==> ReadRecord(bytes, old(position)) == Got(r, position)
    {
      r := Record(0, [], [], [], []);
      var family, ts;
      ok, family := ReadShort();
      if !ok { return; }
      ok, ts := ReadStrings();
      if !ok { return; }
      r := Record(family, ts[0], ts[1], ts[2], ts[3]);
    }

    /** The next record of the file, if there is one. */
    method NextRecord(ghost f: Reader<Record>) returns (ok: bool, r: Record)
      requires ReadsRecords(f)
      modifies this`position
      ensures !ok ==> Records(f, bytes, old(position)) == []
      ensures ok ==> old(position) < position <= |bytes|
      ensures ok ==> Records(f, bytes, old(position)) == [r] + Records(f, bytes, position)
    {
      RecordsStep(f, bytes, position);
      ok, r := ReadAuth();
    }

    /** XauGetBestAuthByAddr on an opened file. */
    method BestAuth(q: Query) returns (best: Choice)
      requires position == 0
      modifies this`position
      ensures IsBest(q, FileRecords(bytes), best)
      ensures best.Chosen? ==> best.record in FileRecords(bytes) && IsAsked(q, best.record)
      ensures best.NoRecord? <==> forall r <- FileRecords(bytes) :: !IsAsked(q, r)
    {
      RecordCodec();
      best := GetBest(q, ReadRecord);
      BestIsAsked(q, FileRecords(bytes), best);
    }

    /** The scan from the start of the file; its early exits do not change the answer. */
    method GetBest(q: Query, ghost f: Reader<Record>) returns (best: Choice)
      requires position == 0 && ReadsRecords(f)
      modifies this`position
      ensures IsBest(q, Records(f, bytes, 0), best)
    {
      best := NoRecord;
      var bestType: nat := |q.types|;
      ghost var seen: seq<Record> := [];
      ghost var all := Records(f, bytes, 0);
      while true
        invariant position <= |bytes| && seen + Records(f, bytes, position) == all
        invariant ScanState(q, seen, best, bestType)
        decreases |bytes| - position
      {
        var ok, entry := NextRecord(f);
        if !ok {
          assert seen + [] == seen;
          return;
        }
        Regroup(seen, entry, Records(f, bytes, position));
        var stop;
        best, bestType, stop := Consider(q, best, bestType, entry, seen, all);
        if stop { return; }
        seen := seen + [entry];
      }
    }
  }

  /** What the scan does with one record; it stops when nothing later can be better. */
  method Consider(q: Query, best: Choice, bestType: nat, entry: Record, ghost seen: seq<Record>, ghost all: seq<Record>)
    returns (newBest: Choice, newType: nat, stop: bool)
    requires ScanState(q, seen, best, bestType) && seen + [entry] <= all
    ensures stop ==> IsBest(q, all, newBest)
    ensures !stop ==> ScanState(q, seen + [entry], newBest, newType)
  {
    if Matches(q, entry) {
      if bestType == 0 {
        FirstMatch(q, seen, entry, all);
        return Chosen(entry), bestType, true;
      }
      var t := FindType(q.types, entry.name, bestType);
      if t < bestType {
        Better(q, seen, best, bestType, entry, t);
        if t == 0 {
          ZeroIsBest(q, seen + [entry], entry, all);
        }
        return Chosen(entry), t, t == 0;
      }
    }
    NotBetter(q, seen, best, bestType, entry);
    return best, bestType, false;
  }

  lemma Regroup(a: seq<Record>, r: Record, b: seq<Record>)
    ensures a + ([r] + b) == (a + [r]) + b
  {}

  method FindType(types: seq<seq<Byte>>, name: seq<Byte>, n: nat) returns (t: nat)
    requires n <= |types|
    ensures t == Rank(types, name, 0, n)
  {
    t := 0;
    while t < n && !SameName(types[t], name)
      invariant t <= n && Rank(types, name, t, n) == Rank(types, name, 0, n)
    {
      t := t + 1;
    }
  }

  /** What the scan knows: the best of the records seen, and its score, or the number of names when there is none. */
  ghost predicate ScanState(q: Query, seen: seq<Record>, best: Choice, bestType: nat) {
    && IsBest(q, seen, best) && bestType <= |q.types|
    && (best.NoRecord? ==> bestType == |q.types|)
    && (best.Chosen? ==> 0 < bestType < |q.types| && bestType == Score(q, best.record))
  }

  /** A rank below a bound does not depend on the bound. */
  lemma {:induction false} RankBelow(types: seq<seq<Byte>>, name: seq<Byte>, i: nat, n: nat, m: nat)
    requires i <= n <= m <= |types|
    ensures Rank(types, name, i, n) < n ==> Rank(types, name, i, m) == Rank(types, name, i, n)
    ensures Rank(types, name, i, n) == n ==> Rank(types, name, i, m) >= n
    decreases n - i
  {
    if i < n && !SameName(types[i], name) {
      RankBelow(types, name, i + 1, n, m);
    }
  }

  lemma FirstMatch(q: Query, seen: seq<Record>, entry: Record, all: seq<Record>)
    requires ScanState(q, seen, NoRecord, 0) && Matches(q, entry) && seen + [entry] <= all
    ensures IsBest(q, all, Chosen(entry))
  {
    assert IsBestAt(q, all, |seen|);
  }

  lemma Better(q: Query, seen: seq<Record>, best: Choice, bestType: nat, entry: Record, t: nat)
    requires ScanState(q, seen, best, bestType) && Matches(q, entry) && t == Rank(q.types, entry.name, 0, bestType) < bestType
    ensures IsBest(q, seen + [entry], Chosen(entry)) && Score(q, entry) == t
  {
    RankBelow(q.types, entry.name, 0, bestType, |q.types|);
    assert IsBestAt(q, seen + [entry], |seen|);
  }

  lemma NotBetter(q: Query, seen: seq<Record>, best: Choice, bestType: nat, entry: Record)
    requires ScanState(q, seen, best, bestType)
    requires Matches(q, entry) ==> bestType > 0 && Rank(q.types, entry.name, 0, bestType) == bestType
    ensures ScanState(q, seen + [entry], best, bestType)
  {
    RankBelow(q.types, entry.name, 0, bestType, |q.types|);
    if best.Chosen? {
      var i :| IsBestAt(q, seen, i) && seen[i] == best.record;
      assert IsBestAt(q, seen + [entry], i);
    }
  }

  /** A record of the most preferred name stays the best whatever follows. */
  lemma ZeroIsBest(q: Query, seen: seq<Record>, entry: Record, all: seq<Record>)
    requires IsBest(q, seen, Chosen(entry)) && Score(q, entry) == 0 && seen <= all
    ensures IsBest(q, all, Chosen(entry))
  {
    var i :| IsBestAt(q, seen, i) && seen[i] == entry;
    assert IsBestAt(q, all, i);
  }
}
