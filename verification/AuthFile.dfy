/**
  The authority file: records of a family and four counted strings, and the choice of the best record for a server
  address by a list of preferred protocol names.
 */
module AuthFile {
  import opened XdmcpCodec

  const FAMILY_WILD: nat := 65535

  /** The counted strings of a record. */
  const FIELDS: nat := 4

  datatype Record = Record(family: nat, address: seq<Byte>, number: seq<Byte>, name: seq<Byte>, data: seq<Byte>)

  /** Lengths and the family are 16-bit. */
  predicate IsRecord(r: Record) {
    r.family < 65536 && |r.address| < 65536 && |r.number| < 65536 && |r.name| < 65536 && |r.data| < 65536
  }

  // ------------------------------------------------------------------- the format

  function WriteString(t: seq<Byte>): (s: seq<Byte>) {
    Card(|t|, 2) + t
  }

  function ReadString(s: seq<Byte>, p: nat): (r: Got<seq<Byte>>)
    ensures r.Got? ==> p + 2 <= r.at <= |s|
  {
    ReadCardEnd(s, p, 2);
    match ReadCard(s, p, 2)
    case Fail(at) => Fail(at)
    case Got(n, at) => if at + n <= |s| then Got(s[at..at + n], at + n) else Fail(at)
  }

  lemma ReadCardEnd(s: seq<Byte>, p: nat, k: nat)
    ensures ReadCard(s, p, k).Got? ==> ReadCard(s, p, k).at == p + k && (k > 0 ==> p + k <= |s|)
  {
    ReadCardFromEnd(s, p, k, 0);
  }

  lemma {:induction false} ReadCardFromEnd(s: seq<Byte>, p: nat, k: nat, value: nat)
    ensures var r := ReadCardFrom(s, p, k, value); r.Got? ==> r.at == p + k && (k > 0 ==> p + k <= |s|)
    decreases k
  {
    if k > 0 && p < |s| {
      ReadCardFromEnd(s, p + 1, k - 1, value * 256 + s[p]);
    }
  }

  lemma StringRoundTrip(s: seq<Byte>, p: nat, t: seq<Byte>)
    requires |t| < 65536 && StandsAt(s, p, WriteString(t))
    ensures ReadString(s, p) == Got(t, p + |WriteString(t)|)
  {
    StandsSplit(s, p, Card(|t|, 2), t);
    assert Power(2) == 256 * Power(1) == 65536;
    CardRoundTrip(s, p, |t|, 2);
  }

  function StringWriter(): (w: Writer<seq<Byte>>) {
    (t: seq<Byte>) => WriteString(t)
  }

  function StringReader(): (f: Reader<seq<Byte>>) {
    (s: seq<Byte>, p: nat) => ReadString(s, p)
  }

  lemma StringInverts(t: seq<Byte>)
    requires |t| < 65536
    ensures Inverts(StringReader(), StringWriter(), t)
  {
    forall s: seq<Byte>, p: nat
      ensures InvertsAt(StringReader(), StringWriter(), t, s, p)
    {
      if StandsAt(s, p, WriteString(t)) {
        StringRoundTrip(s, p, t);
      }
    }
  }

  function Fields(r: Record): (ts: seq<seq<Byte>>) {
    [r.address, r.number, r.name, r.data]
  }

  function WriteRecord(r: Record): (s: seq<Byte>) {
    Card(r.family, 2) + WriteItems(StringWriter(), Fields(r))
  }

  /** A record on disk: the family, then address, number, name and data, each behind its length; all numbers have two bytes,
      the upper one first. */
  lemma RecordLayout(r: Record)
    ensures WriteRecord(r) == [r.family / 256 % 256, r.family % 256] + Counted(r.address) + Counted(r.number) +
      Counted(r.name) + Counted(r.data)
  {
    var head, a, b, c, d := [r.family / 256 % 256, r.family % 256], Counted(r.address), Counted(r.number), Counted(r.name), Counted(r.data);
    TwoBytes(r.family);
    FieldsLayout(r);
    assert head + (a + (b + (c + d))) == head + a + b + c + d;
  }

  lemma FieldsLayout(r: Record)
    ensures WriteItems(StringWriter(), Fields(r)) ==
      Counted(r.address) + (Counted(r.number) + (Counted(r.name) + Counted(r.data)))
  {
    OneField(r.data, []);
    OneField(r.name, [r.data]);
    OneField(r.number, [r.name, r.data]);
    OneField(r.address, [r.number, r.name, r.data]);
    assert [r.data] + [] == [r.data] && [r.name] + [r.data] == [r.name, r.data];
    assert [r.number] + [r.name, r.data] == [r.number, r.name, r.data];
    assert [r.address] + [r.number, r.name, r.data] == Fields(r);
  }

  lemma OneField(t: seq<Byte>, rest: seq<seq<Byte>>)
    ensures WriteItems(StringWriter(), [t] + rest) == Counted(t) + WriteItems(StringWriter(), rest)
  {
    TwoBytes(|t|);
    assert ([t] + rest)[1..] == rest;
  }

  function Counted(t: seq<Byte>): (s: seq<Byte>) {
    [|t| / 256 % 256, |t| % 256] + t
  }

  function ReadFields(s: seq<Byte>, family: Got<nat>): (r: Got<Record>) {
    if family.Fail? then Fail(family.at)
    else
      var fields := ReadItems(StringReader(), s, family.at, FIELDS);
      if fields.Fail? then Fail(fields.at)
      else
        ReadItemsCount(StringReader(), s, family.at, FIELDS);
        var t := fields.value;
        Got(Record(family.value, t[0], t[1], t[2], t[3]), fields.at)
  }

  function ReadRecord(s: seq<Byte>, p: nat): (r: Got<Record>) {
    ReadFields(s, ReadCard(s, p, 2))
  }

  lemma {:induction false} ReadItemsCount<T>(f: Reader<T>, s: seq<Byte>, p: nat, n: nat)
    ensures ReadItems(f, s, p, n).Got? ==> |ReadItems(f, s, p, n).value| == n
    decreases n
  {
    if n > 0 && f(s, p).Got? {
      ReadItemsCount(f, s, f(s, p).at, n - 1);
    }
  }

  lemma {:induction false} StringsMove(s: seq<Byte>, p: nat, n: nat)
    requires p <= |s|
    ensures var r := ReadItems(StringReader(), s, p, n); r.Got? ==> p <= r.at <= |s|
    decreases n
  {
    if n > 0 && ReadString(s, p).Got? {
      StringsMove(s, ReadString(s, p).at, n - 1);
    }
  }

  lemma RecordRoundTrip(s: seq<Byte>, p: nat, r: Record)
    requires IsRecord(r) && StandsAt(s, p, WriteRecord(r))
    ensures ReadRecord(s, p) == Got(r, p + |WriteRecord(r)|)
  {
    var ts := Fields(r);
    StandsSplit(s, p, Card(r.family, 2), WriteItems(StringWriter(), ts));
    assert Power(2) == 256 * Power(1) == 65536;
    CardRoundTrip(s, p, r.family, 2);
    forall i | 0 <= i < |ts|
      ensures Inverts(StringReader(), StringWriter(), ts[i])
    {
      StringInverts(ts[i]);
    }
    ItemsRoundTrip(StringReader(), StringWriter(), s, p + 2, ts);
  }

  lemma RecordMoves(s: seq<Byte>, p: nat)
    ensures ReadRecord(s, p).Got? ==> p < ReadRecord(s, p).at <= |s|
  {
    ReadCardEnd(s, p, 2);
    if ReadCard(s, p, 2).Got? {
      StringsMove(s, p + 2, FIELDS);
    }
  }

  ghost predicate ReadsRecordAt(f: Reader<Record>, s: seq<Byte>, p: nat) {
    f(s, p) == ReadRecord(s, p)
  }

  /** `f` is the record reader, and `w` the record writer. */
  ghost predicate ReadsRecords(f: Reader<Record>) {
    forall s: seq<Byte>, p: nat :: ReadsRecordAt(f, s, p)
  }

  ghost predicate WritesRecord(w: Writer<Record>, r: Record) {
    w(r) == WriteRecord(r)
  }

  ghost predicate WritesRecords(w: Writer<Record>) {
    forall r: Record :: WritesRecord(w, r)
  }

  lemma RecordCodec()
    ensures ReadsRecords(ReadRecord) && WritesRecords(WriteRecord)
  {
    forall s: seq<Byte>, p: nat
      ensures ReadsRecordAt(ReadRecord, s, p)
    {}
    forall r: Record
      ensures WritesRecord(WriteRecord, r)
    {}
  }

  lemma RecordsMove(f: Reader<Record>)
    requires ReadsRecords(f)
    ensures Moves(f)
  {
    forall s: seq<Byte>, p: nat
      ensures MovesAt(f, s, p)
    {
      assert ReadsRecordAt(f, s, p);
      RecordMoves(s, p);
    }
  }

  lemma RecordInverts(f: Reader<Record>, w: Writer<Record>, r: Record)
    requires ReadsRecords(f) && WritesRecords(w) && IsRecord(r)
    ensures Inverts(f, w, r)
  {
    assert WritesRecord(w, r);
    forall s: seq<Byte>, p: nat
      ensures InvertsAt(f, w, r, s, p)
    {
      assert ReadsRecordAt(f, s, p);
      if StandsAt(s, p, WriteRecord(r)) {
        RecordRoundTrip(s, p, r);
      }
    }
  }

  lemma AllInvert(f: Reader<Record>, w: Writer<Record>, rs: seq<Record>)
    requires ReadsRecords(f) && WritesRecords(w) && forall i :: 0 <= i < |rs| ==> IsRecord(rs[i])
    ensures forall i :: 0 <= i < |rs| ==> Inverts(f, w, rs[i])
  {
    forall i | 0 <= i < |rs|
      ensures Inverts(f, w, rs[i])
    {
      RecordInverts(f, w, rs[i]);
    }
  }

  /** The records in a file from a position on, up to the first that cannot be read. */
  ghost function Records(f: Reader<Record>, s: seq<Byte>, p: nat): (rs: seq<Record>)
    requires ReadsRecords(f)
  {
    RecordsMove(f);
    ReadUntil(f, s, p)
  }

  /** Reading back any concatenation of written records, whatever follows it, returns those records in order first. */
  lemma FileRoundTrip(f: Reader<Record>, w: Writer<Record>, s: seq<Byte>, p: nat, rs: seq<Record>)
    requires ReadsRecords(f) && WritesRecords(w)
    requires (forall i :: 0 <= i < |rs| ==> IsRecord(rs[i])) && StandsAt(s, p, WriteItems(w, rs))
    ensures Records(f, s, p) == rs + Records(f, s, p + |WriteItems(w, rs)|)
  {
    RecordsMove(f);
    AllInvert(f, w, rs);
    UntilRoundTrip(f, w, s, p, rs);
  }

  lemma NothingAtEnd(f: Reader<Record>, s: seq<Byte>)
    requires ReadsRecords(f)
    ensures Records(f, s, |s|) == []
  {
    assert ReadsRecordAt(f, s, |s|);
    assert ReadCard(s, |s|, 2).Fail?;
  }

  lemma StandsWhole(s: seq<Byte>)
    ensures StandsAt(s, 0, s)
  {
    assert s[0..|s|] == s;
  }

  /** A file of written records reads back as exactly those records. */
  lemma WholeFile(f: Reader<Record>, w: Writer<Record>, rs: seq<Record>, s: seq<Byte>)
    requires ReadsRecords(f) && WritesRecords(w) && (forall i :: 0 <= i < |rs| ==> IsRecord(rs[i])) && s == WriteItems(w, rs)
    ensures Records(f, s, 0) == rs
  {
    StandsWhole(s);
    FileRoundTrip(f, w, s, 0, rs);
    NothingAtEnd(f, s);
  }

  /** The records of a file. */
  ghost function FileRecords(s: seq<Byte>): (rs: seq<Record>) {
    RecordCodec();
    Records(ReadRecord, s, 0)
  }

  function FileOf(rs: seq<Record>): (s: seq<Byte>) {
    WriteItems(WriteRecord, rs)
  }

  /** Writing records and reading the file gives them back. */
  lemma FileReadsBack(rs: seq<Record>)
    requires forall i :: 0 <= i < |rs| ==> IsRecord(rs[i])
    ensures FileRecords(FileOf(rs)) == rs
  {
    RecordCodec();
    WholeFile(ReadRecord, WriteRecord, rs, FileOf(rs));
  }

  /** Appending records to a file that ends at a record boundary appends them to what is read. */
  lemma AppendedReadsBack(before: seq<Record>, rs: seq<Record>, s: seq<Byte>)
    requires forall i :: 0 <= i < |before + rs| ==> IsRecord((before + rs)[i])
    requires s == FileOf(before) + FileOf(rs)
    ensures FileRecords(s) == before + rs
  {
    WriteItemsConcat(WriteRecord, before, rs);
    FileReadsBack(before + rs);
  }

  lemma {:induction false} WriteItemsConcat(w: Writer<Record>, a: seq<Record>, b: seq<Record>)
    ensures WriteItems(w, a + b) == WriteItems(w, a) + WriteItems(w, b)
    decreases |a|
  {
    if a == [] {
      assert a + b == b;
    } else {
      assert (a + b)[1..] == a[1..] + b;
      WriteItemsConcat(w, a[1..], b);
    }
  }

  lemma RecordsStep(f: Reader<Record>, s: seq<Byte>, p: nat)
    requires ReadsRecords(f)
    ensures f(s, p) == ReadRecord(s, p)
    ensures f(s, p).Fail? ==> Records(f, s, p) == []
    ensures f(s, p).Got? ==> p < f(s, p).at <= |s| && Records(f, s, p) == [f(s, p).value] + Records(f, s, f(s, p).at)
  {
    assert ReadsRecordAt(f, s, p);
    RecordsMove(f);
    assert MovesAt(f, s, p);
  }

  // ------------------------------------------------------------------- the best record

  datatype Query = Query(family: nat, address: seq<Byte>, number: seq<Byte>, types: seq<seq<Byte>>)

  datatype Choice = NoRecord | Chosen(record: Record)

  predicate Matches(q: Query, r: Record) {
    && (q.family == FAMILY_WILD || r.family == FAMILY_WILD || (r.family == q.family && r.address == q.address))
    && (q.number == [] || r.number == [] || r.number == q.number)
  }

  /** strncmp over the length of the second string: equal up to that length or a common NUL. */
  predicate SamePrefix(a: seq<Byte>, b: seq<Byte>)
    requires |a| == |b|
  {
    b == [] || (a[0] == b[0] && (a[0] == 0 || SamePrefix(a[1..], b[1..])))
  }

  predicate SameName(type_: seq<Byte>, name: seq<Byte>) {
    |type_| == |name| && SamePrefix(type_, name)
  }

  /** For names without NUL this is equality. */
  lemma {:induction false} SameNameIsEqual(a: seq<Byte>, b: seq<Byte>)
    requires |a| == |b| && forall i :: 0 <= i < |a| ==> a[i] != 0
    ensures SamePrefix(a, b) <==> a == b
  {
    if b != [] {
      SameNameIsEqual(a[1..], b[1..]);
      assert a == [a[0]] + a[1..] && b == [b[0]] + b[1..];
    }
  }

  /** The first preferred name below `n` that the record has, or `n`. */
  function Rank(types: seq<seq<Byte>>, name: seq<Byte>, i: nat, n: nat): (t: nat)
    requires i <= n <= |types|
    ensures i <= t <= n
    decreases n - i
  {
    if i == n || SameName(types[i], name) then i else Rank(types, name, i + 1, n)
  }

  /** A record's place in the order of preference; all are alike when no names are given. */
  function Score(q: Query, r: Record): (t: nat) {
    if q.types == [] then 0 else Rank(q.types, r.name, 0, |q.types|)
  }

  predicate Good(q: Query, r: Record) {
    Matches(q, r) && (q.types == [] || Score(q, r) < |q.types|)
  }

  /** The earliest of the good records with the smallest score. */
  predicate IsBestAt(q: Query, rs: seq<Record>, i: int) {
    && 0 <= i < |rs| && Good(q, rs[i])
    && forall j :: 0 <= j < |rs| && Good(q, rs[j]) ==> Score(q, rs[i]) <= Score(q, rs[j]) && (j < i ==> Score(q, rs[i]) < Score(q, rs[j]))
  }

  ghost predicate IsBest(q: Query, rs: seq<Record>, c: Choice) {
    match c
    case NoRecord => forall i :: 0 <= i < |rs| ==> !Good(q, rs[i])
    case Chosen(r) => exists i :: IsBestAt(q, rs, i) && rs[i] == r
  }

  lemma BestIsUnique(q: Query, rs: seq<Record>, c: Choice, d: Choice)
    requires IsBest(q, rs, c) && IsBest(q, rs, d)
    ensures c == d
  {
    if c.Chosen? && d.Chosen? {
      var i :| IsBestAt(q, rs, i) && rs[i] == c.record;
      var j :| IsBestAt(q, rs, j) && rs[j] == d.record;
      assert i == j;
    }
  }

  /** With an empty list the answer is the first matching record. */
  lemma EmptyListTakesFirst(q: Query, rs: seq<Record>, r: Record)
    requires q.types == []
    ensures IsBest(q, rs, Chosen(r)) <==>
      exists i :: 0 <= i < |rs| && rs[i] == r && Matches(q, rs[i]) && forall j :: 0 <= j < i ==> !Matches(q, rs[j])
  {
    forall i | 0 <= i < |rs|
      ensures IsBestAt(q, rs, i) <==> Matches(q, rs[i]) && forall j :: 0 <= j < i ==> !Matches(q, rs[j])
    {
      assert forall j :: 0 <= j < |rs| ==> (Good(q, rs[j]) <==> Matches(q, rs[j]));
    }
  }

  /** A name of the list that the record has, and none before it. */
  ghost predicate HasNameAt(types: seq<seq<Byte>>, name: seq<Byte>, t: int) {
    0 <= t < |types| && SameName(types[t], name) && forall u :: 0 <= u < t ==> !SameName(types[u], name)
  }

  lemma {:induction false} RankIsFirst(types: seq<seq<Byte>>, name: seq<Byte>, i: nat)
    requires i <= |types| && forall u :: 0 <= u < i ==> !SameName(types[u], name)
    ensures var t := Rank(types, name, i, |types|);
      && (t < |types| ==> HasNameAt(types, name, t))
      && (t == |types| ==> forall u :: 0 <= u < |types| ==> !SameName(types[u], name))
    decreases |types| - i
  {
    if i < |types| && !SameName(types[i], name) {
      RankIsFirst(types, name, i + 1);
    }
  }

  /** The record asked for, field by field: family and address unless a side is wild, number unless a side is empty, and
      one of the listed names unless none is listed. */
  ghost predicate IsAsked(q: Query, r: Record) {
    && (q.family != FAMILY_WILD && r.family != FAMILY_WILD ==> r.family == q.family && r.address == q.address)
    && (q.number != [] && r.number != [] ==> r.number == q.number)
    && (q.types != [] ==> exists t :: HasNameAt(q.types, r.name, t))
  }

  lemma GoodIsAsked(q: Query, r: Record)
    ensures Good(q, r) <==> IsAsked(q, r)
  {
    if q.types != [] {
      RankIsFirst(q.types, r.name, 0);
      assert Score(q, r) < |q.types| ==> HasNameAt(q.types, r.name, Score(q, r));
    }
  }

  /** What the search returns is a record of the file that was asked for, and nothing is returned only when there is none;
      of two records asked for, the one whose name stands earlier in the list wins. */
  lemma BestIsAsked(q: Query, rs: seq<Record>, c: Choice)
    requires IsBest(q, rs, c)
    ensures c.Chosen? ==> c.record in rs && IsAsked(q, c.record)
    ensures c.NoRecord? <==> forall r <- rs :: !IsAsked(q, r)
    ensures c.Chosen? ==> forall r, t, u ::
      (r in rs && IsAsked(q, r) && HasNameAt(q.types, c.record.name, t) && HasNameAt(q.types, r.name, u)) ==> t <= u
  {
    forall r: Record
      ensures Good(q, r) <==> IsAsked(q, r)
    {
      GoodIsAsked(q, r);
    }
    if c.Chosen? {
      var i :| IsBestAt(q, rs, i) && rs[i] == c.record;
      forall r, t, u | r in rs && IsAsked(q, r) && HasNameAt(q.types, c.record.name, t) && HasNameAt(q.types, r.name, u)
        ensures t <= u
      {
        RankIsFirst(q.types, c.record.name, 0);
        RankIsFirst(q.types, r.name, 0);
        var j :| 0 <= j < |rs| && rs[j] == r;
        assert Good(q, rs[j]);
      }
    }
  }
}
