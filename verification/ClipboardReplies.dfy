/**
  Answering selection conversion requests: each is answered at once or kept on a list until clipboard data arrives
  (section 2.2 of the Inter-Client Communication Conventions Manual).
 */
module ClipboardReplies {
  import opened TextPasses
  import opened ClipboardText
  import opened ClipboardTextCode

  datatype Atom = None | Targets | Timestamp | String | Text | Utf8String | Named(id: nat)

  /** A conversion request; `id` is its place in the order of arrival. */
  datatype Request = Request(id: nat, client: nat, selection: Atom, target: Atom, property: Atom, requestor: nat, time: nat)

  /** What was stored in the requestor's window before the answer. */
  datatype Content = Nothing | Atoms(list: seq<Atom>) | Time(at: nat) | Bytes(kind: Atom, data: seq<Byte>)

  /** A SelectionNotify; its other fields are those of the request. */
  datatype Reply = Reply(request: Request, property: Atom, stored: Content)

  /** Clipboard data, as the memory its pointer leads to; shorter than the converter's limit. */
  datatype Data = NoData | Data(memory: seq<Byte>)

  ghost predicate Fits(d: Data) {
    d.Data? ==> Readable(d.memory)
  }

  /** The rest of the server during one step: whether each lookup, allocation and property change succeeds. */
  datatype Server = Server(selectionOk: Request -> bool, windowOk: Request -> bool, allocOk: Request -> bool,
                           propertyOk: Request -> bool, lastChanged: nat)

  datatype Converted = Answered(stored: Content) | Pended | Failed

  predicate IsText(target: Atom) {
    target.String? || target.Text? || target.Utf8String?
  }

  const OFFERED := [Targets, Timestamp, String, Text, Utf8String]

  ghost function TextFor(target: Atom, memory: seq<Byte>): (c: Content) {
    if target.Utf8String? then Bytes(Utf8String, CString(memory))
    else Bytes(String, CString(LatinBytes(DecodeAll(Decode, memory, SECOND_LIMIT))))
  }

  /** What a request deserves, given the data at hand. */
  ghost function Convert(sv: Server, r: Request, d: Data): (c: Converted)
    requires Fits(d)
  {
    if !sv.selectionOk(r) || !sv.windowOk(r) then Failed
    else if r.target.Targets? || r.target.Timestamp? then
      if !sv.propertyOk(r) then Failed else Answered(if r.target.Targets? then Atoms(OFFERED) else Time(sv.lastChanged))
    else if !IsText(r.target) then Failed
    else if d.NoData? then if sv.allocOk(r) then Pended else Failed
    else if (!r.target.Utf8String? && !sv.allocOk(r)) || !sv.propertyOk(r) then Failed
    else Answered(TextFor(r.target, d.memory))
  }

  ghost function ReplyTo(sv: Server, r: Request, d: Data): (p: Reply)
    requires Fits(d)
  {
    var c := Convert(sv, r, d);
    if c.Answered? then Reply(r, r.property, c.stored) else Reply(r, None, Nothing)
  }

  // ------------------------------------------------------------------- runs

  datatype State = State(cached: Data, pending: seq<Request>, replies: seq<Reply>, issued: nat)

  datatype Action = Ask(sv: Server, request: Request) | Announce | Arrive(sv: Server, memory: seq<Byte>)

  const START := State(NoData, [], [], 0)

  /** A request is answered now or put at the head of the list. */
  ghost function OnAsk(s: State, sv: Server, r: Request): (t: State)
    requires Fits(s.cached)
  {
    if Convert(sv, r, s.cached).Pended? then s.(pending := [r] + s.pending, issued := s.issued + 1)
    else s.(replies := s.replies + [ReplyTo(sv, r, s.cached)], issued := s.issued + 1)
  }

  /** The answers to a list of requests, in the list's order. */
  ghost function RepliesTo(sv: Server, pending: seq<Request>, d: Data): (p: seq<Reply>)
    requires Fits(d)
    ensures |p| == |pending|
  {
    if pending == [] then [] else [ReplyTo(sv, pending[0], d)] + RepliesTo(sv, pending[1..], d)
  }

  ghost predicate Enabled(s: State, a: Action) {
    match a
    case Ask(_, r) => r.id == s.issued
    case Announce => true
    case Arrive(_, memory) => Readable(memory)
  }

  ghost function Do(s: State, a: Action): (t: State)
    requires Fits(s.cached) && Enabled(s, a)
    ensures Fits(t.cached)
  {
    match a
    case Ask(sv, r) => OnAsk(s, sv, r)
    case Announce => s.(cached := NoData)
    case Arrive(sv, memory) => State(Data(memory), [], s.replies + RepliesTo(sv, s.pending, Data(memory)), s.issued)
  }

  ghost predicate IsRun(ss: seq<State>, acts: seq<Action>) {
    && |ss| == |acts| + 1 && ss[0] == START && (forall i :: 0 <= i < |ss| ==> Fits(ss[i].cached))
    && forall i :: 0 <= i < |acts| ==> Enabled(ss[i], acts[i]) && ss[i + 1] == Do(ss[i], acts[i])
  }

  /** How often a request occurs among replies, and on the list. */
  function Replied(replies: seq<Reply>, id: nat): (n: nat) {
    if replies == [] then 0 else (if replies[0].request.id == id then 1 else 0) + Replied(replies[1..], id)
  }

  function Waiting(pending: seq<Request>, id: nat): (n: nat) {
    if pending == [] then 0 else (if pending[0].id == id then 1 else 0) + Waiting(pending[1..], id)
  }

  lemma {:induction false} RepliedConcat(a: seq<Reply>, b: seq<Reply>, id: nat)
    ensures Replied(a + b, id) == Replied(a, id) + Replied(b, id)
    decreases |a|
  {
    if a == [] {
      assert a + b == b;
    } else {
      assert (a + b)[1..] == a[1..] + b;
      RepliedConcat(a[1..], b, id);
    }
  }

  lemma {:induction false} RepliedToAll(sv: Server, pending: seq<Request>, d: Data, id: nat)
    requires Fits(d)
    ensures Replied(RepliesTo(sv, pending, d), id) == Waiting(pending, id)
    decreases |pending|
  {
    if pending != [] {
      RepliedToAll(sv, pending[1..], d, id);
      var p := RepliesTo(sv, pending, d);
      assert p[1..] == RepliesTo(sv, pending[1..], d);
    }
  }

  /** One request is accounted for once if it was issued, and not at all before. */
  predicate OnceAt(s: State, id: nat) {
    Replied(s.replies, id) + Waiting(s.pending, id) == if id < s.issued then 1 else 0
  }

  lemma StepKeepsOnce(s: State, a: Action, id: nat)
    requires Fits(s.cached) && Enabled(s, a) && OnceAt(s, id)
    ensures OnceAt(Do(s, a), id)
  {
    match a
    case Ask(sv, r) =>
      var p := ReplyTo(sv, r, s.cached);
      RepliedConcat(s.replies, [p], id);
      assert Replied([p], id) == if r.id == id then 1 else 0;
      assert ([r] + s.pending)[1..] == s.pending;
    case Announce =>
    case Arrive(sv, memory) =>
      RepliedConcat(s.replies, RepliesTo(sv, s.pending, Data(memory)), id);
      RepliedToAll(sv, s.pending, Data(memory), id);
  }

  /** Exactly once: at every point of every run each request made so far has either one reply and is not waiting, or
      waits in one place and has no reply. */
  lemma {:induction false} ExactlyOnce(ss: seq<State>, acts: seq<Action>, n: nat, id: nat)
    requires IsRun(ss, acts) && n < |ss|
    ensures OnceAt(ss[n], id)
    decreases n
  {
    if n > 0 {
      ExactlyOnce(ss, acts, n - 1, id);
      StepKeepsOnce(ss[n - 1], acts[n - 1], id);
    }
  }

  /** Replies are never taken back. */
  lemma {:induction false} RepliesGrow(ss: seq<State>, acts: seq<Action>, i: nat, n: nat)
    requires IsRun(ss, acts) && i <= n < |ss|
    ensures ss[i].replies <= ss[n].replies
    decreases n
  {
    if i < n {
      RepliesGrow(ss, acts, i, n - 1);
      assert ss[n] == Do(ss[n - 1], acts[n - 1]);
    }
  }

  /** Data arriving answers every request made so far. */
  lemma ArrivalAnswersAll(ss: seq<State>, acts: seq<Action>, n: nat, id: nat)
    requires IsRun(ss, acts) && 0 < n < |ss| && acts[n - 1].Arrive? && id < ss[n].issued
    ensures ss[n].pending == [] && Replied(ss[n].replies, id) == 1
  {
    ExactlyOnce(ss, acts, n, id);
    assert ss[n] == Do(ss[n - 1], acts[n - 1]);
  }

  /** Only text requests ever wait. */
  lemma {:induction false} WaitingIsText(ss: seq<State>, acts: seq<Action>, n: nat)
    requires IsRun(ss, acts) && n < |ss|
    ensures forall i :: 0 <= i < |ss[n].pending| ==> IsText(ss[n].pending[i].target)
    decreases n
  {
    if n > 0 {
      WaitingIsText(ss, acts, n - 1);
      assert ss[n] == Do(ss[n - 1], acts[n - 1]);
    }
  }

  /** The requestor can tell an answer from a refusal by its property exactly when it named one: a converted request
      without a property is answered with None, although the value was stored under the target's name. */
  lemma RefusalByProperty(sv: Server, r: Request, d: Data)
    requires Fits(d) && !Convert(sv, r, d).Pended?
    ensures ReplyTo(sv, r, d).property == None <==> Convert(sv, r, d).Failed? || r.property == None
  {}

  // ------------------------------------------------------------------- what is answered

  /** One byte for each character: its value, or a question mark when that needs more than a byte. */
  predicate IsLatin(text: seq<Byte>, us: seq<Scalar>) {
    |text| == |us| && forall i :: 0 <= i < |us| ==> text[i] == if us[i] < 256 then us[i] else 0x3f
  }

  /** The text `us` as a target wants it. */
  predicate TextIn(c: Content, target: Atom, us: seq<Scalar>) {
    && c.Bytes?
    && if target.Utf8String? then c.kind == Utf8String && c.data == Encode(us) else c.kind == String && IsLatin(c.data, us)
  }

  lemma {:induction false} LatinIs(us: seq<Scalar>)
    ensures IsLatin(LatinBytes(us), us)
    decreases |us|
  {
    if us != [] {
      LatinIs(us[1..]);
      var b := LatinBytes(us);
      assert b[1..] == LatinBytes(us[1..]);
      forall i | 0 < i < |us|
        ensures b[i] == if us[i] < 256 then us[i] else 0x3f
      {
        assert b[i] == b[1..][i - 1] && us[i] == us[1..][i - 1];
      }
    }
  }

  lemma {:induction false} CStringInMemory(text: seq<Byte>, behind: seq<Byte>)
    requires NulFree(text)
    ensures CString(InMemory(text, behind)) == text
    decreases |text|
  {
    if text != [] {
      var m := InMemory(text, behind);
      assert m[0] == text[0] && m[1..] == InMemory(text[1..], behind);
      CStringInMemory(text[1..], behind);
    }
  }

  /** Data that holds a well-formed text without NUL, whatever lies behind it. */
  ghost predicate Holds(d: Data, us: seq<Scalar>) {
    && 0 !in us
    && exists behind :: d == Data(InMemory(Encode(us), behind)) && |InMemory(Encode(us), behind)| < SECOND_LIMIT
  }

  lemma TextIsRight(d: Data, us: seq<Scalar>, target: Atom)
    requires Holds(d, us)
    ensures Fits(d) && TextIn(TextFor(target, d.memory), target, us)
  {
    var behind :| d == Data(InMemory(Encode(us), behind)) && |InMemory(Encode(us), behind)| < SECOND_LIMIT;
    Utf8ToLatin1Exact(us, behind);
    WellFormedEndsWhole(us);
    CStringInMemory(Encode(us), behind);
    LatinIs(us);
  }

  /** Every lookup, allocation and property change for the request succeeds. */
  predicate Willing(sv: Server, r: Request) {
    sv.selectionOk(r) && sv.windowOk(r) && sv.allocOk(r) && sv.propertyOk(r)
  }

  /** What a request for a target should be answered with, given the text. */
  ghost predicate Proper(sv: Server, p: Reply, r: Request, us: seq<Scalar>) {
    && p.request == r && p.property == r.property
    && (IsText(r.target) ==> TextIn(p.stored, r.target, us))
    && (r.target.Timestamp? ==> p.stored == Time(sv.lastChanged))
    && (r.target.Targets? ==> p.stored.Atoms? && forall a :: a in p.stored.list <==> Offered(a))
  }

  /** The targets that can be answered. */
  predicate Offered(a: Atom) {
    a.Targets? || a.Timestamp? || IsText(a)
  }

  lemma ReplyIsProper(sv: Server, r: Request, d: Data, us: seq<Scalar>)
    requires Holds(d, us) && Willing(sv, r)
    ensures Fits(d) && (Convert(sv, r, d).Answered? <==> Offered(r.target)) && !Convert(sv, r, d).Pended?
    ensures Offered(r.target) ==> Proper(sv, ReplyTo(sv, r, d), r, us)
  {
    TextIsRight(d, us, r.target);
  }

  /** With data at hand a request is refused exactly when a lookup fails, its target is not offered, the value cannot be
      stored, or there is no memory for the converted text. */
  lemma RefusedExactly(sv: Server, r: Request, d: Data)
    requires Fits(d) && d.Data?
    ensures Convert(sv, r, d).Failed? <==>
      || !sv.selectionOk(r) || !sv.windowOk(r) || !Offered(r.target) || !sv.propertyOk(r)
      || ((r.target.String? || r.target.Text?) && !sv.allocOk(r))
  {}

  /** A request made while the data is at hand is answered at once, in kind and content as its target wants; one for a
      target that TARGETS does not list is refused. */
  lemma AnsweredAtOnce(s: State, sv: Server, r: Request, us: seq<Scalar>)
    requires Holds(s.cached, us) && Willing(sv, r)
    ensures Fits(s.cached)
    ensures var t := OnAsk(s, sv, r);
      && t.pending == s.pending && |t.replies| == |s.replies| + 1 && t.replies[..|s.replies|] == s.replies
      && var p := t.replies[|s.replies|];
      if Offered(r.target) then Proper(sv, p, r, us) else p == Reply(r, None, Nothing)
  {
    ReplyIsProper(sv, r, s.cached, us);
  }

  lemma {:induction false} RepliesAt(sv: Server, pending: seq<Request>, d: Data, k: nat)
    requires Fits(d) && k < |pending|
    ensures RepliesTo(sv, pending, d)[k] == ReplyTo(sv, pending[k], d)
    decreases |pending|
  {
    if k > 0 {
      RepliesAt(sv, pending[1..], d, k - 1);
    }
  }

  /** A request that waited is answered the same way when the data arrives. */
  lemma AnsweredOnArrival(s: State, sv: Server, memory: seq<Byte>, us: seq<Scalar>, k: nat)
    requires Fits(s.cached) && Holds(Data(memory), us) && k < |s.pending|
    requires Willing(sv, s.pending[k]) && IsText(s.pending[k].target)
    ensures Fits(Data(memory))
    ensures var t := Do(s, Arrive(sv, memory));
      && |t.replies| == |s.replies| + |s.pending| && t.replies[..|s.replies|] == s.replies
      && Proper(sv, t.replies[|s.replies| + k], s.pending[k], us)
  {
    ReplyIsProper(sv, s.pending[k], Data(memory), us);
    RepliesAt(sv, s.pending, Data(memory), k);
  }

  // ------------------------------------------------------------------- a null arrival

  /** One round of the draining loop, on the list and the replies: convert the head, answer a refusal, drop the head. A
      request put back on the list stands in front, so it is the one dropped. */
  ghost function Drain(sv: Server, d: Data, s: State): (t: State)
    requires Fits(d) && s.pending != []
  {
    var r := s.pending[0];
    if Convert(sv, r, d).Pended? then s.(pending := ([r] + s.pending)[1..])
    else s.(pending := s.pending[1..], replies := s.replies + [ReplyTo(sv, r, d)])
  }

  /** The state after `n` rounds, or fewer if the list is empty sooner. */
  ghost function Rounds(sv: Server, d: Data, s: State, n: nat): (t: State)
    requires Fits(d)
    decreases n
  {
    if n == 0 || s.pending == [] then s else Rounds(sv, d, Drain(sv, d, s), n - 1)
  }

  /** With data the loop ends after one round for each waiting request, having answered them in the list's order. */
  lemma {:induction false} DrainsWithData(sv: Server, d: Data, s: State)
    requires Fits(d) && d.Data?
    ensures Rounds(sv, d, s, |s.pending|) == s.(pending := [], replies := s.replies + RepliesTo(sv, s.pending, d))
    decreases |s.pending|
  {
    if s.pending != [] {
      DrainsWithData(sv, d, Drain(sv, d, s));
      var rest := RepliesTo(sv, s.pending[1..], d);
      assert (s.replies + [ReplyTo(sv, s.pending[0], d)]) + rest == s.replies + ([ReplyTo(sv, s.pending[0], d)] + rest);
    }
  }

  lemma StuckRound(sv: Server, s: State)
    requires s.pending != [] && Convert(sv, s.pending[0], NoData).Pended?
    ensures Drain(sv, NoData, s) == s
  {}

  lemma {:induction false} StuckForever(sv: Server, s: State, n: nat)
    requires s.pending != [] && Convert(sv, s.pending[0], NoData).Pended?
    ensures Rounds(sv, NoData, s, n) == s
  {
    if n > 0 {
      StuckRound(sv, s);
      StuckForever(sv, s, n - 1);
    }
  }

  ghost predicate NonePends(sv: Server, pending: seq<Request>) {
    forall i :: 0 <= i < |pending| ==> !Convert(sv, pending[i], NoData).Pended?
  }

  lemma {:induction false} EndsWithoutData(sv: Server, s: State, n: nat)
    ensures Rounds(sv, NoData, s, n).pending == [] ==> NonePends(sv, s.pending)
    ensures NonePends(sv, s.pending) && n >= |s.pending| ==> Rounds(sv, NoData, s, n).pending == []
    decreases n
  {
    if s.pending != [] {
      if Convert(sv, s.pending[0], NoData).Pended? {
        StuckForever(sv, s, n);
      } else if n > 0 {
        var t := Drain(sv, NoData, s);
        EndsWithoutData(sv, t, n - 1);
        assert forall i :: 0 < i < |s.pending| ==> s.pending[i] == t.pending[i - 1];
      }
    }
  }

  /** A null arrival ends the loop exactly when no waiting request can be put back on the list. */
  lemma NullArrivalEnds(sv: Server, s: State)
    ensures (exists n: nat :: Rounds(sv, NoData, s, n).pending == []) <==> NonePends(sv, s.pending)
  {
    EndsWithoutData(sv, s, |s.pending|);
    forall n: nat | Rounds(sv, NoData, s, n).pending == []
      ensures NonePends(sv, s.pending)
    {
      EndsWithoutData(sv, s, n);
    }
  }
}
