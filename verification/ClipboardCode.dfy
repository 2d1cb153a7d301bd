/**
  The clipboard's request handling over its cached data, list of waiting requests and replies sent.
 */
module ClipboardCode {
  import opened TextPasses
  import opened ClipboardText
  import opened ClipboardTextCode
  import opened ClipboardReplies

  /** The record of the clipboard selection: missing, without an owner, or owned by a client or by the root window. */
  datatype Owner = NoRecord | Nobody | Client(id: nat) | Ours

  /** What a conversion request comes to before it is answered or kept. */
  datatype Outcome = BadWindow | BadAtom | Elsewhere | Taken

  class Clipboard {
    var owner: Owner
    /** The clients that were sent a SelectionClear. */
    var cleared: seq<nat>
    var cached: Data
    /** The linked list of waiting requests, head first. */
    var pending: seq<Request>
    var replies: seq<Reply>

    ghost function Now(issued: nat): (s: State)
      reads this
    {
      State(cached, pending, replies, issued)
    }

    constructor ()
      ensures Now(0) == START
    {
      owner, cleared, cached, pending, replies := NoRecord, [], NoData, [], [];
    }

    /** The text a request gets, or nothing when memory or the property change fails. */
    method StoreText(sv: Server, r: Request, memory: seq<Byte>) returns (ok: bool, c: Content)
      requires Readable(memory) && IsText(r.target)
      ensures ok <==> (r.target.Utf8String? || sv.allocOk(r)) && sv.propertyOk(r)
      ensures ok ==> c == TextFor(r.target, memory)
    {
      if r.target.Utf8String? {
        return sv.propertyOk(r), Bytes(Utf8String, CString(memory));
      }
      var latin1 := Utf8ToLatin1(memory);
      if !sv.allocOk(r) { return false, Nothing; }
      return sv.propertyOk(r), Bytes(String, latin1);
    }

    method ConvertSelection(sv: Server, r: Request, d: Data) returns (ok: bool)
      requires Fits(d)
      modifies this`pending, this`replies
      ensures cached == old(cached) && (ok <==> !Convert(sv, r, d).Failed?)
      ensures pending == if Convert(sv, r, d).Pended? then [r] + old(pending) else old(pending)
      ensures replies == if Convert(sv, r, d).Answered? then old(replies) + [ReplyTo(sv, r, d)] else old(replies)
    {
      if !sv.selectionOk(r) || !sv.windowOk(r) { return false; }
      var stored;
      if r.target.Targets? {
        if !sv.propertyOk(r) { return false; }
        stored := Atoms(OFFERED);
      } else if r.target.Timestamp? {
        if !sv.propertyOk(r) { return false; }
        stored := Time(sv.lastChanged);
      } else if d.NoData? {
        if !IsText(r.target) || !sv.allocOk(r) { return false; }
        pending := [r] + pending;
        return true;
      } else {
        if !IsText(r.target) { return false; }
        ok, stored := StoreText(sv, r, d.memory);
        if !ok { return false; }
      }
      replies := replies + [Reply(r, r.property, stored)];
      ok := true;
    }

    /** Only valid requests for a selection of the root window reach the conversion; all others are refused with an
        error or handed on, and leave no trace. */
    method ProcConvertSelection(sv: Server, r: Request, found: bool, valid: Atom -> bool, readable: bool, ghost issued: nat)
      returns (rc: Outcome)
      requires Fits(cached)
      modifies this`pending, this`replies
      ensures rc == Taken <==>
        found && valid(r.selection) && valid(r.target) && (r.property.None? || valid(r.property)) && readable && owner.Ours?
      ensures rc == BadWindow <==> !found
      ensures rc == Elsewhere ==> !readable || !owner.Ours?
      ensures Now(issued + 1) ==
        if rc == Taken then OnAsk(old(Now(issued)), sv, r) else old(Now(issued + 1))
    {
      if !found { return BadWindow; }
      var paramsOkay := valid(r.selection) && valid(r.target);
      paramsOkay := paramsOkay && (r.property.None? || valid(r.property));
      if !paramsOkay { return BadAtom; }
      if !readable || !owner.Ours? { return Elsewhere; }
      var ok := ConvertSelection(sv, r, cached);
      if !ok {
        replies := replies + [Reply(r, None, Nothing)];
      }
      rc := Taken;
    }

    /** Takes the selection, telling a client that owned it; `access`, `allocOk` and `mayCreate` are the server's answers. */
    method OwnSelection(access: bool, allocOk: bool, mayCreate: bool) returns (ok: bool)
      modifies this`owner, this`cleared
      ensures ok <==> if old(owner).NoRecord? then allocOk && mayCreate else access
      ensures owner == if ok then Ours else old(owner)
      ensures cleared == if ok && old(owner).Client? then old(cleared) + [old(owner).id] else old(cleared)
    {
      if !owner.NoRecord? {
        if !access { return false; }
        if owner.Client? {
          cleared := cleared + [owner.id];
        }
      } else if !allocOk || !mayCreate {
        return false;
      }
      owner := Ours;
      ok := true;
    }

    /** The cached data goes stale whether or not the selection can be taken. */
    method HandleAnnounce(access: bool, allocOk: bool, mayCreate: bool, ghost issued: nat)
      requires Fits(cached)
      modifies this`cached, this`owner, this`cleared
      ensures Now(issued) == Do(old(Now(issued)), Announce)
      ensures owner == if (if old(owner).NoRecord? then allocOk && mayCreate else access) then Ours else old(owner)
      ensures cleared == if old(owner).Client? && access then old(cleared) + [old(owner).id] else old(cleared)
    {
      cached := NoData;
      var _ := OwnSelection(access, allocOk, mayCreate);
    }

    /** One round of the loop in lorieHandleClipboardData. */
    method DrainOne(sv: Server, ghost issued: nat)
      requires Fits(cached) && pending != []
      modifies this`pending, this`replies
      ensures Now(issued) == Drain(sv, old(cached), old(Now(issued)))
    {
      var head := pending[0];
      var ok := ConvertSelection(sv, head, cached);
      if !ok {
        replies := replies + [Reply(head, None, Nothing)];
      }
      pending := pending[1..];
    }

    method HandleData(sv: Server, memory: seq<Byte>, ghost issued: nat)
      requires Fits(cached) && Readable(memory)
      modifies this`cached, this`pending, this`replies
      ensures Now(issued) == Do(old(Now(issued)), Arrive(sv, memory))
    {
      cached := Data(memory);
      ghost var start := Now(issued);
      DrainsWithData(sv, cached, start);
      while pending != []
        invariant cached == Data(memory)
        invariant Rounds(sv, cached, Now(issued), |pending|) == Rounds(sv, cached, start, |start.pending|)
        decreases |pending|
      {
        DrainOne(sv, issued);
      }
    }
  }
}
