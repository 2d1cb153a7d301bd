/**
  The renderer's three buffer lists, shared by the activity's main thread and the renderer thread.
  Every operation runs under one spin lock, so a run is any sequence of operations of either thread.
 */
module BufferLists {

  /** A buffer structure in the renderer's process; `id` is the number the X server knows it by. */
  type Handle = nat

  datatype Buffer = Buffer(id: nat, refs: nat, attached: bool)

  datatype Who = MainThread | RendererThread

  datatype Freed = Freed(h: Handle, attached: bool, who: Who)

  /** The lists, the live buffers, and history: what was freed, what ever arrived, what this iteration picked. */
  datatype Lists = Lists(
    added: seq<Handle>, buffers: seq<Handle>, removed: seq<Handle>,
    live: map<Handle, Buffer>, freed: seq<Freed>, arrived: set<Handle>, picked: set<Handle>)

  function Rev(s: seq<Handle>): (r: seq<Handle>) {
    if s == [] then [] else Rev(s[1..]) + [s[0]]
  }

  /** How often a handle occurs in a list. */
  function Occ(s: seq<Handle>, h: Handle): (n: nat)
    ensures n > 0 <==> h in s
  {
    if s == [] then 0 else (if s[0] == h then 1 else 0) + Occ(s[1..], h)
  }

  lemma {:induction false} OccConcat(xs: seq<Handle>, ys: seq<Handle>, h: Handle)
    ensures Occ(xs + ys, h) == Occ(xs, h) + Occ(ys, h)
  {
    if xs == [] {
      assert xs + ys == ys;
    } else {
      OccConcat(xs[1..], ys, h);
      assert (xs + ys)[1..] == xs[1..] + ys;
    }
  }

  lemma {:induction false} OccRev(s: seq<Handle>, h: Handle)
    ensures Occ(Rev(s), h) == Occ(s, h)
  {
    if s != [] {
      OccRev(s[1..], h);
      OccConcat(Rev(s[1..]), [s[0]], h);
    }
  }

  lemma {:induction false} OccRemove(s: seq<Handle>, x: Handle, h: Handle)
    ensures Occ(Remove(s, x), h) == if h == x && Occ(s, h) > 0 then Occ(s, h) - 1 else Occ(s, h)
  {
    if s != [] && s[0] != x {
      OccRemove(s[1..], x, h);
      assert ([s[0]] + Remove(s[1..], x))[1..] == Remove(s[1..], x);
    }
  }

  lemma {:induction false} OccTwice(s: seq<Handle>, i: nat, j: nat)
    requires i < j < |s| && s[i] == s[j]
    ensures Occ(s, s[i]) >= 2
  {
    if i == 0 {
      assert s[1..][j - 1] == s[0];
    } else {
      OccTwice(s[1..], i - 1, j - 1);
    }
  }

  /** The first handle of a list whose buffer has the given id. */
  function FindById(live: map<Handle, Buffer>, list: seq<Handle>, id: nat): (r: seq<Handle>)
    ensures |r| <= 1
    ensures r != [] ==> r[0] in list && r[0] in live && live[r[0]].id == id
    ensures r == [] ==> forall h <- list :: h in live ==> live[h].id != id
  {
    if list == [] then []
    else if list[0] in live && live[list[0]].id == id then [list[0]]
    else FindById(live, list[1..], id)
  }

  function Remove(list: seq<Handle>, h: Handle): (r: seq<Handle>) {
    if list == [] then []
    else if list[0] == h then list[1..]
    else [list[0]] + Remove(list[1..], h)
  }

  // ---------------------------------------------------------------- operations

  /** A buffer arrives over the socket with `refs` references and is put in front of the added list. */
  function Add(l: Lists, h: Handle, id: nat, refs: nat): (r: Lists) {
    l.(added := [h] + l.added, live := l.live[h := Buffer(id, refs, false)], arrived := l.arrived + {h})
  }

  /** Drops one reference; the last one unlinks and frees the buffer. */
  function Release(l: Lists, h: Handle, who: Who): (r: Lists)
    requires h in l.live
  {
    if l.live[h].refs == 1 then
      l.(added := Remove(l.added, h), buffers := Remove(l.buffers, h), removed := Remove(l.removed, h),
         live := l.live - {h}, freed := l.freed + [Freed(h, l.live[h].attached, who)])
    else l.(live := l.live[h := l.live[h].(refs := if l.live[h].refs > 0 then l.live[h].refs - 1 else 0)])
  }

  function RemoveById(l: Lists, id: nat): (r: Lists) {
    var inAdded := FindById(l.live, l.added, id);
    if inAdded != [] then Release(l, inAdded[0], MainThread)
    else
      var inBuffers := FindById(l.live, l.buffers, id);
      if inBuffers == [] then l
      else l.(buffers := Remove(l.buffers, inBuffers[0]), removed := [inBuffers[0]] + l.removed)
  }

  function LogFreed(live: map<Handle, Buffer>, hs: seq<Handle>, who: Who): (r: seq<Freed>)
    requires forall h <- hs :: h in live
    ensures |r| == |hs|
    ensures forall i :: 0 <= i < |hs| ==> r[i] == Freed(hs[i], live[hs[i]].attached, who)
  {
    seq(|hs|, i requires 0 <= i < |hs| => assert hs[i] in hs; Freed(hs[i], live[hs[i]].attached, who))
  }

  function Elems(hs: seq<Handle>): (r: set<Handle>) {
    set h <- hs
  }

  /** Everything not attached is freed where it stands; everything attached waits for the renderer. */
  function RemoveAll(l: Lists, who: Who): (r: Lists)
    requires forall h <- l.added :: h in l.live
  {
    l.(added := [], buffers := [], removed := Rev(l.buffers) + l.removed,
       live := l.live - Elems(l.added), freed := l.freed + LogFreed(l.live, l.added, who))
  }

  function Attached(live: map<Handle, Buffer>, hs: set<Handle>): (r: map<Handle, Buffer>)
    ensures r.Keys == live.Keys
    ensures forall h <- live :: r[h] == if h in hs then live[h].(attached := true) else live[h]
  {
    map h <- live :: if h in hs then live[h].(attached := true) else live[h]
  }

  function AttachAll(l: Lists): (r: Lists) {
    l.(added := [], buffers := Rev(l.added) + l.buffers, live := Attached(l.live, Elems(l.added)))
  }

  /** One lookup of a copy's source or destination, attaching it on the way if it just arrived. */
  function Find(l: Lists, id: nat): (r: Lists) {
    var inBuffers := FindById(l.live, l.buffers, id);
    if inBuffers != [] then l.(picked := l.picked + {inBuffers[0]})
    else
      var inAdded := FindById(l.live, l.added, id);
      if inAdded == [] then l
      else l.(added := Remove(l.added, inAdded[0]), buffers := [inAdded[0]] + l.buffers,
              live := Attached(l.live, {inAdded[0]}), picked := l.picked + {inAdded[0]})
  }

  /** The lookup of the root texture: also among the removed ones, to be shown one last time. */
  function PickRoot(l: Lists, id: nat): (r: Lists) {
    var inBuffers := FindById(l.live, l.buffers, id);
    if inBuffers != [] then l.(picked := l.picked + {inBuffers[0]})
    else
      var inRemoved := FindById(l.live, l.removed, id);
      if inRemoved == [] then l else l.(picked := l.picked + {inRemoved[0]})
  }

  /** The end of an iteration: the renderer frees what was removed and lets go of what it picked. */
  function ReleaseRemoved(l: Lists): (r: Lists)
    requires forall h <- l.removed :: h in l.live
  {
    l.(removed := [], live := l.live - Elems(l.removed),
       freed := l.freed + LogFreed(l.live, l.removed, RendererThread), picked := {})
  }

  // ----------------------------------------------------------------- invariant

  function FreedHandles(freed: seq<Freed>): (r: seq<Handle>)
    ensures |r| == |freed|
    ensures forall i :: 0 <= i < |freed| ==> r[i] == freed[i].h
  {
    seq(|freed|, i requires 0 <= i < |freed| => freed[i].h)
  }

  /**
    What holds of one handle: while live it is on exactly one list, once, with references, and is
    attached exactly when off the added list; once it arrived it is live or was freed once; what
    is picked is live and attached.
   */
  ghost predicate At(l: Lists, h: Handle) {
    && Occ(l.added, h) + Occ(l.buffers, h) + Occ(l.removed, h) == (if h in l.live then 1 else 0)
    && (h in l.live ==> h in l.arrived && l.live[h].refs > 0 && (l.live[h].attached <==> Occ(l.added, h) == 0))
    && Occ(FreedHandles(l.freed), h) == (if h in l.arrived && h !in l.live then 1 else 0)
    && (h in l.picked ==> h in l.live && l.live[h].attached)
  }

  ghost predicate Inv(l: Lists) {
    && (forall h: Handle :: At(l, h))
    && (forall f <- l.freed :: f.attached ==> f.who == RendererThread)
  }

  lemma FreedAppend(a: seq<Freed>, b: seq<Freed>, h: Handle)
    ensures Occ(FreedHandles(a + b), h) == Occ(FreedHandles(a), h) + Occ(FreedHandles(b), h)
  {
    assert FreedHandles(a + b) == FreedHandles(a) + FreedHandles(b);
    OccConcat(FreedHandles(a), FreedHandles(b), h);
  }

  lemma AddKeepsInv(l: Lists, h: Handle, id: nat, refs: nat)
    requires Inv(l) && h !in l.arrived && refs > 0
    ensures Inv(Add(l, h, id, refs))
  {
    forall x: Handle
      ensures At(Add(l, h, id, refs), x)
    {
      assert At(l, x);
      OccConcat([h], l.added, x);
    }
  }

  lemma ReleaseKeepsInv(l: Lists, h: Handle, who: Who)
    requires Inv(l) && h in l.live && (l.live[h].attached ==> who == RendererThread) && h !in l.picked
    ensures Inv(Release(l, h, who))
  {
    forall x: Handle
      ensures At(Release(l, h, who), x)
    {
      assert At(l, x);
      if l.live[h].refs == 1 {
        OccRemove(l.added, h, x);
        OccRemove(l.buffers, h, x);
        OccRemove(l.removed, h, x);
        var f := [Freed(h, l.live[h].attached, who)];
        FreedAppend(l.freed, f, x);
        assert FreedHandles(f) == [h];
      }
    }
  }

  lemma RemoveByIdKeepsInv(l: Lists, id: nat)
    requires Inv(l)
    ensures Inv(RemoveById(l, id))
  {
    var inAdded := FindById(l.live, l.added, id);
    if inAdded != [] {
      assert At(l, inAdded[0]);
      ReleaseKeepsInv(l, inAdded[0], MainThread);
    } else {
      var inBuffers := FindById(l.live, l.buffers, id);
      if inBuffers != [] {
        forall x: Handle
          ensures At(RemoveById(l, id), x)
        {
          assert At(l, x);
          OccRemove(l.buffers, inBuffers[0], x);
          OccConcat([inBuffers[0]], l.removed, x);
        }
      }
    }
  }

  /** Freeing a whole list logs each of its buffers once. */
  lemma LogOcc(l: Lists, hs: seq<Handle>, who: Who, h: Handle)
    requires forall x <- hs :: x in l.live
    ensures Occ(FreedHandles(l.freed + LogFreed(l.live, hs, who)), h) == Occ(FreedHandles(l.freed), h) + Occ(hs, h)
  {
    FreedAppend(l.freed, LogFreed(l.live, hs, who), h);
    assert FreedHandles(LogFreed(l.live, hs, who)) == hs;
  }

  lemma AllListedLive(l: Lists)
    requires Inv(l)
    ensures forall h <- l.added :: h in l.live && !l.live[h].attached
    ensures forall h <- l.buffers :: h in l.live && l.live[h].attached
    ensures forall h <- l.removed :: h in l.live && l.live[h].attached
  {
    forall h: Handle
      ensures h in l.added ==> h in l.live && !l.live[h].attached
      ensures h in l.buffers || h in l.removed ==> h in l.live && l.live[h].attached
    {
      assert At(l, h);
    }
  }

  lemma RemoveAllKeepsInv(l: Lists, who: Who)
    requires Inv(l)
    ensures (forall h <- l.added :: h in l.live) && Inv(RemoveAll(l, who))
  {
    AllListedLive(l);
    forall h: Handle
      ensures At(RemoveAll(l, who), h)
    {
      assert At(l, h);
      LogOcc(l, l.added, who, h);
      OccRev(l.buffers, h);
      OccConcat(Rev(l.buffers), l.removed, h);
    }
  }

  lemma AttachAllKeepsInv(l: Lists)
    requires Inv(l)
    ensures Inv(AttachAll(l))
  {
    forall h: Handle
      ensures At(AttachAll(l), h)
    {
      assert At(l, h);
      OccRev(l.added, h);
      OccConcat(Rev(l.added), l.buffers, h);
    }
  }

  lemma FindKeepsInv(l: Lists, id: nat)
    requires Inv(l)
    ensures Inv(Find(l, id))
  {
    AllListedLive(l);
    var inBuffers := FindById(l.live, l.buffers, id);
    var inAdded := FindById(l.live, l.added, id);
    forall h: Handle
      ensures At(Find(l, id), h)
    {
      assert At(l, h);
      if inBuffers == [] && inAdded != [] {
        OccRemove(l.added, inAdded[0], h);
        OccConcat([inAdded[0]], l.buffers, h);
      }
    }
  }

  lemma PickRootKeepsInv(l: Lists, id: nat)
    requires Inv(l)
    ensures Inv(PickRoot(l, id))
  {
    AllListedLive(l);
    forall h: Handle
      ensures At(PickRoot(l, id), h)
    {
      assert At(l, h);
    }
  }

  lemma ReleaseRemovedKeepsInv(l: Lists)
    requires Inv(l)
    ensures (forall h <- l.removed :: h in l.live) && Inv(ReleaseRemoved(l))
  {
    AllListedLive(l);
    forall h: Handle
      ensures At(ReleaseRemoved(l), h)
    {
      assert At(l, h);
      LogOcc(l, l.removed, RendererThread, h);
    }
  }

  // ---------------------------------------------------------------------- runs

  datatype Op =
    | OpAdd(h: Handle, id: nat, refs: nat)
    | OpRemove(id: nat)
    | OpRemoveAll(who: Who)
    | OpAttachAll
    | OpFind(id: nat)
    | OpPickRoot(id: nat)
    | OpReleaseRemoved

  ghost predicate Enabled(l: Lists, o: Op) {
    match o
    case OpAdd(h, _, refs) => h !in l.arrived && refs > 0
    case OpRemoveAll(_) => forall h <- l.added :: h in l.live
    case OpReleaseRemoved => forall h <- l.removed :: h in l.live
    case _ => true
  }

  ghost function Do(l: Lists, o: Op): Lists
    requires Enabled(l, o)
  {
    match o
    case OpAdd(h, id, refs) => Add(l, h, id, refs)
    case OpRemove(id) => RemoveById(l, id)
    case OpRemoveAll(who) => RemoveAll(l, who)
    case OpAttachAll => AttachAll(l)
    case OpFind(id) => Find(l, id)
    case OpPickRoot(id) => PickRoot(l, id)
    case OpReleaseRemoved => ReleaseRemoved(l)
  }

  ghost predicate Init(l: Lists) {
    l.added == [] && l.buffers == [] && l.removed == [] && l.live == map[] && l.freed == [] && l.arrived == {} && l.picked == {}
  }

  ghost predicate IsRun(ls: seq<Lists>, ops: seq<Op>) {
    && |ls| == |ops| + 1 && Init(ls[0])
    && forall i :: 0 <= i < |ops| ==> Enabled(ls[i], ops[i]) && ls[i + 1] == Do(ls[i], ops[i])
  }

  lemma StepKeepsInv(l: Lists, o: Op)
    requires Inv(l) && Enabled(l, o)
    ensures Inv(Do(l, o))
  {
    match o
    case OpAdd(h, id, refs) => AddKeepsInv(l, h, id, refs);
    case OpRemove(id) => RemoveByIdKeepsInv(l, id);
    case OpRemoveAll(who) => RemoveAllKeepsInv(l, who);
    case OpAttachAll => AttachAllKeepsInv(l);
    case OpFind(id) => FindKeepsInv(l, id);
    case OpPickRoot(id) => PickRootKeepsInv(l, id);
    case OpReleaseRemoved => ReleaseRemovedKeepsInv(l);
  }

  lemma InitInv(l: Lists)
    requires Init(l)
    ensures Inv(l)
  {
    forall h: Handle
      ensures At(l, h)
    {}
  }

  lemma {:induction false} RunKeepsInv(ls: seq<Lists>, ops: seq<Op>, n: nat)
    requires IsRun(ls, ops) && n < |ls|
    ensures Inv(ls[n])
  {
    if n == 0 {
      InitInv(ls[0]);
    } else {
      RunKeepsInv(ls, ops, n - 1);
      StepKeepsInv(ls[n - 1], ops[n - 1]);
    }
  }

  /**
    Buffer lifetime over every interleaving: the lists are disjoint and hold each live buffer once;
    no buffer is freed twice; attached buffers are freed by the renderer thread only; and what the
    current iteration picked is alive and attached.
   */
  lemma BufferLifetime(ls: seq<Lists>, ops: seq<Op>, n: nat)
    requires IsRun(ls, ops) && n < |ls|
    ensures var l := ls[n];
      && (forall h: Handle :: Occ(l.added, h) + Occ(l.buffers, h) + Occ(l.removed, h) == if h in l.live then 1 else 0)
      && (forall i, j :: 0 <= i < j < |l.freed| ==> l.freed[i].h != l.freed[j].h)
      && (forall h <- l.arrived :: h in l.live || exists f <- l.freed :: f.h == h)
      && (forall f <- l.freed :: f.h !in l.live && (f.attached ==> f.who == RendererThread))
      && (forall h <- l.picked :: h in l.live && (h in l.buffers || h in l.removed))
  {
    RunKeepsInv(ls, ops, n);
    var l := ls[n];
    var hs := FreedHandles(l.freed);
    forall h: Handle
      ensures Occ(l.added, h) + Occ(l.buffers, h) + Occ(l.removed, h) == if h in l.live then 1 else 0
      ensures h in l.picked ==> h in l.live && (h in l.buffers || h in l.removed)
    {
      assert At(l, h);
    }
    forall i, j | 0 <= i < j < |l.freed|
      ensures l.freed[i].h != l.freed[j].h
    {
      assert At(l, hs[i]);
      if hs[i] == hs[j] {
        OccTwice(hs, i, j);
      }
    }
    forall h <- l.arrived | h !in l.live
      ensures exists f <- l.freed :: f.h == h
    {
      assert At(l, h);
      var i :| 0 <= i < |hs| && hs[i] == h;
      assert l.freed[i] in l.freed;
    }
    forall f <- l.freed
      ensures f.h !in l.live
    {
      var i :| 0 <= i < |l.freed| && l.freed[i] == f;
      assert hs[i] == f.h && At(l, f.h);
    }
  }

  /** Between two release phases nothing picked is freed, whatever the main thread does. */
  lemma {:induction false} PickedStaysLive(ls: seq<Lists>, ops: seq<Op>, i: nat, j: nat, h: Handle)
    requires IsRun(ls, ops) && i <= j < |ls| && h in ls[i].picked
    requires forall k :: i <= k < j ==> !ops[k].OpReleaseRemoved?
    ensures h in ls[j].picked && h in ls[j].live
    decreases j - i
  {
    RunKeepsInv(ls, ops, j);
    assert At(ls[j], h);
    if i < j {
      PickedStaysLive(ls, ops, i, j - 1, h);
    }
  }

  /** The renderer's exit: removing everything and one release phase free every buffer that ever arrived. */
  lemma ShutdownFreesAll(l: Lists)
    requires Inv(l)
    ensures (forall h <- l.added :: h in l.live)
    ensures var m := RemoveAll(l, RendererThread);
      && (forall h <- m.removed :: h in m.live)
      && var r := ReleaseRemoved(m);
      r.live == map[] && forall h: Handle :: Occ(FreedHandles(r.freed), h) == if h in l.arrived then 1 else 0
  {
    RemoveAllKeepsInv(l, RendererThread);
    var m := RemoveAll(l, RendererThread);
    ReleaseRemovedKeepsInv(m);
    var r := ReleaseRemoved(m);
    forall h: Handle
      ensures h !in r.live
      ensures Occ(FreedHandles(r.freed), h) == if h in l.arrived then 1 else 0
    {
      assert At(r, h);
    }
  }

  /**
    A removal request takes effect at once exactly when the buffer does not sit on the added list
    with more than one reference, as it does when the sender's count was above one.
   */
  lemma RemoveTakesEffect(l: Lists, id: nat)
    requires Inv(l) && FindById(l.live, l.added, id) != []
    ensures var h := FindById(l.live, l.added, id)[0];
      && h in l.live
      && (h !in RemoveById(l, id).live <==> l.live[h].refs == 1)
      && (h !in RemoveById(l, id).added <==> l.live[h].refs == 1)
  {
    var h := FindById(l.live, l.added, id)[0];
    assert At(l, h);
    OccRemove(l.added, h, h);
  }

  // ------------------------------------------------------------- where a buffer is

  datatype Place = Gone | OnAdded | OnBuffers | OnRemoved

  ghost function PlaceOf(l: Lists, h: Handle): (p: Place) {
    if h in l.added then OnAdded else if h in l.buffers then OnBuffers else if h in l.removed then OnRemoved else Gone
  }

  /** A buffer has the id, and is in that place. */
  ghost predicate Stands(l: Lists, h: Handle, id: nat, p: Place) {
    h in l.live && l.live[h].id == id && PlaceOf(l, h) == p
  }

  /** Being on a list is occurring there, and there only. */
  lemma PlaceIs(l: Lists, h: Handle)
    requires At(l, h)
    ensures PlaceOf(l, h).Gone? <==> h !in l.live
    ensures PlaceOf(l, h).OnAdded? <==> Occ(l.added, h) == 1
    ensures PlaceOf(l, h).OnBuffers? <==> Occ(l.buffers, h) == 1
    ensures PlaceOf(l, h).OnRemoved? <==> Occ(l.removed, h) == 1
  {}

  /** The place of every other buffer stays. */
  ghost predicate OthersStay(l: Lists, r: Lists, h: Handle) {
    forall x: Handle :: x != h ==> PlaceOf(r, x) == PlaceOf(l, x)
  }

  lemma Listed(l: Lists, id: nat)
    requires Inv(l)
    ensures FindById(l.live, l.added, id) != [] <==> exists h :: Stands(l, h, id, OnAdded)
    ensures FindById(l.live, l.buffers, id) != [] <==> exists h :: Stands(l, h, id, OnBuffers)
    ensures forall h <- FindById(l.live, l.added, id) :: Stands(l, h, id, OnAdded)
    ensures forall h <- FindById(l.live, l.buffers, id) :: Stands(l, h, id, OnBuffers)
  {
    forall h: Handle
      ensures h in l.added <==> PlaceOf(l, h).OnAdded?
      ensures h in l.buffers <==> PlaceOf(l, h).OnBuffers?
    {
      assert At(l, h);
    }
    AllListedLive(l);
    var a, b := FindById(l.live, l.added, id), FindById(l.live, l.buffers, id);
    if a != [] {
      assert Stands(l, a[0], id, OnAdded);
    }
    if b != [] {
      assert Stands(l, b[0], id, OnBuffers);
    }
  }

  /** A buffer that arrives is on the added list, with its id and its references, and not attached. */
  lemma AddArrives(l: Lists, h: Handle, id: nat, refs: nat)
    requires Inv(l) && h !in l.arrived && refs > 0
    ensures var r := Add(l, h, id, refs);
      Stands(r, h, id, OnAdded) && r.live[h].refs == refs && !r.live[h].attached && OthersStay(l, r, h)
  {
    assert At(l, h);
  }

  /** Removing an attached buffer: one with the id goes from the buffers to the removed ones and stays live; nothing else
      moves, and nothing is freed. */
  lemma RemoveHandsOver(l: Lists, id: nat) returns (h: Handle)
    requires Inv(l) && !(exists x :: Stands(l, x, id, OnAdded)) && exists x :: Stands(l, x, id, OnBuffers)
    ensures var r := RemoveById(l, id);
      && Stands(l, h, id, OnBuffers) && Stands(r, h, id, OnRemoved) && OthersStay(l, r, h)
      && r.live == l.live && r.freed == l.freed
  {
    Listed(l, id);
    h := FindById(l.live, l.buffers, id)[0];
    var r := RemoveById(l, id);
    forall x: Handle
      ensures PlaceOf(r, x) == if x == h then OnRemoved else PlaceOf(l, x)
    {
      assert At(l, x);
      OccRemove(l.buffers, h, x);
    }
  }

  /** Removing an id no listed buffer has changes nothing. */
  lemma RemoveOfUnknown(l: Lists, id: nat)
    requires Inv(l) && forall x :: !Stands(l, x, id, OnAdded) && !Stands(l, x, id, OnBuffers)
    ensures RemoveById(l, id) == l
  {
    Listed(l, id);
  }

  /** Attaching moves exactly the added buffers, and all of them. */
  lemma AttachMovesAll(l: Lists, h: Handle)
    requires Inv(l)
    ensures var r := AttachAll(l);
      && r.live.Keys == l.live.Keys && r.removed == l.removed
      && PlaceOf(r, h) == (if PlaceOf(l, h).OnAdded? then OnBuffers else PlaceOf(l, h))
      && (h in l.live ==> r.live[h].id == l.live[h].id && r.live[h].attached)
  {
    assert At(l, h);
    AttachAllKeepsInv(l);
    assert At(AttachAll(l), h);
    OccRev(l.added, h);
    OccConcat(Rev(l.added), l.buffers, h);
  }

  /** A lookup finds a buffer exactly when one that is added or attached has the id; then it is picked and attached, and
      no other buffer moves. */
  lemma FindAttaches(l: Lists, id: nat)
    requires Inv(l)
    ensures var r := Find(l, id);
      if exists x :: Stands(l, x, id, OnAdded) || Stands(l, x, id, OnBuffers)
      then exists h :: Stands(r, h, id, OnBuffers) && r.live[h].attached && r.picked == l.picked + {h} && OthersStay(l, r, h)
      else r == l
  {
    Listed(l, id);
    AllListedLive(l);
    var r, a, b := Find(l, id), FindById(l.live, l.added, id), FindById(l.live, l.buffers, id);
    if b != [] {
      assert Stands(r, b[0], id, OnBuffers) && OthersStay(l, r, b[0]);
    } else if a != [] {
      forall x: Handle
        ensures PlaceOf(r, x) == if x == a[0] then OnBuffers else PlaceOf(l, x)
      {
        assert At(l, x);
        OccRemove(l.added, a[0], x);
      }
      assert Stands(r, a[0], id, OnBuffers) && OthersStay(l, r, a[0]);
    }
  }

  /** The root texture is picked where it is: among the attached buffers, else among the removed ones. */
  lemma RootIsPicked(l: Lists, id: nat)
    requires Inv(l)
    ensures var r := PickRoot(l, id);
      && r == l.(picked := r.picked)
      && ((exists x :: Stands(l, x, id, OnBuffers)) ==> exists h :: Stands(l, h, id, OnBuffers) && r.picked == l.picked + {h})
      && (!(exists x :: Stands(l, x, id, OnBuffers)) && (exists x :: Stands(l, x, id, OnRemoved)) ==>
            exists h :: Stands(l, h, id, OnRemoved) && r.picked == l.picked + {h})
  {
    Listed(l, id);
    AllListedLive(l);
    forall h: Handle
      ensures h in l.removed <==> PlaceOf(l, h).OnRemoved?
    {
      assert At(l, h);
    }
    var b, c := FindById(l.live, l.buffers, id), FindById(l.live, l.removed, id);
    if b != [] {
      assert Stands(l, b[0], id, OnBuffers);
    } else if c != [] {
      assert Stands(l, c[0], id, OnRemoved);
    }
  }

  /** Removing everything: what is not attached goes at once, what is attached is handed over. */
  lemma RemoveAllPlaces(l: Lists, who: Who, h: Handle)
    requires Inv(l)
    ensures forall x <- l.added :: x in l.live
    ensures PlaceOf(RemoveAll(l, who), h) == match PlaceOf(l, h)
      case Gone => Gone
      case OnAdded => Gone
      case OnBuffers => OnRemoved
      case OnRemoved => OnRemoved
  {
    RemoveAllKeepsInv(l, who);
    assert At(l, h) && At(RemoveAll(l, who), h);
    OccRev(l.buffers, h);
    OccConcat(Rev(l.buffers), l.removed, h);
  }

  /** The release phase frees exactly the removed buffers, each logged once and by the renderer thread. */
  lemma ReleasePlaces(l: Lists, h: Handle)
    requires Inv(l)
    ensures forall x <- l.removed :: x in l.live
    ensures var r := ReleaseRemoved(l);
      && PlaceOf(r, h) == (if PlaceOf(l, h).OnRemoved? then Gone else PlaceOf(l, h))
      && (PlaceOf(l, h).OnRemoved? ==> h !in r.live && Freed(h, true, RendererThread) in r.freed && Occ(FreedHandles(r.freed), h) == 1)
  {
    ReleaseRemovedKeepsInv(l);
    AllListedLive(l);
    var r := ReleaseRemoved(l);
    assert At(l, h) && At(r, h);
    if h in l.removed && h !in l.added && h !in l.buffers {
      var i :| 0 <= i < |l.removed| && l.removed[i] == h;
      assert LogFreed(l.live, l.removed, RendererThread)[i] == Freed(h, true, RendererThread);
    }
  }

  /** Only the release phase takes a buffer off the removed list. */
  lemma RemovedStays(l: Lists, o: Op, h: Handle)
    requires Inv(l) && Enabled(l, o) && !o.OpReleaseRemoved? && PlaceOf(l, h).OnRemoved?
    ensures PlaceOf(Do(l, o), h).OnRemoved?
  {
    StepKeepsInv(l, o);
    assert At(l, h) && At(Do(l, o), h);
    assert h in Do(l, o).removed by {
      match o
      case OpRemove(id) => RemoveKeepsRemoved(l, id, h);
      case OpRemoveAll(who) => RemoveAllPlaces(l, who, h);
      case _ =>
    }
  }

  lemma RemoveKeepsRemoved(l: Lists, id: nat, h: Handle)
    requires Inv(l) && PlaceOf(l, h).OnRemoved?
    ensures h in RemoveById(l, id).removed
  {
    var a := FindById(l.live, l.added, id);
    if a != [] {
      assert At(l, a[0]) && At(l, h);
      OccRemove(l.removed, a[0], h);
    }
  }

  lemma {:induction false} RemovedWaits(ls: seq<Lists>, ops: seq<Op>, i: nat, j: nat, h: Handle)
    requires IsRun(ls, ops) && i <= j < |ls| && PlaceOf(ls[i], h).OnRemoved?
    requires forall k :: i <= k < j ==> !ops[k].OpReleaseRemoved?
    ensures PlaceOf(ls[j], h).OnRemoved?
    decreases j - i
  {
    if i < j {
      RemovedWaits(ls, ops, i, j - 1, h);
      RunKeepsInv(ls, ops, j - 1);
      RemovedStays(ls[j - 1], ops[j - 1], h);
    }
  }

  /** Over runs: a removal of an attached buffer, the only one with its id, and the next release phase free it, whatever
      happens in between. */
  lemma RemovalFrees(ls: seq<Lists>, ops: seq<Op>, i: nat, j: nat, h: Handle, id: nat)
    requires IsRun(ls, ops) && i < j < |ops| && ops[i] == OpRemove(id) && ops[j].OpReleaseRemoved?
    requires forall k :: i < k < j ==> !ops[k].OpReleaseRemoved?
    requires Stands(ls[i], h, id, OnBuffers) && forall x :: x in ls[i].live && ls[i].live[x].id == id ==> x == h
    ensures h in ls[j].live && h !in ls[j + 1].live
    ensures Freed(h, true, RendererThread) in ls[j + 1].freed && Occ(FreedHandles(ls[j + 1].freed), h) == 1
  {
    RunKeepsInv(ls, ops, i);
    assert forall x :: !Stands(ls[i], x, id, OnAdded);
    var g := RemoveHandsOver(ls[i], id);
    assert g == h;
    RemovedWaits(ls, ops, i + 1, j, h);
    RunKeepsInv(ls, ops, j);
    assert At(ls[j], h);
    ReleasePlaces(ls[j], h);
  }
}
