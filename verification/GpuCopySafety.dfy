/**
  What every run of the GPU copy protocol keeps: the ring is a FIFO, completion is only reported
  after a fence, references are conserved, and CPU accesses never overlap a conflicting copy.
 */
module GpuCopySafety {
  import opened GpuCopyProtocol

  // ------------------------------------------------------------- the shared mutex

  function LockedCount(open: seq<Access>): (n: nat) {
    if open == [] then 0 else (if open[0].locked then 1 else 0) + LockedCount(open[1..])
  }

  lemma {:induction false} LockedCountConcat(xs: seq<Access>, ys: seq<Access>)
    ensures LockedCount(xs + ys) == LockedCount(xs) + LockedCount(ys)
  {
    if xs == [] {
      assert xs + ys == ys;
    } else {
      LockedCountConcat(xs[1..], ys);
      assert (xs + ys)[1..] == xs[1..] + ys;
    }
  }

  lemma LockedCountWithout(open: seq<Access>, i: nat)
    requires i < |open|
    ensures LockedCount(Without(open, i)) == LockedCount(open) - (if open[i].locked then 1 else 0)
  {
    LockedCountConcat(open[..i], open[i + 1..]);
    LockedCountConcat(open[..i], open[i..]);
    assert open == open[..i] + open[i..];
    assert open[i..][1..] == open[i + 1..];
  }

  /**
    Lock balance: the server's recursion depth is the number of open accesses that locked, plus the
    failed ones, and every open access would make the same locking decision again when it finishes.
   */
  ghost predicate AccessInv(cfg: Config, s: State) {
    && (s.lock.Renderer? <==> !s.ren.Asleep?)
    && (!s.pc.Idle? ==> s.open == [])
    && (forall a <- s.open :: a.pixmap in s.mem.pixmaps && !(a.pixmap == cfg.screen && a.index == AuxDest))
    && (forall a <- s.open :: a.locked == NeedsGpuLock(cfg, s.mem, a.pixmap, a.index))
    && (if s.lock.Server? then s.lock.depth > 0 && s.lock.depth == LockedCount(s.open) + s.leaked
        else LockedCount(s.open) + s.leaked == 0)
  }

  lemma PrepareKeepsAccess(cfg: Config, s: State, p: Id, i: Index, ok: bool)
    requires Enabled(cfg, s, Prepare(p, i, ok)) && AccessInv(cfg, s)
    ensures AccessInv(cfg, Do(cfg, s, Prepare(p, i, ok)))
  {
    LockedCountConcat(s.open, [Access(p, i, NeedsGpuLock(cfg, s.mem, p, i))]);
  }

  lemma FinishKeepsAccess(cfg: Config, s: State, i: nat)
    requires Enabled(cfg, s, Finish(i)) && AccessInv(cfg, s)
    ensures AccessInv(cfg, Do(cfg, s, Finish(i)))
    ensures if s.open[i].locked then s.lock.Server? else Do(cfg, s, Finish(i)).lock == s.lock
  {
    LockedCountWithout(s.open, i);
    assert s.open[i] in s.open;
  }

  lemma CreateKeepsAccess(cfg: Config, s: State, id: Id, h: bool)
    requires Enabled(cfg, s, CreatePixmap(id, h)) && AccessInv(cfg, s)
    ensures AccessInv(cfg, Do(cfg, s, CreatePixmap(id, h)))
  {}

  lemma ServerKeepsAccess(cfg: Config, s: State, a: Action)
    requires Enabled(cfg, s, a) && AccessInv(cfg, s)
    requires a.DestroyPixmap? || a.Convert? || a.Snapshot? || a.GiveUp? || a.Hold? || a.Scribble? || a.Fill? || a.Publish? || a.Ack?
    ensures AccessInv(cfg, Do(cfg, s, a))
  {
    assert s.open == [] && Do(cfg, s, a).open == [];
  }

  lemma RendererKeepsAccess(cfg: Config, s: State, a: Action)
    requires Enabled(cfg, s, a) && AccessInv(cfg, s) && IsRendererStep(a)
    ensures AccessInv(cfg, Do(cfg, s, a))
  {
    var t := Do(cfg, s, a);
    assert t.open == s.open && t.mem == s.mem && t.leaked == s.leaked && t.pc == s.pc;
  }

  predicate IsRendererStep(a: Action) {
    || a.TakeLock? || a.LoadIndex? || a.ReadHead? || a.ReadBody? || a.Advance?
    || a.DrawRoot? || a.WaitFence? || a.PublishSerial? || a.DropLock?
  }

  lemma StepKeepsAccess(cfg: Config, s: State, a: Action)
    requires Enabled(cfg, s, a) && AccessInv(cfg, s)
    ensures AccessInv(cfg, Do(cfg, s, a))
  {
    if a.Prepare? {
      PrepareKeepsAccess(cfg, s, a.pixmap, a.index, a.ok);
    } else if a.Finish? {
      FinishKeepsAccess(cfg, s, a.which);
    } else if a.CreatePixmap? {
      CreateKeepsAccess(cfg, s, a.id, a.hardware);
    } else if IsRendererStep(a) {
      RendererKeepsAccess(cfg, s, a);
    } else {
      ServerKeepsAccess(cfg, s, a);
    }
  }

  // --------------------------------------------------------- ring and completion

  ghost predicate ProducerInv(s: State) {
    match s.pc
    case Idle => true
    case Snapped(_, w, r, at) =>
      w == s.q.writeIndex && r == at % U32 && at <= s.q.drained && |s.q.scheduled| <= at + CAPACITY
    case Held(_) => |s.q.scheduled| < s.q.drained + CAPACITY
    case Filled(e) =>
      && |s.q.scheduled| < s.q.drained + CAPACITY
      && |s.q.slots| == CAPACITY && s.q.slots[s.q.writeIndex % CAPACITY] == e
  }

  ghost predicate SerialInv(s: State) {
    && (forall k :: 0 <= k < |s.q.scheduled| ==> s.q.scheduled[k].serial == k + 1)
    && s.counter == |s.q.scheduled| + (if s.pc.Filled? then 1 else 0)
    && (s.pc.Held? || s.pc.Filled? ==> s.pc.e.serial == |s.q.scheduled| + 1)
  }

  /** The renderer between taking the lock and its fence: nothing of this batch is reported yet. */
  ghost predicate Draining(s: State, last: nat) {
    && s.completed == s.fenced <= s.q.drained
    && last == (if s.q.drained > s.fenced then s.q.drained else 0)
  }

  ghost predicate RendererInv(s: State) {
    && s.q.drained <= |s.q.scheduled|
    && match s.ren
       case Asleep => s.completed == s.fenced == s.q.drained
       case Finished => s.completed == s.fenced == s.q.drained
       case Loop(_, last) => Draining(s, last)
       case LoopDone(_, last) => Draining(s, last)
       case RootDrawn(last) => Draining(s, last)
       case Copying(_, last) => Draining(s, last) && s.q.drained < |s.q.scheduled|
       case GotHead(_, last, serial, src, dst) =>
         && Draining(s, last) && s.q.drained < |s.q.scheduled|
         && var e := s.q.scheduled[s.q.drained]; serial == e.serial && src == e.src && dst == e.dst
       case Got(_, last, e) =>
         Draining(s, last) && s.q.drained < |s.q.scheduled| && e == s.q.scheduled[s.q.drained]
       case Fenced(last) =>
         && s.fenced == s.q.drained
         && (if last == 0 then s.completed == s.q.drained else last == s.q.drained && s.completed <= s.q.drained)
  }

  ghost predicate QueueRunInv(s: State) {
    QueueInv(s.q) && ProducerInv(s) && SerialInv(s) && RendererInv(s)
  }

  lemma ServerStepKeepsQueue(cfg: Config, s: State, a: Action)
    requires Enabled(cfg, s, a) && QueueRunInv(s)
    requires a.Snapshot? || a.GiveUp? || a.Hold? || a.Scribble? || a.Fill? || a.Publish?
    ensures QueueRunInv(Do(cfg, s, a))
  {
    match a
    case Snapshot(_) =>
    case GiveUp =>
    case Hold => IndexTests(s.q, s.pc.at);
    case Scribble(junk) => StoreKeepsUnread(s.q, junk);
    case Fill => StoreKeepsUnread(s.q, s.pc.e);
    case Publish => PublishIsEnqueue(s.q, s.pc.e);
  }

  lemma OtherServerStepKeepsQueue(cfg: Config, s: State, a: Action)
    requires Enabled(cfg, s, a) && QueueRunInv(s)
    requires a.CreatePixmap? || a.DestroyPixmap? || a.Convert? || a.Ack? || a.Prepare? || a.Finish?
    ensures QueueRunInv(Do(cfg, s, a))
  {}

  lemma DrainStepKeepsQueue(cfg: Config, s: State, a: Action)
    requires Enabled(cfg, s, a) && QueueRunInv(s)
    requires a.LoadIndex? || a.ReadHead? || a.ReadBody? || a.Advance?
    ensures QueueRunInv(Do(cfg, s, a))
  {
    match a
    case LoadIndex => IndexTests(s.q, s.q.drained);
    case ReadHead => AdvanceIsDequeue(s.q);
    case ReadBody => AdvanceIsDequeue(s.q);
    case Advance => AdvanceIsDequeue(s.q);
  }

  lemma FenceStepKeepsQueue(cfg: Config, s: State, a: Action)
    requires Enabled(cfg, s, a) && QueueRunInv(s)
    requires a.TakeLock? || a.DrawRoot? || a.WaitFence? || a.PublishSerial? || a.DropLock?
    ensures QueueRunInv(Do(cfg, s, a))
  {
    var t := Do(cfg, s, a);
    assert t.q == s.q && t.pc == s.pc && t.counter == s.counter;
  }

  lemma StepKeepsQueue(cfg: Config, s: State, a: Action)
    requires Enabled(cfg, s, a) && QueueRunInv(s)
    ensures QueueRunInv(Do(cfg, s, a))
  {
    if a.Snapshot? || a.GiveUp? || a.Hold? || a.Scribble? || a.Fill? || a.Publish? {
      ServerStepKeepsQueue(cfg, s, a);
    } else if a.CreatePixmap? || a.DestroyPixmap? || a.Convert? || a.Ack? || a.Prepare? || a.Finish? {
      OtherServerStepKeepsQueue(cfg, s, a);
    } else if a.LoadIndex? || a.ReadHead? || a.ReadBody? || a.Advance? {
      DrainStepKeepsQueue(cfg, s, a);
    } else {
      FenceStepKeepsQueue(cfg, s, a);
    }
  }

  lemma {:induction false} RunKeepsQueue(cfg: Config, ss: seq<State>, acts: seq<Action>, n: nat)
    requires IsRun(cfg, ss, acts) && n < |ss|
    ensures QueueRunInv(ss[n]) && AccessInv(cfg, ss[n])
  {
    if n > 0 {
      RunKeepsQueue(cfg, ss, acts, n - 1);
      StepKeepsQueue(cfg, ss[n - 1], acts[n - 1]);
      StepKeepsAccess(cfg, ss[n - 1], acts[n - 1]);
    }
  }

  // ----------------------------------------------------------------- theorems

  /** The entries the server published and the entries the renderer drained, in order, over the first n steps. */
  function Published(ss: seq<State>, acts: seq<Action>, n: nat): (r: seq<Entry>)
    requires n <= |acts| && |ss| == |acts| + 1
  {
    if n == 0 then []
    else if acts[n - 1].Publish? && ss[n - 1].pc.Filled? then Published(ss, acts, n - 1) + [ss[n - 1].pc.e]
    else Published(ss, acts, n - 1)
  }

  function Drained(ss: seq<State>, acts: seq<Action>, n: nat): (r: seq<Entry>)
    requires n <= |acts| && |ss| == |acts| + 1
  {
    if n == 0 then []
    else if acts[n - 1].Advance? && ss[n - 1].ren.Got? then Drained(ss, acts, n - 1) + [ss[n - 1].ren.e]
    else Drained(ss, acts, n - 1)
  }

  /** How one step moves the histories. */
  lemma StepHistory(cfg: Config, s: State, a: Action)
    requires Enabled(cfg, s, a) && QueueRunInv(s)
    ensures var s' := Do(cfg, s, a);
      && s'.q.scheduled == (if a.Publish? then s.q.scheduled + [s.pc.e] else s.q.scheduled)
      && s'.q.drained == (if a.Advance? then s.q.drained + 1 else s.q.drained)
      && (a.Advance? ==> s.q.drained < |s.q.scheduled| && s.ren.e == s.q.scheduled[s.q.drained])
      && s.completed <= s'.completed
  {}

  lemma HistoryStep(was: Queue, now: Queue, published: seq<Entry>, drained: seq<Entry>, e: Entry)
    requires was.drained <= |was.scheduled| && was.scheduled == published && drained == published[..was.drained]
    ensures now.scheduled == was.scheduled + [e] && now.drained == was.drained ==>
      now.scheduled == published + [e] && drained == (published + [e])[..now.drained]
    ensures now.scheduled == was.scheduled && now.drained == was.drained + 1 <= |was.scheduled| && e == was.scheduled[was.drained] ==>
      drained + [e] == published[..now.drained]
  {}

  lemma {:induction false} HistoryIsRun(cfg: Config, ss: seq<State>, acts: seq<Action>, n: nat)
    requires IsRun(cfg, ss, acts) && n <= |acts|
    ensures ss[n].q.scheduled == Published(ss, acts, n)
    ensures |Drained(ss, acts, n)| == ss[n].q.drained <= |Published(ss, acts, n)|
    ensures Drained(ss, acts, n) == Published(ss, acts, n)[..ss[n].q.drained]
  {
    if n > 0 {
      HistoryIsRun(cfg, ss, acts, n - 1);
      RunKeepsQueue(cfg, ss, acts, n - 1);
      var s, a := ss[n - 1], acts[n - 1];
      StepHistory(cfg, s, a);
      if a.Publish? {
        HistoryStep(s.q, ss[n].q, Published(ss, acts, n - 1), Drained(ss, acts, n - 1), s.pc.e);
      } else if a.Advance? {
        HistoryStep(s.q, ss[n].q, Published(ss, acts, n - 1), Drained(ss, acts, n - 1), s.ren.e);
      }
    }
  }

  /**
    Ring refinement, over every interleaving and across 32-bit wrap-around: what was drained is a
    prefix of what was published, and at most eight copies wait.
   */
  lemma RingRefinesFifo(cfg: Config, ss: seq<State>, acts: seq<Action>)
    requires IsRun(cfg, ss, acts)
    ensures Drained(ss, acts, |acts|) <= Published(ss, acts, |acts|)
    ensures |Published(ss, acts, |acts|)| <= |Drained(ss, acts, |acts|)| + CAPACITY
  {
    HistoryIsRun(cfg, ss, acts, |acts|);
    RunKeepsQueue(cfg, ss, acts, |acts|);
  }

  lemma StepKeepsSlot(cfg: Config, s: State, a: Action, i: nat)
    requires Enabled(cfg, s, a) && QueueRunInv(s) && s.q.drained <= i < |s.q.scheduled|
    ensures |Do(cfg, s, a).q.slots| == CAPACITY && Do(cfg, s, a).q.slots[i % CAPACITY] == s.q.slots[i % CAPACITY]
  {
    if a.Scribble? || a.Fill? {
      IndexSlot(|s.q.scheduled|);
      SameSlot(i, |s.q.scheduled|);
    }
  }

  /** No step of a run touches a slot that holds an unread copy, except to drain it. */
  lemma UnreadSlotsUntouched(cfg: Config, ss: seq<State>, acts: seq<Action>, n: nat, i: nat)
    requires IsRun(cfg, ss, acts) && n < |acts|
    requires ss[n].q.drained <= i < |ss[n].q.scheduled|
    ensures |ss[n].q.slots| == |ss[n + 1].q.slots| == CAPACITY
    ensures ss[n].q.slots[i % CAPACITY] == ss[n].q.scheduled[i] == ss[n + 1].q.slots[i % CAPACITY]
  {
    RunKeepsQueue(cfg, ss, acts, n);
    StepKeepsSlot(cfg, ss[n], acts[n], i);
  }

  /** completedSerial never decreases, and is the last drained serial whenever the renderer is not holding the lock. */
  lemma {:induction false} CompletedMonotone(cfg: Config, ss: seq<State>, acts: seq<Action>, i: nat, j: nat)
    requires IsRun(cfg, ss, acts) && i <= j < |ss|
    ensures ss[i].completed <= ss[j].completed
    ensures !ss[j].lock.Renderer? ==>
      ss[j].completed == ss[j].q.drained <= |ss[j].q.scheduled|
      && (ss[j].q.drained > 0 ==> ss[j].completed == ss[j].q.scheduled[ss[j].q.drained - 1].serial)
    decreases j - i
  {
    RunKeepsQueue(cfg, ss, acts, j);
    if i < j {
      RunKeepsQueue(cfg, ss, acts, j - 1);
      StepHistory(cfg, ss[j - 1], acts[j - 1]);
      CompletedMonotone(cfg, ss, acts, i, j - 1);
    }
  }

  /**
    Completion safety: once a serial is reported done, some fence was waited for at a moment when
    the copy with that serial and all earlier ones had been drained.
   */
  lemma {:induction false} CompletionSafety(cfg: Config, ss: seq<State>, acts: seq<Action>, n: nat, serial: nat)
    requires IsRun(cfg, ss, acts) && n < |ss|
    requires 0 < serial && IsDone(ss[n], serial)
    ensures serial <= |ss[n].q.scheduled| && ss[n].q.scheduled[serial - 1].serial == serial
    ensures exists j :: 0 <= j < n && acts[j].WaitFence? && serial <= ss[j].q.drained
  {
    RunKeepsQueue(cfg, ss, acts, n);
    FenceBefore(cfg, ss, acts, n, serial);
  }

  lemma {:induction false} FenceBefore(cfg: Config, ss: seq<State>, acts: seq<Action>, n: nat, k: nat)
    requires IsRun(cfg, ss, acts) && n < |ss|
    requires 0 < k <= ss[n].fenced
    ensures exists j :: 0 <= j < n && acts[j].WaitFence? && k <= ss[j].q.drained
  {
    if ss[n - 1].fenced >= k {
      FenceBefore(cfg, ss, acts, n - 1, k);
    } else {
      assert acts[n - 1].WaitFence?;
    }
  }
}
