/**
  Stretches of steps of the GPU copy protocol, for any property of states that the steps keep.
 */
module GpuCopyWalks {
  import opened GpuCopyProtocol
  import opened GpuCopySafety

  ghost predicate RendererKeepsAt(cfg: Config, inv: State -> bool, t: State, a: Action) {
    inv(t) && Enabled(cfg, t, a) && IsRendererStep(a) ==> inv(Do(cfg, t, a))
  }

  ghost predicate KeptByRenderer(cfg: Config, inv: State -> bool) {
    forall t: State, a: Action :: RendererKeepsAt(cfg, inv, t, a)
  }

  /** What a drain does not change. */
  predicate SameServer(s: State, t: State) {
    t.pc == s.pc && t.counter == s.counter && t.open == s.open && t.mem == s.mem && t.outstanding == s.outstanding
    && t.q.scheduled == s.q.scheduled
  }

  lemma Move(cfg: Config, inv: State -> bool, t: State, a: Action) returns (u: State)
    requires KeptByRenderer(cfg, inv) && inv(t) && Enabled(cfg, t, a) && IsRendererStep(a)
    ensures u == Do(cfg, t, a) && inv(u) && SameServer(t, u)
  {
    assert RendererKeepsAt(cfg, inv, t, a);
    u := Do(cfg, t, a);
  }

  /** One turn of the renderer's drain loop. */
  lemma DrainOne(cfg: Config, inv: State -> bool, t: State) returns (u: State)
    requires KeptByRenderer(cfg, inv) && inv(t) && QueueInv(t.q) && t.ren.Loop? && t.q.drained < |t.q.scheduled|
    ensures inv(u) && QueueInv(u.q) && u.ren.Loop? && u.ren.redraw == t.ren.redraw
    ensures SameServer(t, u) && u.q.drained == t.q.drained + 1 && u.fenced == t.fenced && u.completed == t.completed
  {
    IndexTests(t.q, t.q.drained);
    AdvanceIsDequeue(t.q);
    u := Move(cfg, inv, t, LoadIndex);
    u := Move(cfg, inv, u, ReadHead);
    u := Move(cfg, inv, u, ReadBody);
    u := Move(cfg, inv, u, Advance);
  }

  lemma {:induction false} DrainTo(cfg: Config, inv: State -> bool, t: State, k: nat) returns (u: State)
    requires KeptByRenderer(cfg, inv) && inv(t) && QueueInv(t.q) && t.ren.Loop? && t.q.drained <= k <= |t.q.scheduled|
    ensures inv(u) && QueueInv(u.q) && u.ren.Loop? && u.ren.redraw == t.ren.redraw
    ensures SameServer(t, u) && u.q.drained == k && u.fenced == t.fenced && u.completed == t.completed
    decreases k - t.q.drained
  {
    u := t;
    if t.q.drained < k {
      u := DrainOne(cfg, inv, t);
      u := DrainTo(cfg, inv, u, k);
    }
  }

  /** The end of a drain that has emptied the ring: fence, report, unlock. */
  lemma Report(cfg: Config, inv: State -> bool, t: State) returns (u: State)
    requires KeptByRenderer(cfg, inv) && inv(t) && QueueInv(t.q) && t.ren.Loop? && !t.ren.redraw && t.ren.last != 0
    requires t.q.drained == |t.q.scheduled|
    ensures inv(u) && u.ren.Asleep? && u.lock.Free? && SameServer(t, u) && u.q == t.q
  {
    IndexTests(t.q, t.q.drained);
    u := Move(cfg, inv, t, LoadIndex);
    u := Move(cfg, inv, u, WaitFence);
    u := Move(cfg, inv, u, PublishSerial);
    u := Move(cfg, inv, u, DropLock);
  }

  predicate IsSchedulingStep(a: Action) {
    a.Snapshot? || a.Hold? || a.Fill? || a.Publish?
  }

  ghost predicate SchedulingKeepsAt(cfg: Config, inv: State -> bool, t: State, a: Action) {
    inv(t) && Enabled(cfg, t, a) && IsSchedulingStep(a) ==> inv(Do(cfg, t, a))
  }

  ghost predicate KeptByScheduling(cfg: Config, inv: State -> bool) {
    forall t: State, a: Action :: SchedulingKeepsAt(cfg, inv, t, a)
  }

  lemma Go(cfg: Config, inv: State -> bool, t: State, a: Action) returns (u: State)
    requires KeptByScheduling(cfg, inv) && inv(t) && Enabled(cfg, t, a) && IsSchedulingStep(a)
    ensures u == Do(cfg, t, a) && inv(u)
  {
    assert SchedulingKeepsAt(cfg, inv, t, a);
    u := Do(cfg, t, a);
  }

  /** A request that finds room is held, filled in and published without interference. */
  lemma ScheduleOne(cfg: Config, inv: State -> bool, s: State, req: Request) returns (u: State)
    requires KeptByScheduling(cfg, inv) && inv(s) && QueueInv(s.q) && |s.q.scheduled| < s.q.drained + CAPACITY
    requires Enabled(cfg, s, Snapshot(req))
    ensures inv(u) && u.pc.Idle? && u.open == s.open && u.lock == s.lock && u.ren == s.ren
    ensures var e := MakeEntry(req, s.counter + 1);
      && u.q.drained == s.q.drained && u.q.scheduled == s.q.scheduled + [e] && u.outstanding == s.outstanding + [e]
      && u.mem == HoldFor(cfg, s.mem, req.src, req.dst)
  {
    IndexTests(s.q, s.q.drained);
    u := Go(cfg, inv, s, Snapshot(req));
    u := Go(cfg, inv, u, Hold);
    u := Go(cfg, inv, u, Fill);
    u := Go(cfg, inv, u, Publish);
  }
}
