/**
  A run of the GPU copy protocol on which a buffer's 16-bit reference count wraps around: the buffer is freed while its
  pixmap and tens of thousands of unacknowledged copies still use it.
 */
module GpuCopyOverflow {
  import opened GpuCopyProtocol
  import opened GpuCopySafety
  import opened GpuCopyRefs
  import opened GpuCopyWalks

  ghost predicate Joins(cfg: Config, s0: State, ss: seq<State>, acts: seq<Action>, s: State) {
    IsRun(cfg, ss, acts) && ss[0] == s0 && ss[|acts|] == s
  }

  /** A state of some run, with what every run keeps. */
  ghost predicate Reached(cfg: Config, s0: State, s: State) {
    QueueRunInv(s) && AccessInv(cfg, s) && RefInv(cfg, s) && exists ss, acts :: Joins(cfg, s0, ss, acts, s)
  }

  lemma StepRuns(cfg: Config, s0: State, s: State, a: Action)
    requires (exists ss, acts :: Joins(cfg, s0, ss, acts, s)) && Enabled(cfg, s, a)
    ensures exists ss, acts :: Joins(cfg, s0, ss, acts, Do(cfg, s, a))
  {
    var ss, acts :| Joins(cfg, s0, ss, acts, s);
    assert Joins(cfg, s0, ss + [Do(cfg, s, a)], acts + [a], Do(cfg, s, a));
  }

  /** A step that takes no reference back. */
  lemma Step(cfg: Config, s0: State, s: State, a: Action)
    requires Reached(cfg, s0, s) && Enabled(cfg, s, a) && !a.DestroyPixmap? && !a.Convert? && !a.Ack?
    ensures Reached(cfg, s0, Do(cfg, s, a))
  {
    StepRuns(cfg, s0, s, a);
    StepKeepsQueue(cfg, s, a);
    StepKeepsAccess(cfg, s, a);
    if a.CreatePixmap? {
      CreateKeepsRefs(cfg, s, a.id, a.hardware);
    } else if a.Hold? {
      HoldKeepsRefs(cfg, s);
    } else {
      OtherStepKeepsRefs(cfg, s, a);
    }
  }

  lemma BothKeep(cfg: Config, s0: State)
    ensures KeptByRenderer(cfg, s => Reached(cfg, s0, s)) && KeptByScheduling(cfg, s => Reached(cfg, s0, s))
  {
    var inv := s => Reached(cfg, s0, s);
    forall t: State, a: Action
      ensures RendererKeepsAt(cfg, inv, t, a) && SchedulingKeepsAt(cfg, inv, t, a)
    {
      if Reached(cfg, s0, t) && Enabled(cfg, t, a) && (IsRendererStep(a) || IsSchedulingStep(a)) {
        Step(cfg, s0, t, a);
      }
    }
  }

  /** `n` copies of pixmap `id` to the screen are published and unacknowledged, and the renderer has all but `waiting`. */
  ghost predicate Ready(cfg: Config, s: State, id: Id, n: nat, waiting: nat) {
    && !cfg.legacyDrawing && s.pc.Idle? && s.open == [] && s.lock.Free? && s.ren.Asleep?
    && s.q.drained + waiting == |s.q.scheduled|
    && id != cfg.screen && id in s.mem.pixmaps && IsHardware(s.mem, id) && IsHardware(s.mem, cfg.screen)
    && |s.outstanding| == n
    && forall e <- s.outstanding :: e.src == id && e.dst == cfg.screen && e.serial <= |s.q.scheduled|
  }

  lemma HoldKeepsHardware(cfg: Config, m: Memory, src: Id, dst: Id, b: Id)
    requires IsHardware(m, b)
    ensures IsHardware(HoldFor(cfg, m, src, dst), b)
  {}

  lemma Schedule(cfg: Config, s0: State, s: State, id: Id, n: nat) returns (t: State)
    requires Reached(cfg, s0, s) && Ready(cfg, s, id, n, 0)
    ensures Reached(cfg, s0, t) && Ready(cfg, t, id, n + 1, 1)
  {
    BothKeep(cfg, s0);
    HoldKeepsHardware(cfg, s.mem, id, cfg.screen, id);
    HoldKeepsHardware(cfg, s.mem, id, cfg.screen, cfg.screen);
    t := ScheduleOne(cfg, s => Reached(cfg, s0, s), s, Request(id, cfg.screen, 0, 0, [Rect(0, 0, 1, 1)]));
    assert Reached(cfg, s0, t);
  }

  lemma Drain(cfg: Config, s0: State, s: State, id: Id, n: nat) returns (t: State)
    requires Reached(cfg, s0, s) && Ready(cfg, s, id, n, 1)
    ensures Reached(cfg, s0, t) && Ready(cfg, t, id, n, 0)
  {
    var inv := s => Reached(cfg, s0, s);
    BothKeep(cfg, s0);
    t := Move(cfg, inv, s, TakeLock(false));
    t := DrainTo(cfg, inv, t, |s.q.scheduled|);
    assert Reached(cfg, s0, t);
    t := Report(cfg, inv, t);
    assert Reached(cfg, s0, t);
  }

  lemma {:induction false} Rounds(cfg: Config, s0: State, s: State, id: Id, n: nat, more: nat) returns (t: State)
    requires Reached(cfg, s0, s) && Ready(cfg, s, id, n, 0)
    ensures Reached(cfg, s0, t) && Ready(cfg, t, id, n + more, 0)
    decreases more
  {
    t := s;
    if more > 0 {
      t := Schedule(cfg, s0, s, id, n);
      t := Drain(cfg, s0, t, id, n + 1);
      t := Rounds(cfg, s0, t, id, n + 1, more - 1);
    }
  }

  lemma {:induction false} UsesAll(cfg: Config, es: seq<Entry>, id: Id)
    requires id != cfg.screen && forall e <- es :: e.src == id && e.dst == cfg.screen
    ensures Uses(cfg, es, id) == |es|
  {
    if es != [] {
      UsesAll(cfg, es[1..], id);
      assert es[0] in es;
    }
  }

  /** The acknowledgement of a finished copy frees the buffer: its count has wrapped around to one. */
  lemma WrapsAround(cfg: Config, s: State, id: Id)
    requires QueueRunInv(s) && RefInv(cfg, s) && Ready(cfg, s, id, U16, 0)
    ensures Enabled(cfg, s, Ack(0)) && IsDone(s, s.outstanding[0].serial) && id !in Do(cfg, s, Ack(0)).mem.bufs
  {
    UsesAll(cfg, s.outstanding, id);
    assert AgreeAt(cfg, s, id) && Count(cfg, s, id) == U16 + 1;
    assert s.outstanding[0] in s.outstanding;
  }

  lemma StartsReady(cfg: Config, s0: State, id: Id)
    requires Init(cfg, s0) && !cfg.legacyDrawing && id != cfg.screen
    ensures Enabled(cfg, s0, CreatePixmap(id, true))
    ensures var s := Do(cfg, s0, CreatePixmap(id, true)); Reached(cfg, s0, s) && Ready(cfg, s, id, 0, 0)
  {
    InitRefs(cfg, s0);
    RunKeepsQueue(cfg, [s0], [], 0);
    assert Joins(cfg, s0, [s0], [], s0);
    Step(cfg, s0, s0, CreatePixmap(id, true));
  }

  /** From every start: after 65536 copies of one pixmap, all done, the first acknowledgement frees the buffer although the
      pixmap is alive and all the other copies still hold it. */
  lemma CountWrapsOnARun(cfg: Config, s0: State) returns (ss: seq<State>, acts: seq<Action>, id: Id)
    requires Init(cfg, s0) && !cfg.legacyDrawing
    ensures IsRun(cfg, ss, acts) && ss[0] == s0
    ensures var t := ss[|acts|];
      id in t.mem.pixmaps && id !in t.mem.bufs && |t.outstanding| == U16 - 1 && forall e <- t.outstanding :: e.src == id
  {
    id := cfg.screen + 1;
    StartsReady(cfg, s0, id);
    var s := Rounds(cfg, s0, Do(cfg, s0, CreatePixmap(id, true)), id, 0, U16);
    WrapsAround(cfg, s, id);
    StepRuns(cfg, s0, s, Ack(0));
    var t := Do(cfg, s, Ack(0));
    assert forall e <- t.outstanding :: e in s.outstanding;
    ss, acts :| Joins(cfg, s0, ss, acts, t);
  }
}
