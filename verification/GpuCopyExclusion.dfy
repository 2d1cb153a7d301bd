/**
  Mutual exclusion between CPU accesses on the server and GPU copies in the renderer: the state condition under which
  every continuation that acknowledges only finished copies keeps it, and without which some continuation breaks it.
 */
module GpuCopyExclusion {
  import opened GpuCopyProtocol
  import opened GpuCopySafety
  import opened GpuCopyRefs
  import opened GpuCopyWalks

  /** A CPU write conflicts with a copy reading or writing the pixmap; a CPU read with a copy writing it. */
  predicate Conflicts(a: Access, e: Entry) {
    e.dst == a.pixmap || (Writes(a.index) && e.src == a.pixmap)
  }

  /** The copies whose draws were submitted; one is submitted before the read index moves past it. */
  function Submitted(s: State): (n: nat) {
    s.q.drained + if s.ren.Got? then 1 else 0
  }

  /** No open access conflicts with a copy whose draw was submitted and not fenced, nor writes the screen while it is drawn. */
  ghost predicate Exclusive(cfg: Config, s: State) {
    && (forall a, k | a in s.open && s.fenced <= k < Submitted(s) && k < |s.q.scheduled| ::
          !Conflicts(a, s.q.scheduled[k]))
    && (s.ren.RootDrawn? ==> forall a <- s.open :: !(a.pixmap == cfg.screen && Writes(a.index)))
  }

  // ------------------------------------------------------------------- continuations

  /** An acknowledgement only of a copy reported done. */
  predicate AckOfDone(s: State, a: Action) {
    a.Ack? && a.which < |s.outstanding| ==> IsDone(s, s.outstanding[a.which].serial)
  }

  /** A step without an early acknowledgement, from a state with every count in the range of its field. */
  ghost predicate GoodStep(cfg: Config, s: State, a: Action, t: State) {
    Enabled(cfg, s, a) && t == Do(cfg, s, a) && AckOfDone(s, a) && Bounded(cfg, s)
  }

  /** Such steps of both sides, from any state. */
  ghost predicate IsPath(cfg: Config, ts: seq<State>, bs: seq<Action>) {
    |ts| == |bs| + 1 && forall i :: 0 <= i < |bs| ==> GoodStep(cfg, ts[i], bs[i], ts[i + 1])
  }

  ghost predicate Joins(cfg: Config, s: State, ts: seq<State>, bs: seq<Action>, t: State) {
    IsPath(cfg, ts, bs) && ts[0] == s && ts[|bs|] == t
  }

  ghost predicate Reaches(cfg: Config, s: State, t: State) {
    exists ts, bs :: Joins(cfg, s, ts, bs, t)
  }

  ghost predicate StaysExclusive(cfg: Config, s: State) {
    forall t :: Reaches(cfg, s, t) ==> Exclusive(cfg, t)
  }

  /** What every run keeps. */
  ghost predicate RunInv(cfg: Config, s: State) {
    QueueRunInv(s) && AccessInv(cfg, s) && RefInv(cfg, s)
  }

  lemma StepKeepsRun(cfg: Config, s: State, a: Action)
    requires RunInv(cfg, s) && Enabled(cfg, s, a) && Bounded(cfg, s)
    ensures RunInv(cfg, Do(cfg, s, a))
  {
    StepKeepsQueue(cfg, s, a);
    StepKeepsAccess(cfg, s, a);
    StepKeepsRefs(cfg, s, a);
  }

  // ------------------------------------------------------------------- guarded states

  /** A copy whose acknowledgement decides about locking `p`: the screen's counter counts only copies to the screen, and
      writing the screen locks anyway. */
  predicate Touches(cfg: Config, e: Entry, p: Id) {
    e.dst == p || (e.src == p && p != cfg.screen)
  }

  /** Copies up to here may be reported done while copy `k` is not: a drain that has seen the ring empty will fence what
      it has drained and nothing more. */
  function Floor(s: State, k: nat): (n: nat) {
    if (s.ren.LoopDone? || s.ren.RootDrawn?) && k >= s.q.drained then s.q.drained else s.fenced
  }

  /** Some unacknowledged copy of the pixmap is not done before copy `k` is. */
  ghost predicate Covered(cfg: Config, s: State, k: nat, p: Id) {
    exists e :: e in s.outstanding && Touches(cfg, e, p) && e.serial > Floor(s, k)
  }

  /** Every pixmap of a copy not yet fenced is covered. */
  ghost predicate Guarded(cfg: Config, s: State) {
    forall k, p :: s.fenced <= k < |s.q.scheduled| && p in s.mem.pixmaps && Touches(cfg, s.q.scheduled[k], p) ==>
      Covered(cfg, s, k, p)
  }

  ghost predicate HeldInv(s: State) {
    s.pc.Held? || s.pc.Filled? ==> s.pc.e in s.outstanding
  }

  lemma FloorStays(cfg: Config, s: State, a: Action, k: nat)
    requires Enabled(cfg, s, a) && QueueRunInv(s)
    requires var t := Do(cfg, s, a); t.fenced <= k < |s.q.scheduled|
    ensures s.fenced <= k && Floor(Do(cfg, s, a), k) == Floor(s, k)
  {
    if IsRendererStep(a) {
      RendererFloorStays(cfg, s, a, k);
    } else {
      ServerLeavesRenderer(cfg, s, a);
    }
  }

  lemma ServerLeavesRenderer(cfg: Config, s: State, a: Action)
    requires Enabled(cfg, s, a) && !IsRendererStep(a)
    ensures var t := Do(cfg, s, a); t.ren == s.ren && t.fenced == s.fenced && t.q.drained == s.q.drained
  {}

  lemma RendererFloorStays(cfg: Config, s: State, a: Action, k: nat)
    requires Enabled(cfg, s, a) && QueueInv(s.q) && RendererInv(s) && IsRendererStep(a)
    requires Do(cfg, s, a).fenced <= k < |s.q.scheduled|
    ensures s.fenced <= k && Floor(Do(cfg, s, a), k) == Floor(s, k)
  {
    if a.LoadIndex? {
      IndexTests(s.q, s.q.drained);
    }
  }

  /** An unacknowledged copy that may not be reported done stays unacknowledged. */
  lemma CoverStays(cfg: Config, s: State, a: Action, e: Entry)
    requires Enabled(cfg, s, a) && QueueRunInv(s) && AckOfDone(s, a) && e in s.outstanding && e.serial > s.fenced
    ensures e in Do(cfg, s, a).outstanding
  {
    if a.Ack? {
      assert s.outstanding[a.which].serial <= s.completed <= s.fenced;
    }
  }

  lemma CoveredStays(cfg: Config, s: State, a: Action, k: nat, p: Id)
    requires Enabled(cfg, s, a) && QueueRunInv(s) && AckOfDone(s, a)
    requires Do(cfg, s, a).fenced <= k < |s.q.scheduled| && Covered(cfg, s, k, p)
    ensures Covered(cfg, Do(cfg, s, a), k, p)
  {
    var e :| e in s.outstanding && Touches(cfg, e, p) && e.serial > Floor(s, k);
    FloorStays(cfg, s, a, k);
    CoverStays(cfg, s, a, e);
    assert e in Do(cfg, s, a).outstanding && Touches(cfg, e, p) && e.serial > Floor(Do(cfg, s, a), k);
  }

  /** A copy covers itself when it is published. */
  lemma PublishedIsCovered(cfg: Config, s: State, p: Id)
    requires Enabled(cfg, s, Publish) && QueueRunInv(s) && HeldInv(s) && Touches(cfg, s.pc.e, p)
    ensures Covered(cfg, Do(cfg, s, Publish), |s.q.scheduled|, p)
  {
    var t, e := Do(cfg, s, Publish), s.pc.e;
    assert e in t.outstanding && Touches(cfg, e, p) && e.serial > Floor(t, |s.q.scheduled|);
  }

  lemma StepKeepsGuard(cfg: Config, s: State, a: Action)
    requires Enabled(cfg, s, a) && QueueRunInv(s) && AckOfDone(s, a) && Guarded(cfg, s) && HeldInv(s)
    ensures Guarded(cfg, Do(cfg, s, a)) && HeldInv(Do(cfg, s, a))
  {
    var t := Do(cfg, s, a);
    StepHistory(cfg, s, a);
    forall k, p | t.fenced <= k < |t.q.scheduled| && p in t.mem.pixmaps && Touches(cfg, t.q.scheduled[k], p)
      ensures Covered(cfg, t, k, p)
    {
      if k < |s.q.scheduled| {
        FloorStays(cfg, s, a, k);
        assert t.q.scheduled[k] == s.q.scheduled[k];
        assert p in s.mem.pixmaps;
        CoveredStays(cfg, s, a, k, p);
      } else {
        PublishedIsCovered(cfg, s, p);
      }
    }
  }

  lemma LockedMeansDepth(open: seq<Access>, a: Access)
    requires a in open && a.locked
    ensures LockedCount(open) > 0
  {
    var i :| 0 <= i < |open| && open[i] == a;
    LockedCountWithout(open, i);
  }

  lemma TouchedIsLocked(cfg: Config, s: State, e: Entry, p: Id, index: Index)
    requires RunInv(cfg, s) && e in s.outstanding && Touches(cfg, e, p)
    ensures NeedsGpuLock(cfg, s.mem, p, index)
  {
    assert AgreeAt(cfg, s, p);
    UsesOfMember(cfg, s.outstanding, e, p);
    assert IsHardware(s.mem, e.src) && IsHardware(s.mem, e.dst);
  }

  lemma UnlockedAccessIsFree(cfg: Config, s: State, a: Access, k: nat)
    requires RunInv(cfg, s) && Guarded(cfg, s)
    requires a in s.open && !a.locked && s.fenced <= k < |s.q.scheduled|
    ensures !Conflicts(a, s.q.scheduled[k])
  {
    var p := a.pixmap;
    assert p in s.mem.pixmaps && !NeedsGpuLock(cfg, s.mem, p, a.index);
    if Touches(cfg, s.q.scheduled[k], p) {
      assert Covered(cfg, s, k, p);
      var e :| e in s.outstanding && Touches(cfg, e, p) && e.serial > Floor(s, k);
      TouchedIsLocked(cfg, s, e, p, a.index);
    }
  }

  lemma StateIsExclusive(cfg: Config, s: State)
    requires RunInv(cfg, s) && Guarded(cfg, s)
    ensures Exclusive(cfg, s)
  {
    forall a <- s.open
      ensures forall k :: s.fenced <= k < Submitted(s) && k < |s.q.scheduled| ==> !Conflicts(a, s.q.scheduled[k])
      ensures s.ren.RootDrawn? ==> !(a.pixmap == cfg.screen && Writes(a.index))
    {
      if a.locked {
        LockedMeansDepth(s.open, a);
        assert s.ren.Asleep?;
      } else {
        forall k | s.fenced <= k < Submitted(s) && k < |s.q.scheduled|
          ensures !Conflicts(a, s.q.scheduled[k])
        {
          UnlockedAccessIsFree(cfg, s, a, k);
        }
      }
    }
  }

  ghost predicate KeepsAt(cfg: Config, inv: State -> bool, s: State, a: Action, t: State) {
    inv(s) && GoodStep(cfg, s, a, t) ==> inv(t)
  }

  ghost predicate Keeps(cfg: Config, inv: State -> bool) {
    forall s, a, t :: KeepsAt(cfg, inv, s, a, t)
  }

  lemma {:induction false} PathKeeps(cfg: Config, inv: State -> bool, ts: seq<State>, bs: seq<Action>, n: nat)
    requires IsPath(cfg, ts, bs) && n < |ts| && inv(ts[0]) && Keeps(cfg, inv)
    ensures inv(ts[n])
    decreases n
  {
    if n > 0 {
      var i := n - 1;
      PathKeeps(cfg, inv, ts, bs, i);
      assert GoodStep(cfg, ts[i], bs[i], ts[i + 1]) && KeepsAt(cfg, inv, ts[i], bs[i], ts[i + 1]);
    }
  }

  ghost predicate GuardInv(cfg: Config, s: State) {
    RunInv(cfg, s) && Guarded(cfg, s) && HeldInv(s)
  }

  lemma GuardIsKept(cfg: Config)
    ensures Keeps(cfg, s => GuardInv(cfg, s))
  {
    var inv := s => GuardInv(cfg, s);
    forall s, a, t
      ensures KeepsAt(cfg, inv, s, a, t)
    {
      if GuardInv(cfg, s) && GoodStep(cfg, s, a, t) {
        GoodStepKeeps(cfg, s, a, t);
      }
    }
  }

  /** A guarded state stays guarded and exclusive on every continuation without early acknowledgements. */
  lemma GuardKeepsExclusion(cfg: Config, ts: seq<State>, bs: seq<Action>, n: nat)
    requires IsPath(cfg, ts, bs) && n < |ts| && RunInv(cfg, ts[0]) && Guarded(cfg, ts[0]) && HeldInv(ts[0])
    ensures RunInv(cfg, ts[n]) && Guarded(cfg, ts[n]) && HeldInv(ts[n]) && Exclusive(cfg, ts[n])
  {
    GuardIsKept(cfg);
    PathKeeps(cfg, s => GuardInv(cfg, s), ts, bs, n);
    assert GuardInv(cfg, ts[n]);
    StateIsExclusive(cfg, ts[n]);
  }

  lemma GoodStepKeeps(cfg: Config, s: State, a: Action, t: State)
    requires RunInv(cfg, s) && Guarded(cfg, s) && HeldInv(s) && GoodStep(cfg, s, a, t)
    ensures RunInv(cfg, t) && Guarded(cfg, t) && HeldInv(t)
  {
    StepKeepsRun(cfg, s, a);
    StepKeepsGuard(cfg, s, a);
  }

  lemma StartIsGuarded(cfg: Config, s: State)
    requires Init(cfg, s)
    ensures RunInv(cfg, s) && Guarded(cfg, s) && HeldInv(s)
  {
    InitRefs(cfg, s);
    RunKeepsQueue(cfg, [s], [], 0);
  }

  /** CPU/GPU exclusion: it holds in every state of every run that acknowledges only completed copies. */
  lemma CpuGpuExclusion(cfg: Config, ss: seq<State>, acts: seq<Action>, n: nat)
    requires IsRun(cfg, ss, acts) && n < |ss|
    requires forall i :: 0 <= i < n ==> Bounded(cfg, ss[i]) && AckOfDone(ss[i], acts[i])
    ensures Exclusive(cfg, ss[n])
  {
    StartIsGuarded(cfg, ss[0]);
    GuardKeepsExclusion(cfg, ss[..n + 1], acts[..n], n);
  }

  /**
    Lock balance: with no access open the server's mutex is free of the server exactly when no
    access failed after locking; one such failure keeps the renderer out for the rest of the run.
   */
  lemma {:induction false} LockBalance(cfg: Config, ss: seq<State>, acts: seq<Action>, i: nat, n: nat)
    requires IsRun(cfg, ss, acts) && i <= n < |ss|
    ensures ss[n].open == [] ==> (ss[n].lock.Server? <==> ss[n].leaked > 0)
    ensures ss[i].leaked <= ss[n].leaked
    ensures ss[i].leaked > 0 ==> ss[n].lock.Server?
    decreases n - i
  {
    RunKeepsQueue(cfg, ss, acts, n);
    if i < n {
      LockBalance(cfg, ss, acts, i, n - 1);
      StepLeaks(cfg, ss[n - 1], acts[n - 1]);
    }
  }

  /** Such a run from every start: the first access to draw on the screen cannot map it, and the renderer never gets the
      mutex again. */
  lemma LeakHappens(cfg: Config, s0: State) returns (ss: seq<State>, acts: seq<Action>)
    requires Init(cfg, s0)
    ensures IsRun(cfg, ss, acts) && ss[0] == s0 && ss[|acts|].open == [] && ss[|acts|].leaked > 0 && ss[|acts|].lock.Server?
  {
    var a := Prepare(cfg.screen, Dest, false);
    ss, acts := [s0, Do(cfg, s0, a)], [a];
  }

  lemma StepLeaks(cfg: Config, s: State, a: Action)
    requires Enabled(cfg, s, a)
    ensures s.leaked <= Do(cfg, s, a).leaked
    ensures Do(cfg, s, a).leaked > s.leaked <==> a.Prepare? && !a.ok && NeedsGpuLock(cfg, s.mem, a.pixmap, a.index)
  {}

  // ------------------------------------------------- unguarded states

  lemma ReachesSelf(cfg: Config, s: State)
    ensures Reaches(cfg, s, s)
  {
    assert Joins(cfg, s, [s], [], s);
  }

  lemma ReachesNext(cfg: Config, s: State, t: State, a: Action)
    requires Reaches(cfg, s, t) && Enabled(cfg, t, a) && AckOfDone(t, a) && Bounded(cfg, t)
    ensures Reaches(cfg, s, Do(cfg, t, a))
  {
    var ts, bs :| Joins(cfg, s, ts, bs, t);
    PathGrows(cfg, ts, bs, a, Do(cfg, t, a));
    assert Joins(cfg, s, ts + [Do(cfg, t, a)], bs + [a], Do(cfg, t, a));
  }

  lemma PathGrows(cfg: Config, ts: seq<State>, bs: seq<Action>, a: Action, u: State)
    requires IsPath(cfg, ts, bs) && GoodStep(cfg, ts[|bs|], a, u)
    ensures IsPath(cfg, ts + [u], bs + [a])
  {
    var ts', bs' := ts + [u], bs + [a];
    forall i | 0 <= i < |bs'|
      ensures GoodStep(cfg, ts'[i], bs'[i], ts'[i + 1])
    {
      if i < |bs| {
        assert GoodStep(cfg, ts[i], bs[i], ts[i + 1]);
      }
    }
  }

  lemma BoundedSame(cfg: Config, s: State, t: State)
    requires Bounded(cfg, s) && t.mem == s.mem && t.outstanding == s.outstanding
    ensures Bounded(cfg, t)
  {
    forall b <- t.mem.bufs
      ensures Count(cfg, t, b) <= U16
    {
      assert Count(cfg, s, b) <= U16;
    }
  }

  lemma BoundedAck(cfg: Config, s: State, i: nat)
    requires Bounded(cfg, s) && Enabled(cfg, s, Ack(i))
    ensures Bounded(cfg, Do(cfg, s, Ack(i)))
  {
    var t := Do(cfg, s, Ack(i));
    forall b <- t.mem.bufs
      ensures Count(cfg, t, b) <= U16
    {
      assert b in s.mem.bufs && Count(cfg, s, b) <= U16;
      UsesWithout(cfg, s.outstanding, i, b);
    }
  }

  /** What finishing accesses and acknowledging leave alone. */
  ghost predicate SameCopies(s: State, t: State) {
    && t.q == s.q && t.fenced == s.fenced && t.completed == s.completed && t.ren == s.ren && t.lock == s.lock
    && t.pc == s.pc && t.mem.pixmaps == s.mem.pixmaps
  }

  /** The server between operations while the renderer sleeps. */
  ghost predicate Quiet(cfg: Config, s: State) {
    RunInv(cfg, s) && Bounded(cfg, s) && s.pc.Idle? && s.lock.Free?
  }

  lemma CloseOne(cfg: Config, s: State)
    requires Quiet(cfg, s) && s.open != []
    ensures Enabled(cfg, s, Finish(0))
    ensures var t := Do(cfg, s, Finish(0));
      Quiet(cfg, t) && SameCopies(s, t) && t.outstanding == s.outstanding && |t.open| == |s.open| - 1
  {
    var t := Do(cfg, s, Finish(0));
    StepKeepsRun(cfg, s, Finish(0));
    FinishKeepsAccess(cfg, s, 0);
    BoundedSame(cfg, s, t);
  }

  lemma {:induction false} CloseAll(cfg: Config, s: State, t: State) returns (u: State)
    requires Reaches(cfg, s, t) && Quiet(cfg, t)
    ensures Reaches(cfg, s, u) && Quiet(cfg, u) && SameCopies(t, u) && u.outstanding == t.outstanding && u.open == []
    decreases |t.open|
  {
    u := t;
    if t.open != [] {
      CloseOne(cfg, t);
      ReachesNext(cfg, s, t, Finish(0));
      u := CloseAll(cfg, s, Do(cfg, t, Finish(0)));
    }
  }

  lemma AckQuiet(cfg: Config, s: State, i: nat)
    requires Quiet(cfg, s) && s.open == [] && i < |s.outstanding|
    ensures Enabled(cfg, s, Ack(i))
    ensures var t := Do(cfg, s, Ack(i)); Quiet(cfg, t) && SameCopies(s, t) && t.open == []
  {
    StepKeepsRun(cfg, s, Ack(i));
    BoundedAck(cfg, s, i);
  }

  ghost predicate NoneTouches(cfg: Config, es: seq<Entry>, p: Id) {
    forall e <- es :: !Touches(cfg, e, p)
  }

  /** Acknowledges every copy of a pixmap, all of them being done. */
  lemma {:induction false} AckAll(cfg: Config, s: State, t: State, p: Id) returns (u: State)
    requires Reaches(cfg, s, t) && Quiet(cfg, t) && t.open == []
    requires forall e <- t.outstanding :: Touches(cfg, e, p) ==> IsDone(t, e.serial)
    ensures Reaches(cfg, s, u) && Quiet(cfg, u) && SameCopies(t, u) && u.open == [] && NoneTouches(cfg, u.outstanding, p)
    decreases |t.outstanding|
  {
    u := t;
    if !NoneTouches(cfg, t.outstanding, p) {
      var i :| 0 <= i < |t.outstanding| && Touches(cfg, t.outstanding[i], p);
      AckQuiet(cfg, t, i);
      ReachesNext(cfg, s, t, Ack(i));
      u := AckAll(cfg, s, Do(cfg, t, Ack(i)), p);
    }
  }

  lemma {:induction false} NoRootUse(cfg: Config, es: seq<Entry>)
    requires NoneTouches(cfg, es, cfg.screen)
    ensures RootUses(cfg, es) == 0
  {
    if es != [] {
      assert es[0] in es;
      NoRootUse(cfg, es[1..]);
    }
  }

  /** Without unacknowledged copies of a pixmap an access to it does not lock, except to write the screen. */
  lemma UntouchedIsUnlocked(cfg: Config, s: State, p: Id)
    requires RunInv(cfg, s) && NoneTouches(cfg, s.outstanding, p)
    ensures !NeedsGpuLock(cfg, s.mem, p, if p == cfg.screen then Source else Dest)
  {
    if p == cfg.screen {
      NoRootUse(cfg, s.outstanding);
    } else {
      assert AgreeAt(cfg, s, p);
      if Uses(cfg, s.outstanding, p) > 0 {
        SomeUse(cfg, s.outstanding, p);
      }
    }
  }

  /** Where the walk has come to. */
  ghost predicate Walked(cfg: Config, s: State, t: State) {
    Reaches(cfg, s, t) && RunInv(cfg, t) && Bounded(cfg, t)
  }

  lemma RendererWalks(cfg: Config, s: State)
    ensures KeptByRenderer(cfg, t => Walked(cfg, s, t))
  {
    var inv := t => Walked(cfg, s, t);
    forall t: State, a: Action
      ensures RendererKeepsAt(cfg, inv, t, a)
    {
      if Walked(cfg, s, t) && Enabled(cfg, t, a) && IsRendererStep(a) {
        RendererWalk(cfg, s, t, a);
      }
    }
  }

  lemma RendererWalk(cfg: Config, s: State, t: State, a: Action)
    requires Walked(cfg, s, t) && Enabled(cfg, t, a) && IsRendererStep(a)
    ensures Walked(cfg, s, Do(cfg, t, a))
  {
    StepKeepsRun(cfg, t, a);
    BoundedSame(cfg, t, Do(cfg, t, a));
    ReachesNext(cfg, s, t, a);
  }

  lemma LockAndDrain(cfg: Config, s: State, t: State, k: nat) returns (u: State)
    requires Walked(cfg, s, t) && t.ren.Asleep? && t.lock.Free? && t.q.drained <= k <= |t.q.scheduled|
    ensures Reaches(cfg, s, u) && SameServer(t, u) && u.q.drained == k && u.fenced == t.fenced
  {
    var inv := t => Walked(cfg, s, t);
    RendererWalks(cfg, s);
    u := Move(cfg, inv, t, TakeLock(false));
    u := DrainTo(cfg, inv, u, k);
    assert Walked(cfg, s, u);
  }

  lemma OpenQuietly(cfg: Config, s: State, p: Id, index: Index)
    requires Quiet(cfg, s) && p in s.mem.pixmaps && index != AuxDest && !NeedsGpuLock(cfg, s.mem, p, index)
    ensures Enabled(cfg, s, Prepare(p, index, true))
    ensures var t := Do(cfg, s, Prepare(p, index, true));
      Quiet(cfg, t) && t.open == s.open + [Access(p, index, false)] && t.q == s.q && t.fenced == s.fenced
  {
    var t := Do(cfg, s, Prepare(p, index, true));
    StepKeepsRun(cfg, s, Prepare(p, index, true));
    BoundedSame(cfg, s, t);
  }

  /** An unlocked access opened while a conflicting copy waits: the renderer can drain up to that copy. */
  lemma OpenThenDrain(cfg: Config, s: State, t: State, p: Id, k: nat) returns (u: State)
    requires Reaches(cfg, s, t) && Quiet(cfg, t) && t.open == [] && NoneTouches(cfg, t.outstanding, p) && p in t.mem.pixmaps
    requires t.fenced <= k < |t.q.scheduled| && Touches(cfg, t.q.scheduled[k], p)
    ensures Reaches(cfg, s, u) && !Exclusive(cfg, u)
  {
    var index := if p == cfg.screen then Source else Dest;
    var acc := Access(p, index, false);
    UntouchedIsUnlocked(cfg, t, p);
    OpenQuietly(cfg, t, p, index);
    ReachesNext(cfg, s, t, Prepare(p, index, true));
    var o := Do(cfg, t, Prepare(p, index, true));
    assert o.open[0] == acc;
    u := LockAndDrain(cfg, s, o, k + 1);
    assert acc in u.open && u.fenced <= k < Submitted(u) && Conflicts(acc, u.q.scheduled[k]);
  }

  /** From an unguarded state with the mutex free and the server between operations, acknowledging finished copies only,
      a CPU access can overlap a copy. */
  lemma UnguardedBreaks(cfg: Config, s: State)
    requires Quiet(cfg, s) && !Guarded(cfg, s)
    ensures !StaysExclusive(cfg, s)
  {
    var k, p :| s.fenced <= k < |s.q.scheduled| && p in s.mem.pixmaps && Touches(cfg, s.q.scheduled[k], p) && !Covered(cfg, s, k, p);
    assert s.completed == s.fenced == Floor(s, k);
    ReachesSelf(cfg, s);
    var t := CloseAll(cfg, s, s);
    forall e <- t.outstanding | Touches(cfg, e, p)
      ensures IsDone(t, e.serial)
    {
      assert e in s.outstanding;
    }
    t := AckAll(cfg, s, t, p);
    t := OpenThenDrain(cfg, s, t, p, k);
  }

  /** The exact boundary: whenever the server is between operations and the mutex is free, exclusion holds on every
      continuation without early acknowledgements exactly when each pixmap of a waiting copy has an unacknowledged copy
      that is not done. */
  lemma ExclusionExactly(cfg: Config, ss: seq<State>, acts: seq<Action>, n: nat)
    requires IsRun(cfg, ss, acts) && n < |ss| && forall i :: 0 <= i <= n ==> Bounded(cfg, ss[i])
    requires ss[n].pc.Idle? && ss[n].lock.Free?
    ensures var s := ss[n];
      StaysExclusive(cfg, s) <==>
      forall k, p :: s.q.drained <= k < |s.q.scheduled| && p in s.mem.pixmaps && Touches(cfg, s.q.scheduled[k], p) ==>
        exists e :: e in s.outstanding && Touches(cfg, e, p) && !IsDone(s, e.serial)
  {
    var s := ss[n];
    RunKeepsQueue(cfg, ss, acts, n);
    RunKeepsRefs(cfg, ss, acts, n);
    QuietGuard(cfg, s);
    if Guarded(cfg, s) {
      GuardedStays(cfg, s);
    } else {
      UnguardedBreaks(cfg, s);
    }
  }

  lemma QuietGuard(cfg: Config, s: State)
    requires Quiet(cfg, s)
    ensures Guarded(cfg, s) <==>
      forall k, p :: s.q.drained <= k < |s.q.scheduled| && p in s.mem.pixmaps && Touches(cfg, s.q.scheduled[k], p) ==>
        exists e :: e in s.outstanding && Touches(cfg, e, p) && !IsDone(s, e.serial)
  {
    assert s.ren.Asleep? && s.completed == s.fenced == s.q.drained;
    forall k, p
      ensures Covered(cfg, s, k, p) <==> exists e :: e in s.outstanding && Touches(cfg, e, p) && !IsDone(s, e.serial)
    {}
  }

  lemma GuardedStays(cfg: Config, s: State)
    requires Quiet(cfg, s) && Guarded(cfg, s)
    ensures StaysExclusive(cfg, s)
  {
    forall t | Reaches(cfg, s, t)
      ensures Exclusive(cfg, t)
    {
      var ts, bs :| Joins(cfg, s, ts, bs, t);
      GuardKeepsExclusion(cfg, ts, bs, |bs|);
    }
  }

  // ------------------------------------------------- a run that acknowledges too early

  lemma Extend(cfg: Config, ss: seq<State>, acts: seq<Action>, a: Action) returns (ss': seq<State>, acts': seq<Action>)
    requires IsRun(cfg, ss, acts) && Enabled(cfg, ss[|acts|], a)
    ensures IsRun(cfg, ss', acts') && ss <= ss' && acts' == acts + [a]
    ensures ss'[|acts'|] == Do(cfg, ss[|acts|], a)
  {
    ss', acts' := ss + [Do(cfg, ss[|acts|], a)], acts + [a];
  }

  lemma {:induction false} UsesAtMost(cfg: Config, es: seq<Entry>, b: Id)
    ensures Uses(cfg, es, b) <= 2 * |es|
  {
    if es != [] {
      UsesAtMost(cfg, es[1..], b);
    }
  }

  lemma FewAreBounded(cfg: Config, s: State)
    requires |s.outstanding| < 100
    ensures Bounded(cfg, s)
  {
    forall b <- s.mem.bufs
      ensures Count(cfg, s, b) <= U16
    {
      UsesAtMost(cfg, s.outstanding, b);
    }
  }

  /** Extends a run with few outstanding copies, keeping the reference invariant. */
  lemma ExtendRefs(cfg: Config, ss: seq<State>, acts: seq<Action>, a: Action) returns (ss': seq<State>, acts': seq<Action>)
    requires IsRun(cfg, ss, acts) && Enabled(cfg, ss[|acts|], a)
    requires RefInv(cfg, ss[|acts|]) && |ss[|acts|].outstanding| < 100
    ensures IsRun(cfg, ss', acts') && ss <= ss' && acts' == acts + [a]
    ensures ss'[|acts'|] == Do(cfg, ss[|acts|], a) && RefInv(cfg, ss'[|acts'|])
  {
    FewAreBounded(cfg, ss[|acts|]);
    StepKeepsRefs(cfg, ss[|acts|], a);
    ss', acts' := Extend(cfg, ss, acts, a);
  }

  /** One copy of a new pixmap to the screen, held and not yet in its slot. */
  ghost predicate HeldOnce(cfg: Config, s: State, e: Entry) {
    && RefInv(cfg, s) && s.pc == Held(e) && s.outstanding == [e] && e.serial == 1 && e.dst == cfg.screen
    && e.src in s.mem.pixmaps && e.src != cfg.screen && s.open == [] && s.lock.Free? && s.ren.Asleep?
    && |s.q.slots| == CAPACITY && s.q.scheduled == [] && s.completed == 0
  }

  lemma HoldFirst(cfg: Config, s0: State) returns (ss: seq<State>, acts: seq<Action>, e: Entry)
    requires Init(cfg, s0) && !cfg.legacyDrawing
    ensures IsRun(cfg, ss, acts) && ss[0] == s0 && HeldOnce(cfg, ss[|acts|], e)
  {
    var id := cfg.screen + 1;
    var req := Request(id, cfg.screen, 0, 0, [Rect(0, 0, 1, 1)]);
    InitRefs(cfg, s0);
    ss, acts := ExtendRefs(cfg, [s0], [], CreatePixmap(id, true));
    ss, acts := ExtendRefs(cfg, ss, acts, Snapshot(req));
    ss, acts := ExtendRefs(cfg, ss, acts, Hold);
    e := MakeEntry(req, 1);
  }

  lemma PublishFirst(cfg: Config, ss: seq<State>, acts: seq<Action>, e: Entry) returns (ss': seq<State>, acts': seq<Action>)
    requires IsRun(cfg, ss, acts) && HeldOnce(cfg, ss[|acts|], e)
    ensures IsRun(cfg, ss', acts') && ss <= ss'
    ensures var s := ss'[|acts'|];
      && RefInv(cfg, s) && s.pc.Idle? && s.outstanding == [e] && s.q.scheduled == [e] && s.completed == 0
      && s.open == [] && s.lock.Free? && e.src in s.mem.pixmaps
  {
    ss', acts' := ExtendRefs(cfg, ss, acts, Fill);
    ss', acts' := ExtendRefs(cfg, ss', acts', Publish);
  }

  /** Scheduling one copy of a new pixmap to the screen and acknowledging it at once: exclusion can fail from here on. */
  lemma EarlyAckHappens(cfg: Config, s0: State) returns (ss: seq<State>, acts: seq<Action>)
    requires Init(cfg, s0) && !cfg.legacyDrawing
    ensures IsRun(cfg, ss, acts) && ss[0] == s0
    ensures !StaysExclusive(cfg, ss[|acts|])
  {
    var e;
    ss, acts, e := HoldFirst(cfg, s0);
    ss, acts := PublishFirst(cfg, ss, acts, e);
    ss, acts := ExtendRefs(cfg, ss, acts, Ack(0));
    var s := ss[|acts|];
    FewAreBounded(cfg, s);
    RunKeepsQueue(cfg, ss, acts, |acts|);
    assert s.q.scheduled[0] == e && Touches(cfg, e, e.src) && s.outstanding == [];
    assert !Covered(cfg, s, 0, e.src);
    UnguardedBreaks(cfg, s);
  }
}
