/**
  The code of both sides of the GPU copy protocol, run without interference, proved to be exactly
  the steps of `GpuCopyProtocol`.
 */
module GpuCopyCode {
  import opened GpuCopyProtocol

  /** The part of shared memory the protocol uses. */
  class SharedState {
    var writeIndex: nat
    var readIndex: nat
    var completedSerial: nat
    var lock: Mutex
    const slots: array<Entry>
    ghost var scheduled: seq<Entry>
    ghost var drained: nat

    constructor (entries: array<Entry>)
      requires entries.Length == CAPACITY
      ensures slots == entries && Valid() && Q().scheduled == [] && completedSerial == 0 && lock == Free
    {
      slots := entries;
      writeIndex, readIndex, completedSerial, lock := 0, 0, 0, Free;
      scheduled, drained := [], 0;
    }

    ghost function Q(): Queue
      reads this, slots
    {
      Queue(writeIndex, readIndex, slots[..], scheduled, drained)
    }

    ghost predicate Valid()
      reads this, slots
    {
      QueueInv(Q())
    }

    /** Fills the slot at the write index and publishes it. */
    method Put(e: Entry)
      requires Valid() && |scheduled| - drained < CAPACITY
      modifies this`writeIndex, this`scheduled, slots
      ensures Valid()
      ensures Q() == PublishIndex(StoreSlot(old(Q()), old(writeIndex), e), old(writeIndex), e)
    {
      ghost var q0 := Q();
      slots[writeIndex % CAPACITY] := e;
      assert Q() == StoreSlot(q0, writeIndex, e);
      StoreKeepsUnread(q0, e);
      PublishIsEnqueue(Q(), e);
      writeIndex := (writeIndex + 1) % U32;
      scheduled := scheduled + [e];
    }

    /** Copies out the slot at the read index and moves past it. */
    method Take() returns (e: Entry)
      requires Valid() && readIndex != writeIndex
      modifies this`readIndex, this`drained
      ensures old(Waiting(Q())) != [] && e == old(Waiting(Q()))[0]
      ensures Valid() && Q() == AdvanceIndex(old(Q())) && Waiting(Q()) == old(Waiting(Q()))[1..]
    {
      IndexTests(Q(), drained);
      AdvanceIsDequeue(Q());
      e := slots[readIndex % CAPACITY];
      readIndex := (readIndex + 1) % U32;
      drained := drained + 1;
    }
  }

  datatype Option<T> = None | Some(value: T)

  /** The X server's side. `bufs` and `pixmaps` are as in `Memory`. */
  class XServer {
    const cfg: Config
    const shared: SharedState
    const gpuPresentDisabled: bool
    var counter: nat
    var bufs: map<Id, Buffer>
    var pixmaps: set<Id>
    var rootPending: int

    constructor (cfg: Config, shared: SharedState, disabled: bool)
      ensures this.cfg == cfg && this.shared == shared && gpuPresentDisabled == disabled
      ensures counter == 0 && Mem() == Memory(map[cfg.screen := Buffer(1, 0, !cfg.legacyDrawing)], {cfg.screen}, 0)
    {
      this.cfg, this.shared, gpuPresentDisabled := cfg, shared, disabled;
      counter, rootPending := 0, 0;
      bufs, pixmaps := map[cfg.screen := Buffer(1, 0, !cfg.legacyDrawing)], {cfg.screen};
    }

    function Mem(): Memory
      reads this
    {
      Memory(bufs, pixmaps, rootPending)
    }

    /** Whether a pixmap's buffer is or can be made hardware-backed; one with memory of its own never is. */
    ghost predicate CanSample(p: PixmapPriv, converts: bool)
      reads this
    {
      p.id in bufs && !p.hasMem && (bufs[p.id].hardware || converts)
    }

    /** Whether making it so would convert the buffer, which maps it anew. */
    ghost predicate Converts(p: PixmapPriv, converts: bool)
      reads this
    {
      CanSample(p, converts) && !bufs[p.id].hardware
    }

    ghost function Converted(p: PixmapPriv): (r: map<Id, Buffer>)
      reads this
    {
      if p.id in bufs then bufs[p.id := bufs[p.id].(hardware := true)] else bufs
    }

    /** Makes a buffer hardware-backed if it is not; `converts` says whether the conversion succeeds, `maps` whether the
        converted buffer could be mapped. */
    method EnsureGpuSampleable(p: PixmapPriv, converts: bool, maps: bool) returns (ok: bool)
      modifies this`bufs, p`locked
      ensures ok <==> old(CanSample(p, converts))
      ensures bufs == if ok then old(Converted(p)) else old(bufs)
      ensures p.locked == if old(Converts(p, converts)) then maps else old(p.locked)
    {
      if p.id !in bufs || p.hasMem {
        return false;
      }
      if !bufs[p.id].hardware && converts {
        bufs := bufs[p.id := bufs[p.id].(hardware := true)];
        p.locked := maps;
      }
      ok := bufs[p.id].hardware;
      assert ok ==> bufs[p.id] == bufs[p.id].(hardware := true);
    }

    /** Takes the references and pending marks of a copy. */
    method HoldBuffers(src: Id, dst: Id) returns (dstBuffer: Option<Id>)
      modifies this`bufs, this`rootPending
      ensures Mem() == HoldFor(cfg, old(Mem()), src, dst)
      ensures dstBuffer == if dst == cfg.screen then None else Some(dst)
    {
      bufs := Acquire(bufs, src);
      bufs := PendingAdd(bufs, src, 1);
      dstBuffer := None;
      if dst != cfg.screen {
        bufs := Acquire(bufs, dst);
        bufs := PendingAdd(bufs, dst, 1);
        dstBuffer := Some(dst);
      } else {
        rootPending := rootPending + 1;
      }
    }

    /** The part before the ring: both buffers must be hardware-backed, and a mapped source is mapped again so that what
        the CPU wrote reaches the GPU. */
    method PrepareBuffers(src: PixmapPriv, dst: PixmapPriv, env: Env) returns (r: Outcome)
      requires src == dst || src.id != dst.id
      modifies this`bufs, src`locked, dst`locked
      ensures r.Refused? <==> !(old(CanSample(src, env.srcConverts)) && (old(CanSample(dst, env.dstConverts)) || dst == src))
      ensures r.Scheduled? || r.Refused? || (src.locked && !env.relocks)
      ensures r.Scheduled? ==> (src.locked ==> env.relocks)
      ensures !r.Refused? ==> bufs == old(Converted(src))[dst.id := old(Converted(src))[dst.id].(hardware := true)]
      ensures bufs.Keys == old(bufs).Keys && forall b <- bufs :: SameCounts(bufs[b], old(bufs)[b])
      ensures src.locked == if old(Converts(src, env.srcConverts)) then env.srcMaps else old(src.locked)
      ensures dst != src ==>
        dst.locked == if old(CanSample(src, env.srcConverts) && Converts(dst, env.dstConverts)) then env.dstMaps else old(dst.locked)
    {
      var ok := EnsureGpuSampleable(src, env.srcConverts, env.srcMaps);
      if !ok { return Refused; }
      ok := EnsureGpuSampleable(dst, env.dstConverts, env.dstMaps);
      if !ok { return Refused; }
      if src.locked && !env.relocks { return Fatal; }
      r := Scheduled;
    }

    /** The part on the ring: a request with one to sixteen rectangles that finds room is held and published. */
    method Enqueue(req: Request) returns (ok: bool, serial: nat, dstBuffer: Option<Id>)
      requires shared.Valid()
      modifies this`bufs, this`rootPending, this`counter, shared`writeIndex, shared`scheduled, shared.slots
      ensures shared.Valid()
      ensures ok <==> 0 < |req.rects| <= MAX_RECTS && |old(shared.scheduled)| - shared.drained < CAPACITY
      ensures ok ==>
        var e := MakeEntry(req, old(counter) + 1);
        && shared.Q() == PublishIndex(StoreSlot(old(shared.Q()), old(shared.writeIndex), e), old(shared.writeIndex), e)
        && Mem() == HoldFor(cfg, old(Mem()), req.src, req.dst)
        && serial == counter == old(counter) + 1
        && dstBuffer == (if req.dst == cfg.screen then None else Some(req.dst))
      ensures ok ==>
        && |shared.scheduled| == |old(shared.scheduled)| + 1 && shared.scheduled[..|old(shared.scheduled)|] == old(shared.scheduled)
        && var e := shared.scheduled[|old(shared.scheduled)|];
        && shared.slots[old(shared.writeIndex) % CAPACITY] == e
        && e.serial == old(counter) + 1 && e.src == req.src && e.dst == req.dst
        && e.xOff == req.xOff && e.yOff == req.yOff && e.rects == req.rects
      ensures !ok ==> shared.Q() == old(shared.Q()) && counter == old(counter) && Mem() == old(Mem())
    {
      ok, serial, dstBuffer := false, 0, None;
      if |req.rects| == 0 || |req.rects| > MAX_RECTS {
        return;
      }
      var writeIndex, readIndex := shared.writeIndex, shared.readIndex;
      IndexTests(shared.Q(), shared.drained);
      if (writeIndex - readIndex) % U32 >= CAPACITY {
        return;
      }
      dstBuffer := HoldBuffers(req.src, req.dst);
      counter := counter + 1;
      var e := MakeEntry(req, counter);
      shared.Put(e);
      ok, serial := true, e.serial;
    }

    /**
      Schedules a copy of the region, or of the whole source when there is none: on success the ring, the buffers and the
      serial counter have made the Snapshot, Hold, Fill and Publish steps; on failure nothing but buffer conversions and
      mappings happened.
     */
    method TryScheduleGpuCopy(src: PixmapPriv, dst: PixmapPriv, update: Option<seq<Rect>>, xOff: int, yOff: int, env: Env)
      returns (r: Outcome, serial: nat, dstBuffer: Option<Id>)
      requires shared.Valid() && (src == dst || src.id != dst.id)
      modifies this`bufs, this`rootPending, this`counter, shared`writeIndex, shared`scheduled, shared.slots, src`locked, dst`locked
      ensures shared.Valid()
      ensures r.Scheduled? <==>
        && !gpuPresentDisabled && !cfg.legacyDrawing && env.rendererReady
        && old(CanSample(src, env.srcConverts)) && (old(CanSample(dst, env.dstConverts)) || dst == src)
        && (src.locked ==> env.relocks)
        && 0 < |RectsOf(update, src)| <= MAX_RECTS
        && |old(shared.scheduled)| - shared.drained < CAPACITY
      ensures r.Scheduled? ==>
        var e := MakeEntry(RequestFor(src, dst, update, xOff, yOff), old(counter) + 1);
        var conv := old(Converted(src));
        && dst.id in conv
        && shared.Q() == PublishIndex(StoreSlot(old(shared.Q()), old(shared.writeIndex), e), old(shared.writeIndex), e)
        && Mem() == HoldFor(cfg, old(Mem()).(bufs := conv[dst.id := conv[dst.id].(hardware := true)]), src.id, dst.id)
        && serial == counter == old(counter) + 1
        && dstBuffer == (if dst.id == cfg.screen then None else Some(dst.id))
      ensures r.Scheduled? ==>
        && |shared.scheduled| == |old(shared.scheduled)| + 1 && shared.scheduled[..|old(shared.scheduled)|] == old(shared.scheduled)
        && var e := shared.scheduled[|old(shared.scheduled)|];
        && shared.slots[old(shared.writeIndex) % CAPACITY] == e
        && e.serial == old(counter) + 1 && e.src == src.id && e.dst == dst.id && e.xOff == xOff && e.yOff == yOff
        && (update.Some? ==> e.rects == update.value)
        && (update.None? ==> |e.rects| == 1 && IsWhole(e.rects[0], src.width, src.height))
      ensures !r.Scheduled? ==>
        && shared.Q() == old(shared.Q()) && counter == old(counter) && rootPending == old(rootPending)
        && bufs.Keys == old(bufs).Keys && forall b <- bufs :: SameCounts(bufs[b], old(bufs)[b])
      ensures r.Fatal? ==> src.locked && !env.relocks
    {
      r, serial, dstBuffer := Refused, 0, None;
      if gpuPresentDisabled || cfg.legacyDrawing || !env.rendererReady {
        return;
      }
      r := PrepareBuffers(src, dst, env);
      if !r.Scheduled? {
        return;
      }
      var ok;
      ok, serial, dstBuffer := Enqueue(RequestFor(src, dst, update, xOff, yOff));
      if !ok {
        r := Refused;
      }
    }

    /** The server's poll; `s` is the protocol's state as the server sees it. */
    method GpuCopyIsDone(serial: nat, ghost s: State) returns (done: bool)
      requires s.completed == shared.completedSerial
      ensures done <==> IsDone(s, serial)
    {
      done := shared.completedSerial >= serial;
    }

    /** Acknowledges a copy from `src` to `dstBuffer` (none for the screen). */
    method GpuCopyAck(src: Id, dstBuffer: Option<Id>)
      requires dstBuffer.Some? ==> dstBuffer.value != cfg.screen
      modifies this`bufs, this`rootPending
      ensures Mem() == AckFor(cfg, old(Mem()), src, if dstBuffer.None? then cfg.screen else dstBuffer.value)
    {
      bufs := PendingAdd(bufs, src, -1);
      if dstBuffer.Some? {
        bufs := PendingAdd(bufs, dstBuffer.value, -1);
      } else {
        rootPending := rootPending - 1;
      }
      bufs := Release(bufs, src);
      if dstBuffer.Some? {
        bufs := Release(bufs, dstBuffer.value);
      }
    }

    /** Opens a CPU access; the mutex is taken first and is kept even when mapping the buffer fails. */
    method PrepareAccess(p: PixmapPriv, index: Index, mapOk: bool) returns (ok: bool)
      requires NeedsGpuLock(cfg, Mem(), p.id, index) ==> !shared.lock.Renderer?
      modifies p, shared`lock
      ensures ok <==> old(p.locked) || p.hasMem || mapOk
      ensures shared.lock == if NeedsGpuLock(cfg, Mem(), p.id, index) then LockServer(old(shared.lock)) else old(shared.lock)
      ensures ok ==> (p.locked || p.hasMem) && p.wasLocked == (old(p.locked) || p.hasMem)
      ensures p.locked == (old(p.locked) || (!p.hasMem && mapOk))
    {
      if NeedsGpuLock(cfg, Mem(), p.id, index) {
        shared.lock := LockServer(shared.lock);
      }
      if !p.locked && !p.hasMem {
        if !mapOk {
          return false;
        }
        p.locked := true;
        p.wasLocked := false;
      } else {
        p.wasLocked := true;
      }
      ok := true;
    }

    method FinishAccess(p: PixmapPriv, index: Index)
      modifies p, shared`lock
      ensures shared.lock == if NeedsGpuLock(cfg, Mem(), p.id, index) then UnlockServer(old(shared.lock)) else old(shared.lock)
      ensures p.locked == (old(p.locked) && old(p.wasLocked)) && p.wasLocked == old(p.wasLocked)
    {
      if NeedsGpuLock(cfg, Mem(), p.id, index) {
        shared.lock := UnlockServer(shared.lock);
      }
      if !p.wasLocked {
        p.locked := false;
        p.wasLocked := false;
      }
    }
  }

  /** How the server's surroundings answer while a copy is scheduled. */
  datatype Env = Env(rendererReady: bool, srcConverts: bool, srcMaps: bool, dstConverts: bool, dstMaps: bool, relocks: bool)

  /** A copy that cannot be mapped again ends the server. */
  datatype Outcome = Scheduled | Refused | Fatal

  predicate SameCounts(a: Buffer, b: Buffer) {
    a.refs == b.refs && a.pending == b.pending
  }

  /** A cast to a 16-bit short. */
  function Short(n: int): (r: int)
    ensures -32768 <= r < 32768 && (-32768 <= n < 32768 ==> r == n)
  {
    (n + 32768) % 65536 - 32768
  }

  /** A rectangle from the origin to these sizes, as far as they fit into 16 bits. */
  predicate IsWhole(r: Rect, width: int, height: int) {
    && r.x1 == 0 && r.y1 == 0
    && (0 <= width < 32768 ==> r.x2 == width) && (0 <= height < 32768 ==> r.y2 == height)
  }

  /** The rectangles of a region; without one, the whole pixmap. */
  function RectsOf(update: Option<seq<Rect>>, p: PixmapPriv): (rects: seq<Rect>) {
    if update.None? then [Rect(0, 0, Short(p.width), Short(p.height))] else update.value
  }

  function RequestFor(src: PixmapPriv, dst: PixmapPriv, update: Option<seq<Rect>>, xOff: int, yOff: int): (r: Request) {
    Request(src.id, dst.id, xOff, yOff, RectsOf(update, src))
  }

  /** A pixmap's private record: whether its buffer is mapped, and whether it was before the current access. */
  class PixmapPriv {
    const id: Id
    const width: int
    const height: int
    const hasMem: bool
    var locked: bool
    var wasLocked: bool

    constructor (id: Id, width: int, height: int, hasMem: bool)
      ensures this.id == id && this.width == width && this.height == height && this.hasMem == hasMem && !locked && !wasLocked
    {
      this.id, this.width, this.height, this.hasMem, locked, wasLocked := id, width, height, hasMem, false, false;
    }
  }

  /** What the standalone drain does, in order; a drain names the copies it submitted. */
  datatype Event = Lock | Drained(copies: seq<Entry>) | Fence | Report(serial: nat) | Notify | Unlock

  /** The renderer's side; `applied` records the copies in the order their draws were submitted. */
  class RendererThread {
    const shared: SharedState
    ghost var applied: seq<Entry>
    ghost var log: seq<Event>

    constructor (shared: SharedState)
      ensures this.shared == shared && applied == [] && log == []
    {
      this.shared := shared;
      applied, log := [], [];
    }

    method WaitFence()
      modifies this`log
      ensures log == old(log) + [Fence]
    {
      log := log + [Fence];
    }

    method ReportSerial(serial: nat)
      modifies this`log, shared`completedSerial
      ensures log == old(log) + [Report(serial)] && shared.completedSerial == serial
    {
      shared.completedSerial := serial;
      log := log + [Report(serial)];
    }

    /** One round of the drain loop; `all` is what will have been applied when nothing waits any more. */
    method DrainNext(ghost all: seq<Entry>) returns (serial: nat)
      requires shared.Valid() && shared.readIndex != shared.writeIndex && applied + Waiting(shared.Q()) == all
      modifies this`applied, shared`readIndex, shared`drained
      ensures shared.Valid() && shared.scheduled == old(shared.scheduled) && shared.drained == old(shared.drained) + 1
      ensures applied + Waiting(shared.Q()) == all && |Waiting(shared.Q())| == |old(Waiting(shared.Q()))| - 1
      ensures serial == shared.scheduled[shared.drained - 1].serial
    {
      ghost var before, done := Waiting(shared.Q()), applied;
      var e := shared.Take();
      applied := applied + [e];
      serial := e.serial;
      assert before == [e] + Waiting(shared.Q());
      assert (done + [e]) + Waiting(shared.Q()) == done + ([e] + Waiting(shared.Q()));
    }

    /** Drains every waiting copy in order; returns the last serial, or zero if there was none. */
    method ApplyPendingGpuCopiesLocked() returns (last: nat)
      requires shared.Valid()
      modifies this`applied, shared`readIndex, shared`drained
      ensures shared.Valid() && Waiting(shared.Q()) == []
      ensures shared.scheduled == old(shared.scheduled)
      ensures applied == old(applied) + old(Waiting(shared.Q()))
      ensures last == if old(Waiting(shared.Q())) == [] then 0 else shared.scheduled[|shared.scheduled| - 1].serial
    {
      last := 0;
      ghost var todo := Waiting(shared.Q());
      while shared.readIndex != shared.writeIndex
        invariant shared.Valid() && shared.scheduled == old(shared.scheduled)
        invariant applied + Waiting(shared.Q()) == old(applied) + todo
        invariant |Waiting(shared.Q())| <= |todo|
        invariant last == if |Waiting(shared.Q())| == |todo| then 0 else shared.scheduled[shared.drained - 1].serial
        decreases |Waiting(shared.Q())|
      {
        last := DrainNext(old(applied) + todo);
      }
      IndexTests(shared.Q(), shared.drained);
    }

    /** The standalone entry point: the serial is published after the fence and under the lock. */
    method ApplyPendingGpuCopies()
      requires shared.Valid() && shared.lock.Free?
      modifies this, shared
      ensures shared.Valid() && shared.lock.Free? && Waiting(shared.Q()) == []
      ensures applied == old(applied) + old(Waiting(shared.Q()))
      ensures shared.scheduled == old(shared.scheduled) && shared.writeIndex == old(shared.writeIndex)
      ensures var w := old(Waiting(shared.Q()));
        shared.completedSerial == if w == [] || w[|w| - 1].serial == 0 then old(shared.completedSerial) else w[|w| - 1].serial
      ensures log == old(log) + DrainEvents(old(Waiting(shared.Q())))
    {
      IndexTests(shared.Q(), shared.drained);
      if shared.readIndex == shared.writeIndex {
        return;
      }
      ghost var w := Waiting(shared.Q());
      shared.lock := Renderer;
      var serial := ApplyPendingGpuCopiesLocked();
      log := log + [Lock, Drained(w)];
      if serial != 0 {
        WaitFence();
        ReportSerial(serial);
        log := log + [Notify];
      }
      shared.lock := Free;
      log := log + [Unlock];
    }
  }

  /** A drain of the copies `w`: nothing without copies, and no report without a serial. */
  ghost function DrainEvents(w: seq<Entry>): (es: seq<Event>) {
    if w == [] then []
    else if w[|w| - 1].serial == 0 then [Lock, Drained(w), Unlock]
    else [Lock, Drained(w), Fence, Report(w[|w| - 1].serial), Notify, Unlock]
  }

  /** Without interference the four scheduling steps of the protocol are what `TryScheduleGpuCopy` does. */
  lemma ScheduleSteps(cfg: Config, s: State, req: Request)
    requires Enabled(cfg, s, Snapshot(req)) && QueueInv(s.q) && |s.q.scheduled| < s.q.drained + CAPACITY
    ensures var s1 := Do(cfg, s, Snapshot(req));
      && Enabled(cfg, s1, Hold)
      && var s2 := Do(cfg, s1, Hold);
      && Enabled(cfg, s2, Fill)
      && var s3 := Do(cfg, s2, Fill);
      && var e := MakeEntry(req, s.counter + 1);
      Do(cfg, s3, Publish) == s.(q := PublishIndex(StoreSlot(s.q, s.q.writeIndex, e), s.q.writeIndex, e),
                                 mem := HoldFor(cfg, s.mem, req.src, req.dst),
                                 counter := s.counter + 1, outstanding := s.outstanding + [e])
  {
    IndexTests(s.q, s.q.drained);
  }
}
