/**
  The deferred GPU copy protocol between the X server and the renderer, as a step relation.

  The X server (one thread) schedules copies into a ring of eight slots in shared memory, polls a
  completion serial, acknowledges copies and opens CPU accesses to pixmaps.  The renderer (another
  process) drains the ring under a shared mutex, submits draws, waits for a fence and publishes the
  serial.  Every action below is one indivisible step of one of the two; a run is any interleaving.
  `scheduled`, `drained`, `fenced` and `outstanding` are history: no code reads them.
 */
module GpuCopyProtocol {

  type Id = nat

  const CAPACITY: nat := 8
  const MAX_RECTS: nat := 16
  const U32: nat := 0x1_0000_0000
  const U16: nat := 0x1_0000

  datatype Rect = Rect(x1: int, y1: int, x2: int, y2: int)

  datatype Request = Request(src: Id, dst: Id, xOff: int, yOff: int, rects: seq<Rect>)

  datatype Entry = Entry(serial: nat, src: Id, dst: Id, xOff: int, yOff: int, rects: seq<Rect>)

  function MakeEntry(req: Request, serial: nat): Entry {
    Entry(serial, req.src, req.dst, req.xOff, req.yOff, req.rects)
  }

  // ---------------------------------------------------------------- the ring

  /** The shared ring: two 32-bit indices and eight slots, with the copies published so far and how many were drained. */
  datatype Queue = Queue(writeIndex: nat, readIndex: nat, slots: seq<Entry>, scheduled: seq<Entry>, drained: nat)

  ghost predicate QueueInv(q: Queue) {
    && |q.slots| == CAPACITY
    && q.drained <= |q.scheduled| <= q.drained + CAPACITY
    && q.writeIndex == |q.scheduled| % U32
    && q.readIndex == q.drained % U32
    && forall i :: q.drained <= i < |q.scheduled| ==> q.slots[i % CAPACITY] == q.scheduled[i]
  }

  /** The unsigned 32-bit test of the producer against the two indices it read. */
  predicate Full(writeIndex: nat, readIndex: nat) {
    (writeIndex - readIndex) % U32 >= CAPACITY
  }

  function StoreSlot(q: Queue, w: nat, e: Entry): (r: Queue)
    requires |q.slots| == CAPACITY
  {
    q.(slots := q.slots[w % CAPACITY := e])
  }

  function PublishIndex(q: Queue, w: nat, e: Entry): (r: Queue) {
    q.(writeIndex := (w + 1) % U32, scheduled := q.scheduled + [e])
  }

  function AdvanceIndex(q: Queue): (r: Queue) {
    q.(readIndex := (q.readIndex + 1) % U32, drained := q.drained + 1)
  }

  /** What the ring stands for: an unbounded FIFO of published, undrained copies. */
  ghost function Waiting(q: Queue): seq<Entry>
    requires QueueInv(q)
  {
    q.scheduled[q.drained..]
  }

  lemma IndexSlot(n: nat)
    ensures (n % U32) % CAPACITY == n % CAPACITY
  {}

  lemma IndexNext(n: nat)
    ensures (n % U32 + 1) % U32 == (n + 1) % U32
  {}

  lemma IndexDistance(w: nat, r: nat)
    requires r <= w <= r + CAPACITY
    ensures (w % U32 - r % U32) % U32 == w - r
  {
    assert w == U32 * (w / U32) + w % U32;
    assert r == U32 * (r / U32) + r % U32;
    var k := w / U32 - r / U32;
    assert w % U32 - r % U32 == (w - r) - U32 * k;
    assert -1 < k < 2;
  }

  lemma SameSlot(i: nat, j: nat)
    requires i < j < i + CAPACITY
    ensures i % CAPACITY != j % CAPACITY
  {}

  /** Both index tests decide exactly what they mean on the unbounded counts, across 32-bit wrap-around. */
  lemma IndexTests(q: Queue, at: nat)
    requires QueueInv(q)
    requires at <= q.drained && |q.scheduled| <= at + CAPACITY
    ensures Full(q.writeIndex, at % U32) <==> |q.scheduled| - at == CAPACITY
    ensures q.readIndex == q.writeIndex <==> Waiting(q) == []
  {
    IndexDistance(|q.scheduled|, at);
    IndexDistance(|q.scheduled|, q.drained);
  }

  /** Writing anything at all into the producer's slot leaves every unread copy alone while the ring is not full. */
  lemma StoreKeepsUnread(q: Queue, e: Entry)
    requires QueueInv(q) && |q.scheduled| < q.drained + CAPACITY
    ensures QueueInv(StoreSlot(q, q.writeIndex, e))
    ensures Waiting(StoreSlot(q, q.writeIndex, e)) == Waiting(q)
  {
    IndexSlot(|q.scheduled|);
    forall i | q.drained <= i < |q.scheduled|
      ensures i % CAPACITY != q.writeIndex % CAPACITY
    {
      SameSlot(i, |q.scheduled|);
    }
  }

  /** Publishing a filled slot appends to the FIFO. */
  lemma PublishIsEnqueue(q: Queue, e: Entry)
    requires QueueInv(q) && |q.scheduled| < q.drained + CAPACITY
    requires q.slots[q.writeIndex % CAPACITY] == e
    ensures QueueInv(PublishIndex(q, q.writeIndex, e))
    ensures Waiting(PublishIndex(q, q.writeIndex, e)) == Waiting(q) + [e]
  {
    IndexSlot(|q.scheduled|);
    IndexNext(|q.scheduled|);
  }

  /** Advancing the read index removes the head of the FIFO, and the slot it pointed at held that head. */
  lemma AdvanceIsDequeue(q: Queue)
    requires QueueInv(q) && Waiting(q) != []
    ensures q.slots[q.readIndex % CAPACITY] == Waiting(q)[0]
    ensures QueueInv(AdvanceIndex(q))
    ensures Waiting(AdvanceIndex(q)) == Waiting(q)[1..]
  {
    IndexSlot(q.drained);
    IndexNext(q.drained);
  }

  // ------------------------------------------------- buffers on the server side

  /** A server-side buffer: its 16-bit reference count, its pending counter, and whether it is hardware-buffer backed. */
  datatype Buffer = Buffer(refs: nat, pending: int, hardware: bool)

  /** Live buffers, the pixmaps that own one (a pixmap is named by its buffer), and the screen's pending counter. */
  datatype Memory = Memory(bufs: map<Id, Buffer>, pixmaps: set<Id>, rootPending: int)

  datatype Config = Config(screen: Id, legacyDrawing: bool)

  function Acquire(bufs: map<Id, Buffer>, b: Id): (r: map<Id, Buffer>)
    ensures r.Keys == bufs.Keys
  {
    if b in bufs then bufs[b := bufs[b].(refs := (bufs[b].refs + 1) % U16)] else bufs
  }

  function PendingAdd(bufs: map<Id, Buffer>, b: Id, n: int): (r: map<Id, Buffer>)
    ensures r.Keys == bufs.Keys
  {
    if b in bufs then bufs[b := bufs[b].(pending := bufs[b].pending + n)] else bufs
  }

  /** Drops a reference; the buffer is freed when the count read was one. */
  function Release(bufs: map<Id, Buffer>, b: Id): (r: map<Id, Buffer>) {
    if b !in bufs then bufs
    else if bufs[b].refs == 1 then bufs - {b}
    else bufs[b := bufs[b].(refs := (bufs[b].refs - 1) % U16)]
  }

  /** The references and pending marks taken for a copy before it is put in its slot. */
  function HoldFor(cfg: Config, m: Memory, src: Id, dst: Id): (r: Memory) {
    var b1 := PendingAdd(Acquire(m.bufs, src), src, 1);
    if dst == cfg.screen then m.(bufs := b1, rootPending := m.rootPending + 1)
    else m.(bufs := PendingAdd(Acquire(b1, dst), dst, 1))
  }

  /** What acknowledging a copy gives back: all pending marks first, then the references. */
  function AckFor(cfg: Config, m: Memory, src: Id, dst: Id): (r: Memory) {
    var b1 := PendingAdd(m.bufs, src, -1);
    if dst == cfg.screen then m.(bufs := Release(b1, src), rootPending := m.rootPending - 1)
    else m.(bufs := Release(Release(PendingAdd(b1, dst, -1), src), dst))
  }

  // ------------------------------------------------------------------ the state

  datatype Mutex = Free | Server(depth: nat) | Renderer

  /** How a CPU access was opened: as drawing destination, as auxiliary destination, or only to read. */
  datatype Index = Dest | AuxDest | Source

  datatype Access = Access(pixmap: Id, index: Index, locked: bool)

  predicate Writes(i: Index) { i != Source }

  datatype ServerPc =
    | Idle
    | Snapped(req: Request, w: nat, r: nat, at: nat)
    | Held(e: Entry)
    | Filled(e: Entry)

  /** Where the renderer is; `last` is the serial of the last copy drained under this lock, or zero. */
  datatype RendererPc =
    | Asleep
    | Loop(redraw: bool, last: nat)
    | Copying(redraw: bool, last: nat)
    | GotHead(redraw: bool, last: nat, serial: nat, src: Id, dst: Id)
    | Got(redraw: bool, last: nat, e: Entry)
    | LoopDone(redraw: bool, last: nat)
    | RootDrawn(last: nat)
    | Fenced(last: nat)
    | Finished

  datatype State = State(
    q: Queue, fenced: nat, completed: nat,
    pc: ServerPc, counter: nat, outstanding: seq<Entry>, mem: Memory,
    open: seq<Access>, leaked: nat,
    lock: Mutex, ren: RendererPc)

  datatype Action =
    // X server
    | CreatePixmap(id: Id, hardware: bool)
    | DestroyPixmap(id: Id)
    | Convert(id: Id)
    | Snapshot(req: Request)
    | GiveUp
    | Hold
    | Scribble(junk: Entry)
    | Fill
    | Publish
    | Ack(which: nat)
    | Prepare(pixmap: Id, index: Index, ok: bool)
    | Finish(which: nat)
    // renderer
    | TakeLock(redraw: bool)
    | LoadIndex
    | ReadHead
    | ReadBody
    | Advance
    | DrawRoot
    | WaitFence
    | PublishSerial
    | DropLock

  predicate NeedsGpuLock(cfg: Config, m: Memory, p: Id, i: Index) {
    if p == cfg.screen then i == Dest || (m.rootPending != 0 && !cfg.legacyDrawing)
    else !cfg.legacyDrawing && p in m.bufs && m.bufs[p].hardware && m.bufs[p].pending != 0
  }

  predicate IsDone(s: State, serial: nat) {
    s.completed >= serial
  }

  /**
    When a step can be taken.  Four guards are facts of the surrounding server: buffers are numbered
    from a counter and no number is used again; a pixmap stays alive while a presentation using it as
    source is unacknowledged; scheduling and acknowledging happen outside a CPU access; the screen is
    never opened as an auxiliary destination, nor destroyed.
   */
  predicate Enabled(cfg: Config, s: State, a: Action) {
    match a
    case CreatePixmap(id, _) => s.pc.Idle? && id !in s.mem.bufs && id !in s.mem.pixmaps && id != cfg.screen
      && (forall e <- s.q.scheduled :: e.src != id && e.dst != id)
    case DestroyPixmap(id) => s.pc.Idle? && id in s.mem.pixmaps && id != cfg.screen && s.open == []
      && (forall e <- s.outstanding :: e.src != id)
    case Convert(id) => s.pc.Idle? && s.open == [] && id in s.mem.bufs
    case Snapshot(req) => s.pc.Idle? && s.open == [] && !cfg.legacyDrawing && 0 < |req.rects| <= MAX_RECTS
      && req.src in s.mem.pixmaps && req.dst in s.mem.pixmaps
      && req.src in s.mem.bufs && req.dst in s.mem.bufs
      && s.mem.bufs[req.src].hardware && s.mem.bufs[req.dst].hardware
    case GiveUp => s.pc.Snapped? && Full(s.pc.w, s.pc.r)
    case Hold => s.pc.Snapped? && !Full(s.pc.w, s.pc.r)
    case Scribble(_) => s.pc.Held? && |s.q.slots| == CAPACITY
    case Fill => s.pc.Held? && |s.q.slots| == CAPACITY
    case Publish => s.pc.Filled?
    case Ack(i) => s.pc.Idle? && s.open == [] && i < |s.outstanding|
    case Prepare(p, i, _) => s.pc.Idle? && p in s.mem.pixmaps && !(p == cfg.screen && i == AuxDest)
      && (NeedsGpuLock(cfg, s.mem, p, i) ==> !s.lock.Renderer?)
    case Finish(i) => s.pc.Idle? && i < |s.open|
    case TakeLock(_) => s.ren.Asleep? && s.lock.Free?
    case LoadIndex => s.ren.Loop?
    case ReadHead => s.ren.Copying? && |s.q.slots| == CAPACITY
    case ReadBody => s.ren.GotHead? && |s.q.slots| == CAPACITY
    case Advance => s.ren.Got?
    case DrawRoot => s.ren.LoopDone? && s.ren.redraw
    case WaitFence => s.ren.RootDrawn? || (s.ren.LoopDone? && !s.ren.redraw && s.ren.last != 0)
    case PublishSerial => s.ren.Fenced? && s.ren.last != 0
    case DropLock => s.ren.Finished? || (s.ren.Fenced? && s.ren.last == 0)
                     || (s.ren.LoopDone? && !s.ren.redraw && s.ren.last == 0)
  }

  function LockServer(l: Mutex): (r: Mutex)
    requires !l.Renderer?
  {
    if l.Server? then Server(l.depth + 1) else Server(1)
  }

  function UnlockServer(l: Mutex): (r: Mutex) {
    if l.Server? && l.depth > 1 then Server(l.depth - 1) else Free
  }

  function Without<T>(s: seq<T>, i: nat): (r: seq<T>)
    requires i < |s|
    ensures |r| == |s| - 1
    ensures forall x <- s :: x != s[i] ==> x in r
    ensures forall x <- r :: x in s
  {
    assert forall x <- s :: x != s[i] ==> x in s[..i] || x in s[i + 1..];
    s[..i] + s[i + 1..]
  }

  function Do(cfg: Config, s: State, a: Action): (r: State)
    requires Enabled(cfg, s, a)
  {
    match a
    case CreatePixmap(id, h) =>
      s.(mem := s.mem.(bufs := s.mem.bufs[id := Buffer(1, 0, h)], pixmaps := s.mem.pixmaps + {id}))
    case DestroyPixmap(id) =>
      s.(mem := s.mem.(bufs := Release(s.mem.bufs, id), pixmaps := s.mem.pixmaps - {id}))
    case Convert(id) =>
      s.(mem := s.mem.(bufs := s.mem.bufs[id := s.mem.bufs[id].(hardware := true)]))
    case Snapshot(req) =>
      s.(pc := Snapped(req, s.q.writeIndex, s.q.readIndex, s.q.drained))
    case GiveUp => s.(pc := Idle)
    case Hold =>
      var e := MakeEntry(s.pc.req, s.counter + 1);
      s.(pc := Held(e), mem := HoldFor(cfg, s.mem, e.src, e.dst), outstanding := s.outstanding + [e])
    case Scribble(junk) => s.(q := StoreSlot(s.q, s.q.writeIndex, junk))
    case Fill => s.(q := StoreSlot(s.q, s.q.writeIndex, s.pc.e), counter := s.counter + 1, pc := Filled(s.pc.e))
    case Publish => s.(q := PublishIndex(s.q, s.q.writeIndex, s.pc.e), pc := Idle)
    case Ack(i) =>
      var e := s.outstanding[i];
      s.(mem := AckFor(cfg, s.mem, e.src, e.dst), outstanding := Without(s.outstanding, i))
    case Prepare(p, i, ok) =>
      var needs := NeedsGpuLock(cfg, s.mem, p, i);
      var l := if needs then LockServer(s.lock) else s.lock;
      if ok then s.(lock := l, open := s.open + [Access(p, i, needs)])
      else s.(lock := l, leaked := s.leaked + (if needs then 1 else 0))
    case Finish(i) =>
      var needs := NeedsGpuLock(cfg, s.mem, s.open[i].pixmap, s.open[i].index);
      s.(lock := if needs then UnlockServer(s.lock) else s.lock, open := Without(s.open, i))
    case TakeLock(redraw) => s.(lock := Renderer, ren := Loop(redraw, 0))
    case LoadIndex =>
      if s.q.readIndex != s.q.writeIndex then s.(ren := Copying(s.ren.redraw, s.ren.last))
      else s.(ren := LoopDone(s.ren.redraw, s.ren.last))
    case ReadHead =>
      var e := s.q.slots[s.q.readIndex % CAPACITY];
      s.(ren := GotHead(s.ren.redraw, s.ren.last, e.serial, e.src, e.dst))
    case ReadBody =>
      var e := s.q.slots[s.q.readIndex % CAPACITY];
      s.(ren := Got(s.ren.redraw, s.ren.last, Entry(s.ren.serial, s.ren.src, s.ren.dst, e.xOff, e.yOff, e.rects)))
    case Advance => s.(q := AdvanceIndex(s.q), ren := Loop(s.ren.redraw, s.ren.e.serial))
    case DrawRoot => s.(ren := RootDrawn(s.ren.last))
    case WaitFence => s.(ren := Fenced(s.ren.last), fenced := s.q.drained)
    case PublishSerial => s.(completed := s.ren.last, ren := Finished)
    case DropLock => s.(lock := Free, ren := Asleep)
  }

  ghost predicate Init(cfg: Config, s: State) {
    && s.q.writeIndex == 0 && s.q.readIndex == 0 && |s.q.slots| == CAPACITY && s.q.scheduled == [] && s.q.drained == 0
    && s.fenced == 0 && s.completed == 0
    && s.pc == Idle && s.counter == 0 && s.outstanding == []
    && s.mem.pixmaps == {cfg.screen} && s.mem.rootPending == 0
    && s.mem.bufs == map[cfg.screen := Buffer(1, 0, !cfg.legacyDrawing)]
    && s.open == [] && s.leaked == 0 && s.lock == Free && s.ren == Asleep
  }

  /** A run: states linked by enabled actions, in any interleaving. */
  ghost predicate IsRun(cfg: Config, ss: seq<State>, acts: seq<Action>) {
    && |ss| == |acts| + 1
    && Init(cfg, ss[0])
    && forall i :: 0 <= i < |acts| ==> Enabled(cfg, ss[i], acts[i]) && ss[i + 1] == Do(cfg, ss[i], acts[i])
  }
}
