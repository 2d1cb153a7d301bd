/**
  Reference conservation on the server side of the GPU copy protocol: reference counts and pending
  counters are exactly the uses that are scheduled and not yet acknowledged.
 */
module GpuCopyRefs {
  import opened GpuCopyProtocol

  /** How often a copy holds a buffer: as source, and as destination unless that is the screen. */
  function UsesIn(cfg: Config, e: Entry, b: Id): (n: nat) {
    (if e.src == b then 1 else 0) + (if e.dst == b && b != cfg.screen then 1 else 0)
  }

  function Uses(cfg: Config, es: seq<Entry>, b: Id): (n: nat) {
    if es == [] then 0 else UsesIn(cfg, es[0], b) + Uses(cfg, es[1..], b)
  }

  function RootUses(cfg: Config, es: seq<Entry>): (n: nat) {
    if es == [] then 0 else (if es[0].dst == cfg.screen then 1 else 0) + RootUses(cfg, es[1..])
  }

  lemma {:induction false} UsesConcat(cfg: Config, xs: seq<Entry>, ys: seq<Entry>, b: Id)
    ensures Uses(cfg, xs + ys, b) == Uses(cfg, xs, b) + Uses(cfg, ys, b)
    ensures RootUses(cfg, xs + ys) == RootUses(cfg, xs) + RootUses(cfg, ys)
  {
    if xs == [] {
      assert xs + ys == ys;
    } else {
      UsesConcat(cfg, xs[1..], ys, b);
      assert (xs + ys)[1..] == xs[1..] + ys;
    }
  }

  lemma UsesWithout(cfg: Config, es: seq<Entry>, i: nat, b: Id)
    requires i < |es|
    ensures Uses(cfg, Without(es, i), b) == Uses(cfg, es, b) - UsesIn(cfg, es[i], b)
    ensures RootUses(cfg, Without(es, i)) == RootUses(cfg, es) - (if es[i].dst == cfg.screen then 1 else 0)
  {
    UsesConcat(cfg, es[..i], es[i + 1..], b);
    UsesConcat(cfg, es[..i], es[i..], b);
    assert es == es[..i] + es[i..];
    assert es[i..][1..] == es[i + 1..];
  }

  lemma UsesOfMember(cfg: Config, es: seq<Entry>, e: Entry, b: Id)
    requires e in es
    ensures Uses(cfg, es, b) >= UsesIn(cfg, e, b)
    ensures e.dst == cfg.screen ==> RootUses(cfg, es) > 0
  {
    var i :| 0 <= i < |es| && es[i] == e;
    UsesWithout(cfg, es, i, b);
  }

  /** The references a buffer should have: its pixmap's own, plus one for every unacknowledged use. */
  function Count(cfg: Config, s: State, b: Id): (n: nat) {
    (if b in s.mem.pixmaps then 1 else 0) + Uses(cfg, s.outstanding, b)
  }

  /** The reference count is a 16-bit field: it can tell counts apart as long as they stay in this range. */
  ghost predicate Bounded(cfg: Config, s: State) {
    forall b <- s.mem.bufs :: Count(cfg, s, b) <= U16
  }

  /** A buffer map tells the truth about `b`: alive exactly while referenced, with these counters. */
  ghost predicate Agree(bufs: map<Id, Buffer>, b: Id, count: nat, uses: int) {
    && (b in bufs <==> count > 0)
    && (b in bufs ==> bufs[b].refs == count % U16 && bufs[b].pending == uses)
  }

  ghost predicate AgreeAt(cfg: Config, s: State, b: Id) {
    Agree(s.mem.bufs, b, Count(cfg, s, b), Uses(cfg, s.outstanding, b))
  }

  ghost predicate IsHardware(m: Memory, b: Id) {
    b in m.bufs && m.bufs[b].hardware
  }

  ghost predicate RefInv(cfg: Config, s: State) {
    && cfg.screen in s.mem.pixmaps
    && (forall b: Id :: AgreeAt(cfg, s, b))
    && s.mem.rootPending == RootUses(cfg, s.outstanding)
    && (forall e <- s.outstanding :: IsHardware(s.mem, e.src) && IsHardware(s.mem, e.dst))
    && (cfg.legacyDrawing ==> s.outstanding == [] && s.pc.Idle?)
    && (s.pc.Snapped? ==> IsHardware(s.mem, s.pc.req.src) && IsHardware(s.mem, s.pc.req.dst))
  }

  lemma AgreeAcquire(bufs: map<Id, Buffer>, x: Id, b: Id, count: nat, uses: int)
    requires Agree(bufs, b, count, uses) && x in bufs
    ensures Agree(Acquire(bufs, x), b, count + (if b == x then 1 else 0), uses)
  {}

  lemma AgreePending(bufs: map<Id, Buffer>, x: Id, b: Id, count: nat, uses: int, n: int)
    requires Agree(bufs, b, count, uses)
    ensures Agree(PendingAdd(bufs, x, n), b, count, uses + (if b == x then n else 0))
  {}

  lemma AgreeRelease(bufs: map<Id, Buffer>, x: Id, b: Id, count: nat, uses: int)
    requires Agree(bufs, b, count, uses) && count <= U16
    requires b == x ==> count > 0
    ensures Agree(Release(bufs, x), b, count - (if b == x then 1 else 0), uses)
  {}

  lemma HoldOne(cfg: Config, m: Memory, e: Entry, b: Id, count: nat, uses: int)
    requires Agree(m.bufs, b, count, uses) && e.src in m.bufs && e.dst in m.bufs
    ensures Agree(HoldFor(cfg, m, e.src, e.dst).bufs, b, count + UsesIn(cfg, e, b), uses + UsesIn(cfg, e, b))
  {
    AgreeAcquire(m.bufs, e.src, b, count, uses);
    var c1 := count + (if b == e.src then 1 else 0);
    var b0 := Acquire(m.bufs, e.src);
    AgreePending(b0, e.src, b, c1, uses, 1);
    if e.dst != cfg.screen {
      var u1 := uses + (if b == e.src then 1 else 0);
      var b1 := PendingAdd(b0, e.src, 1);
      AgreeAcquire(b1, e.dst, b, c1, u1);
      AgreePending(Acquire(b1, e.dst), e.dst, b, c1 + (if b == e.dst then 1 else 0), u1, 1);
    }
  }

  lemma HoldAgrees(cfg: Config, s: State, b: Id)
    requires RefInv(cfg, s) && s.pc.Snapped? && !Full(s.pc.w, s.pc.r)
    ensures AgreeAt(cfg, Do(cfg, s, Hold), b)
  {
    var e := MakeEntry(s.pc.req, s.counter + 1);
    assert AgreeAt(cfg, s, b);
    UsesConcat(cfg, s.outstanding, [e], b);
    HoldOne(cfg, s.mem, e, b, Count(cfg, s, b), Uses(cfg, s.outstanding, b));
  }

  lemma HoldKeepsRefs(cfg: Config, s: State)
    requires RefInv(cfg, s) && s.pc.Snapped? && !Full(s.pc.w, s.pc.r)
    ensures RefInv(cfg, Do(cfg, s, Hold))
  {
    var e := MakeEntry(s.pc.req, s.counter + 1);
    var t := Do(cfg, s, Hold);
    forall b: Id
      ensures AgreeAt(cfg, t, b)
    {
      HoldAgrees(cfg, s, b);
    }
    UsesConcat(cfg, s.outstanding, [e], 0);
    forall b: Id | IsHardware(s.mem, b)
      ensures IsHardware(t.mem, b)
    {}
  }

  lemma AckOne(cfg: Config, m: Memory, e: Entry, b: Id, count: nat, uses: int)
    requires Agree(m.bufs, b, count, uses) && UsesIn(cfg, e, b) <= count <= U16
    ensures Agree(AckFor(cfg, m, e.src, e.dst).bufs, b, count - UsesIn(cfg, e, b), uses - UsesIn(cfg, e, b))
  {
    AgreePending(m.bufs, e.src, b, count, uses, -1);
    var b1 := PendingAdd(m.bufs, e.src, -1);
    var u1 := uses - (if b == e.src then 1 else 0);
    if e.dst == cfg.screen {
      AgreeRelease(b1, e.src, b, count, u1);
    } else {
      AgreePending(b1, e.dst, b, count, u1, -1);
      var b2 := PendingAdd(b1, e.dst, -1);
      var u2 := u1 - (if b == e.dst then 1 else 0);
      AgreeRelease(b2, e.src, b, count, u2);
      AgreeRelease(Release(b2, e.src), e.dst, b, count - (if b == e.src then 1 else 0), u2);
    }
  }

  lemma AckAgrees(cfg: Config, s: State, i: nat, b: Id)
    requires RefInv(cfg, s) && Bounded(cfg, s) && Enabled(cfg, s, Ack(i))
    ensures AgreeAt(cfg, Do(cfg, s, Ack(i)), b)
  {
    assert AgreeAt(cfg, s, b);
    UsesWithout(cfg, s.outstanding, i, b);
    AckOne(cfg, s.mem, s.outstanding[i], b, Count(cfg, s, b), Uses(cfg, s.outstanding, b));
  }

  lemma AckKeepsRefs(cfg: Config, s: State, i: nat)
    requires RefInv(cfg, s) && Bounded(cfg, s) && Enabled(cfg, s, Ack(i))
    ensures RefInv(cfg, Do(cfg, s, Ack(i)))
  {
    var e := s.outstanding[i];
    var t := Do(cfg, s, Ack(i));
    forall b: Id
      ensures AgreeAt(cfg, t, b)
    {
      AckAgrees(cfg, s, i, b);
    }
    UsesWithout(cfg, s.outstanding, i, 0);
    forall f <- t.outstanding
      ensures IsHardware(t.mem, f.src) && IsHardware(t.mem, f.dst)
    {
      assert f in s.outstanding;
      AckKeepsHeld(cfg, s, t, f, e);
    }
  }

  lemma AckKeepsHeld(cfg: Config, s: State, t: State, f: Entry, e: Entry)
    requires f in t.outstanding && cfg.screen in t.mem.pixmaps
    requires IsHardware(s.mem, f.src) && IsHardware(s.mem, f.dst)
    requires t.mem == AckFor(cfg, s.mem, e.src, e.dst)
    requires AgreeAt(cfg, t, f.src) && AgreeAt(cfg, t, f.dst)
    ensures IsHardware(t.mem, f.src) && IsHardware(t.mem, f.dst)
  {
    UsesOfMember(cfg, t.outstanding, f, f.src);
    UsesOfMember(cfg, t.outstanding, f, f.dst);
  }

  lemma DestroyKeepsRefs(cfg: Config, s: State, id: Id)
    requires RefInv(cfg, s) && Bounded(cfg, s) && Enabled(cfg, s, DestroyPixmap(id))
    ensures RefInv(cfg, Do(cfg, s, DestroyPixmap(id)))
  {
    var t := Do(cfg, s, DestroyPixmap(id));
    forall b: Id
      ensures AgreeAt(cfg, t, b)
    {
      assert AgreeAt(cfg, s, b);
      AgreeRelease(s.mem.bufs, id, b, Count(cfg, s, b), Uses(cfg, s.outstanding, b));
    }
    forall f <- t.outstanding
      ensures IsHardware(t.mem, f.src) && IsHardware(t.mem, f.dst)
    {
      assert AgreeAt(cfg, t, f.src) && AgreeAt(cfg, t, f.dst);
      UsesOfMember(cfg, t.outstanding, f, f.src);
      UsesOfMember(cfg, t.outstanding, f, f.dst);
    }
  }

  lemma CreateKeepsRefs(cfg: Config, s: State, id: Id, h: bool)
    requires RefInv(cfg, s) && Enabled(cfg, s, CreatePixmap(id, h))
    ensures RefInv(cfg, Do(cfg, s, CreatePixmap(id, h)))
  {
    var t := Do(cfg, s, CreatePixmap(id, h));
    forall b: Id
      ensures AgreeAt(cfg, t, b)
    {
      assert AgreeAt(cfg, s, b);
    }
    forall f <- t.outstanding
      ensures IsHardware(t.mem, f.src) && IsHardware(t.mem, f.dst)
    {
      assert IsHardware(s.mem, f.src) && IsHardware(s.mem, f.dst);
    }
  }

  lemma ConvertKeepsRefs(cfg: Config, s: State, id: Id)
    requires RefInv(cfg, s) && Enabled(cfg, s, Convert(id))
    ensures RefInv(cfg, Do(cfg, s, Convert(id)))
  {
    var t := Do(cfg, s, Convert(id));
    forall b: Id
      ensures AgreeAt(cfg, t, b)
    {
      assert AgreeAt(cfg, s, b);
    }
    forall f <- t.outstanding
      ensures IsHardware(t.mem, f.src) && IsHardware(t.mem, f.dst)
    {
      assert IsHardware(s.mem, f.src) && IsHardware(s.mem, f.dst);
    }
  }

  lemma OtherStepKeepsRefs(cfg: Config, s: State, a: Action)
    requires Enabled(cfg, s, a) && RefInv(cfg, s)
    requires !a.CreatePixmap? && !a.DestroyPixmap? && !a.Convert? && !a.Hold? && !a.Ack?
    ensures RefInv(cfg, Do(cfg, s, a))
  {
    var t := Do(cfg, s, a);
    assert t.mem == s.mem && t.outstanding == s.outstanding;
    SameRefs(cfg, s, t);
  }

  lemma SameRefs(cfg: Config, s: State, t: State)
    requires RefInv(cfg, s) && t.mem == s.mem && t.outstanding == s.outstanding
    requires cfg.legacyDrawing ==> t.pc.Idle?
    requires t.pc.Snapped? ==> IsHardware(t.mem, t.pc.req.src) && IsHardware(t.mem, t.pc.req.dst)
    ensures RefInv(cfg, t)
  {
    forall b: Id
      ensures AgreeAt(cfg, t, b)
    {
      assert AgreeAt(cfg, s, b);
    }
  }

  lemma StepKeepsRefs(cfg: Config, s: State, a: Action)
    requires Enabled(cfg, s, a) && RefInv(cfg, s) && Bounded(cfg, s)
    ensures RefInv(cfg, Do(cfg, s, a))
  {
    if a.CreatePixmap? {
      CreateKeepsRefs(cfg, s, a.id, a.hardware);
    } else if a.DestroyPixmap? {
      DestroyKeepsRefs(cfg, s, a.id);
    } else if a.Convert? {
      ConvertKeepsRefs(cfg, s, a.id);
    } else if a.Hold? {
      HoldKeepsRefs(cfg, s);
    } else if a.Ack? {
      AckKeepsRefs(cfg, s, a.which);
    } else {
      OtherStepKeepsRefs(cfg, s, a);
    }
  }

  lemma InitRefs(cfg: Config, s: State)
    requires Init(cfg, s)
    ensures RefInv(cfg, s)
  {
    forall b: Id
      ensures AgreeAt(cfg, s, b)
    {}
  }

  lemma {:induction false} RunKeepsRefs(cfg: Config, ss: seq<State>, acts: seq<Action>, n: nat)
    requires IsRun(cfg, ss, acts) && n < |ss|
    requires forall i :: 0 <= i < n ==> Bounded(cfg, ss[i])
    ensures RefInv(cfg, ss[n])
  {
    if n == 0 {
      InitRefs(cfg, ss[0]);
    } else {
      RunKeepsRefs(cfg, ss, acts, n - 1);
      StepKeepsRefs(cfg, ss[n - 1], acts[n - 1]);
    }
  }

  /**
    Reference conservation over runs: counts and pending counters equal the unacknowledged uses, the
    screen's counter equals the unacknowledged screen copies, and nothing an unacknowledged copy
    holds is freed.
   */
  lemma ReferenceConservation(cfg: Config, ss: seq<State>, acts: seq<Action>, n: nat)
    requires IsRun(cfg, ss, acts) && n < |ss|
    requires forall i :: 0 <= i < n ==> Bounded(cfg, ss[i])
    ensures var m, o := ss[n].mem, ss[n].outstanding;
      && (forall b <- m.bufs :: m.bufs[b].refs == Count(cfg, ss[n], b) % U16 && m.bufs[b].pending == Uses(cfg, o, b))
      && m.rootPending == RootUses(cfg, o)
      && m.pixmaps <= m.bufs.Keys
      && (forall e <- o :: e.src in m.bufs && (e.dst in m.bufs))
      && (forall b <- m.bufs :: b in m.pixmaps || exists e <- o :: UsesIn(cfg, e, b) > 0)
  {
    RunKeepsRefs(cfg, ss, acts, n);
    var m, o := ss[n].mem, ss[n].outstanding;
    forall b: Id
      ensures b in m.bufs ==> m.bufs[b].refs == Count(cfg, ss[n], b) % U16 && m.bufs[b].pending == Uses(cfg, o, b)
      ensures b in m.pixmaps ==> b in m.bufs
      ensures b in m.bufs && b !in m.pixmaps ==> exists e <- o :: UsesIn(cfg, e, b) > 0
    {
      assert AgreeAt(cfg, ss[n], b);
      if b in m.bufs && b !in m.pixmaps {
        SomeUse(cfg, o, b);
      }
    }
    forall e <- o
      ensures e.src in m.bufs && e.dst in m.bufs
    {
      assert IsHardware(m, e.src) && IsHardware(m, e.dst);
    }
  }

  lemma {:induction false} SomeUse(cfg: Config, es: seq<Entry>, b: Id)
    requires Uses(cfg, es, b) > 0
    ensures exists e <- es :: UsesIn(cfg, e, b) > 0
  {
    if UsesIn(cfg, es[0], b) > 0 {
      assert es[0] in es;
    } else {
      SomeUse(cfg, es[1..], b);
    }
  }

  /**
    The bound is exact: a release frees the buffer when the true count is one more than a multiple
    of 65536, so the first count at which a held buffer is lost is 65537.
   */
  lemma ReleaseFreesExactlyAt(bufs: map<Id, Buffer>, b: Id, count: nat)
    requires b in bufs && 0 < count && bufs[b].refs == count % U16
    ensures b !in Release(bufs, b) <==> count % U16 == 1
    ensures count <= U16 ==> (b !in Release(bufs, b) <==> count == 1)
    ensures count == U16 + 1 ==> b !in Release(bufs, b)
  {}
}
