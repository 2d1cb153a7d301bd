/** The renderer's buffer list operations as written, proved to be the operations of `BufferLists`. */
module BufferListsCode {
  import opened BufferLists

  /** Progress of a loop that releases the front of `hs` until it is gone: `k` of its buffers are freed so far. */
  ghost predicate Freeing(was: Lists, now: Lists, hs: seq<Handle>, k: nat, who: Who)
    requires forall h <- hs :: h in was.live
  {
    && k <= |hs|
    && now.live.Keys == was.live.Keys - Elems(hs[..k])
    && (forall h <- now.live :: h !in hs[k..] ==> now.live[h] == was.live[h])
    && (forall h <- now.live :: now.live[h].attached == was.live[h].attached)
    && (assert forall h <- hs[..k] :: h in hs; now.freed == was.freed + LogFreed(was.live, hs[..k], who))
  }

  lemma ElemsSnoc(hs: seq<Handle>, k: nat)
    requires k < |hs|
    ensures Elems(hs[..k + 1]) == Elems(hs[..k]) + {hs[k]}
    ensures forall h :: h in hs[k..] <==> h == hs[k] || h in hs[k + 1..]
  {
    assert hs[..k + 1] == hs[..k] + [hs[k]];
    assert hs[k..] == [hs[k]] + hs[k + 1..];
  }

  lemma LogSnoc(live: map<Handle, Buffer>, hs: seq<Handle>, k: nat, who: Who)
    requires k < |hs| && forall h <- hs :: h in live
    ensures (forall h <- hs[..k] :: h in live) && (forall h <- hs[..k + 1] :: h in live)
    ensures LogFreed(live, hs[..k + 1], who) == LogFreed(live, hs[..k], who) + [Freed(hs[k], live[hs[k]].attached, who)]
  {}

  lemma FreeingLast(was: Lists, mid: Lists, hs: seq<Handle>, k: nat, who: Who)
    requires (forall h <- hs :: h in was.live) && k < |hs|
    requires Freeing(was, mid, hs, k, who) && hs[k] in mid.live && mid.live[hs[k]].refs == 1
    ensures Freeing(was, Release(mid, hs[k], who), hs, k + 1, who)
  {
    ElemsSnoc(hs, k);
    LogSnoc(was.live, hs, k, who);
    var r := Release(mid, hs[k], who);
    assert r.live.Keys == mid.live.Keys - {hs[k]};
    assert r.freed == was.freed + LogFreed(was.live, hs[..k + 1], who);
  }

  lemma FreeingMore(was: Lists, mid: Lists, hs: seq<Handle>, k: nat, who: Who)
    requires (forall h <- hs :: h in was.live) && k < |hs|
    requires Freeing(was, mid, hs, k, who) && hs[k] in mid.live && mid.live[hs[k]].refs != 1
    ensures Freeing(was, Release(mid, hs[k], who), hs, k, who)
  {
    var r := Release(mid, hs[k], who);
    assert r.live.Keys == mid.live.Keys && hs[k] in hs[k..];
  }

  lemma FreeingStep(was: Lists, mid: Lists, hs: seq<Handle>, k: nat, who: Who)
    requires (forall h <- hs :: h in was.live) && k < |hs|
    requires Freeing(was, mid, hs, k, who) && hs[k] in mid.live
    ensures Freeing(was, Release(mid, hs[k], who), hs, if mid.live[hs[k]].refs == 1 then k + 1 else k, who)
  {
    if mid.live[hs[k]].refs == 1 {
      FreeingLast(was, mid, hs, k, who);
    } else {
      FreeingMore(was, mid, hs, k, who);
    }
  }

  lemma FreeingDone(was: Lists, now: Lists, hs: seq<Handle>, who: Who)
    requires (forall h <- hs :: h in was.live) && Freeing(was, now, hs, |hs|, who)
    ensures now.live == was.live - Elems(hs) && now.freed == was.freed + LogFreed(was.live, hs, who)
  {
    assert hs[..|hs|] == hs;
  }

  lemma {:induction false} RemoveAbsent(s: seq<Handle>, h: Handle)
    requires h !in s
    ensures Remove(s, h) == s
  {
    if s != [] {
      RemoveAbsent(s[1..], h);
    }
  }

  /** Releasing the front of the added list takes it off that list, if at all, and off no other. */
  lemma ReleaseFrontOfAdded(l: Lists, who: Who)
    requires Inv(l) && l.added != []
    ensures var h := l.added[0]; h in l.live && l.live[h].refs > 0 && Inv(Release(l, h, who))
    ensures var h, r := l.added[0], Release(l, l.added[0], who);
      && r.added == (if l.live[h].refs == 1 then l.added[1..] else l.added)
      && r.buffers == l.buffers && r.removed == l.removed && r.arrived == l.arrived && r.picked == l.picked
  {
    var h := l.added[0];
    assert At(l, h);
    RemoveAbsent(l.buffers, h);
    RemoveAbsent(l.removed, h);
    ReleaseKeepsInv(l, h, who);
  }

  lemma ReleaseFrontOfRemoved(l: Lists)
    requires Inv(l) && l.removed != [] && l.picked == {}
    ensures var h := l.removed[0]; h in l.live && l.live[h].refs > 0 && Inv(Release(l, h, RendererThread))
    ensures var h, r := l.removed[0], Release(l, l.removed[0], RendererThread);
      && r.removed == (if l.live[h].refs == 1 then l.removed[1..] else l.removed)
      && r.buffers == l.buffers && r.added == l.added && r.arrived == l.arrived && r.picked == l.picked
  {
    var h := l.removed[0];
    assert At(l, h);
    RemoveAbsent(l.buffers, h);
    RemoveAbsent(l.added, h);
    ReleaseKeepsInv(l, h, RendererThread);
  }

  lemma UnpickedInv(l: Lists)
    requires Inv(l)
    ensures Inv(l.(picked := {}))
  {
    forall h: Handle
      ensures At(l.(picked := {}), h)
    {
      assert At(l, h);
    }
  }

  lemma AttachStep(was: Lists, added: seq<Handle>, buffers: seq<Handle>, k: nat)
    requires k < |was.added| && added == was.added[k..] && forall h <- was.added :: h in was.live
    ensures var h := was.added[k];
      && added[1..] == was.added[k + 1..] && Rev(added) + buffers == Rev(added[1..]) + ([h] + buffers)
      && h in was.live
      && Attached(was.live, Elems(was.added[..k + 1])) ==
         var m := Attached(was.live, Elems(was.added[..k])); m[h := m[h].(attached := true)]
  {
    ElemsSnoc(was.added, k);
    assert was.added[k] in was.added;
  }

  class RendererBuffers {
    var added: seq<Handle>
    var buffers: seq<Handle>
    var removed: seq<Handle>
    var live: map<Handle, Buffer>
    ghost var freed: seq<Freed>
    ghost var arrived: set<Handle>
    ghost var picked: set<Handle>

    constructor ()
      ensures Init(View())
    {
      added, buffers, removed, live := [], [], [], map[];
      freed, arrived, picked := [], {}, {};
    }

    ghost function View(): Lists
      reads this
    {
      Lists(added, buffers, removed, live, freed, arrived, picked)
    }

    method AddBuffer(h: Handle, id: nat, refs: nat)
      modifies this
      ensures View() == Add(old(View()), h, id, refs)
    {
      added := [h] + added;
      live := live[h := Buffer(id, refs, false)];
      arrived := arrived + {h};
    }

    method ReleaseBuffer(h: Handle, who: Who)
      requires h in live
      modifies this`added, this`buffers, this`removed, this`live, this`freed
      ensures View() == Release(old(View()), h, who)
    {
      if live[h].refs == 1 {
        freed := freed + [Freed(h, live[h].attached, who)];
        added, buffers, removed := Remove(added, h), Remove(buffers, h), Remove(removed, h);
        live := live - {h};
      } else {
        live := live[h := live[h].(refs := if live[h].refs > 0 then live[h].refs - 1 else 0)];
      }
    }

    method RemoveBuffer(id: nat)
      modifies this
      ensures View() == RemoveById(old(View()), id)
    {
      var found := FindById(live, added, id);
      if found != [] {
        ReleaseBuffer(found[0], MainThread);
      } else {
        found := FindById(live, buffers, id);
        if found != [] {
          buffers, removed := Remove(buffers, found[0]), [found[0]] + removed;
        }
      }
    }

    /** Releases the front of the removed list until the list is empty. */
    method ReleaseRemovedBuffers()
      requires Inv(View())
      modifies this
      ensures (forall h <- old(removed) :: h in old(live)) && View() == ReleaseRemoved(old(View()))
    {
      ghost var was := View();
      AllListedLive(was);
      UnpickedInv(was);
      picked := {};
      ghost var k := 0;
      while removed != []
        invariant k <= |was.removed| && removed == was.removed[k..] && added == was.added && buffers == was.buffers
        invariant arrived == was.arrived && picked == {}
        invariant Inv(View()) && Freeing(was, View(), was.removed, k, RendererThread)
        decreases |removed|, if removed != [] && removed[0] in live then live[removed[0]].refs else 0
      {
        ghost var mid := View();
        assert removed[0] == was.removed[k] && At(was, was.removed[k]);
        ReleaseFrontOfRemoved(mid);
        FreeingStep(was, mid, was.removed, k, RendererThread);
        ReleaseBuffer(removed[0], RendererThread);
        k := if mid.live[was.removed[k]].refs == 1 then k + 1 else k;
      }
      FreeingDone(was, View(), was.removed, RendererThread);
    }

    /** Releases every buffer not attached yet, then hands every attached one to the renderer. */
    method RemoveAllBuffers(who: Who)
      requires Inv(View())
      modifies this
      ensures (forall h <- old(added) :: h in old(live)) && View() == RemoveAll(old(View()), who)
    {
      ghost var was := View();
      AllListedLive(was);
      ghost var k := 0;
      while added != []
        invariant k <= |was.added| && added == was.added[k..] && removed == was.removed && buffers == was.buffers
        invariant arrived == was.arrived && picked == was.picked
        invariant Inv(View()) && Freeing(was, View(), was.added, k, who)
        decreases |added|, if added != [] && added[0] in live then live[added[0]].refs else 0
      {
        ghost var mid := View();
        assert added[0] == was.added[k] && At(was, was.added[k]);
        ReleaseFrontOfAdded(mid, who);
        FreeingStep(was, mid, was.added, k, who);
        ReleaseBuffer(added[0], who);
        k := if mid.live[was.added[k]].refs == 1 then k + 1 else k;
      }
      FreeingDone(was, View(), was.added, who);
      MoveBuffersToRemoved();
    }

    method MoveBuffersToRemoved()
      modifies this`buffers, this`removed
      ensures buffers == [] && removed == Rev(old(buffers)) + old(removed)
    {
      while buffers != []
        invariant Rev(buffers) + removed == Rev(old(buffers)) + old(removed)
        decreases |buffers|
      {
        var h := buffers[0];
        assert Rev(buffers) + removed == Rev(buffers[1..]) + ([h] + removed);
        buffers, removed := buffers[1..], [h] + removed;
      }
    }

    /** Attaches every added buffer to GL, front of the list first. */
    method AttachPending()
      requires Inv(View())
      modifies this`added, this`buffers, this`live
      ensures View() == AttachAll(old(View()))
    {
      ghost var was := View();
      AllListedLive(was);
      ghost var k := 0;
      while added != []
        invariant k <= |was.added| && added == was.added[k..]
        invariant Rev(added) + buffers == Rev(was.added) + was.buffers
        invariant live == Attached(was.live, Elems(was.added[..k]))
        decreases |added|
      {
        var h := added[0];
        assert h == was.added[k] && h in was.added;
        AttachStep(was, added, buffers, k);
        live := live[h := live[h].(attached := true)];
        added, buffers := added[1..], [h] + buffers;
        k := k + 1;
      }
      assert was.added[..k] == was.added;
    }

    /** One attempt to find a copy's buffer. */
    method FindOnce(id: nat) returns (found: seq<Handle>)
      modifies this
      ensures View() == Find(old(View()), id)
      ensures |found| <= 1 && forall h <- found :: h in buffers && h in picked && h in live && live[h].id == id
      ensures found != [] <==> exists h :: (h in old(buffers) || h in old(added)) && h in old(live) && old(live)[h].id == id
    {
      found := FindById(live, buffers, id);
      if found == [] {
        found := FindById(live, added, id);
        if found != [] {
          live := Attached(live, {found[0]});
          added, buffers := Remove(added, found[0]), [found[0]] + buffers;
        }
      }
      if found != [] {
        picked := picked + {found[0]};
      }
    }
  }
}
