/**
  From the call to the pixels: what a scheduled copy does when its entry is drained.
 */
module GpuCopyDrawing {
  import Protocol = GpuCopyProtocol
  import Code = GpuCopyCode
  import opened CopyGeometry

  function DrawnRect(r: Protocol.Rect): (q: Rect) {
    Rect(r.x1, r.y1, r.x2, r.y2)
  }

  /** The entry the renderer drains, as the drawing sees it. */
  function DrawnEntry(e: Protocol.Entry): (f: Entry) {
    Entry(e.src, e.dst, seq(|e.rects|, i requires 0 <= i < |e.rects| => DrawnRect(e.rects[i])), e.xOff, e.yOff)
  }

  predicate Within(r: Protocol.Rect, x: int, y: int) {
    r.x1 <= x < r.x2 && r.y1 <= y < r.y2
  }

  /** Draining an entry puts every source pixel of its rectangles at its position plus the offset, as far as that lies in the
      destination, and changes nothing else. */
  lemma EntryLands(m: Memory, e: Protocol.Entry, x: int, y: int)
    requires MemoryOk(m) && e.src in m && e.dst in m && InImage(m[e.dst], x + e.xOff, y + e.yOff)
    ensures CopyEntry(m, DrawnEntry(e))[e.dst].pixel(x + e.xOff, y + e.yOff)
      == if exists i :: 0 <= i < |e.rects| && Within(e.rects[i], x, y) then m[e.src].pixel(x, y)
         else m[e.dst].pixel(x + e.xOff, y + e.yOff)
    ensures forall id :: id in m && id != e.dst ==> CopyEntry(m, DrawnEntry(e))[id] == m[id]
  {
    var f := DrawnEntry(e);
    CopiedPixels(m[e.src], m[e.dst], f.rects, e.xOff, e.yOff, x + e.xOff, y + e.yOff);
    forall i | 0 <= i < |e.rects|
      ensures Inside(f.rects[i], e.xOff, e.yOff, x + e.xOff, y + e.yOff) <==> Within(e.rects[i], x, y)
    {}
    if i :| 0 <= i < |e.rects| && Within(e.rects[i], x, y) {
      assert Inside(f.rects[i], e.xOff, e.yOff, x + e.xOff, y + e.yOff);
    }
  }

  /** The source pixels a call asks to copy: those of the region, or all of them. */
  ghost predicate Asked(src: Code.PixmapPriv, update: Code.Option<seq<Protocol.Rect>>, x: int, y: int) {
    if update.None? then 0 <= x < src.width && 0 <= y < src.height
    else exists i :: 0 <= i < |update.value| && Within(update.value[i], x, y)
  }

  lemma AskedIs(rects: seq<Protocol.Rect>, src: Code.PixmapPriv, update: Code.Option<seq<Protocol.Rect>>, x: int, y: int)
    requires 0 <= src.width < 32768 && 0 <= src.height < 32768
    requires update.Some? ==> rects == update.value
    requires update.None? ==> |rects| == 1 && Code.IsWhole(rects[0], src.width, src.height)
    ensures (exists i :: 0 <= i < |rects| && Within(rects[i], x, y)) <==> Asked(src, update, x, y)
  {
    if update.None? {
      assert Within(rects[0], x, y) <==> Asked(src, update, x, y);
    }
  }

  /** The entry a successful call publishes. */
  method ScheduleEntry(xs: Code.XServer, src: Code.PixmapPriv, dst: Code.PixmapPriv,
                       update: Code.Option<seq<Protocol.Rect>>, xOff: int, yOff: int, env: Code.Env)
    returns (r: Code.Outcome, ghost p: Protocol.Entry)
    requires xs.shared.Valid() && (src == dst || src.id != dst.id)
    modifies xs, xs.shared, xs.shared.slots, src, dst
    ensures r.Scheduled? ==>
      && xs.shared.scheduled != [] && p == xs.shared.scheduled[|xs.shared.scheduled| - 1]
      && p.src == src.id && p.dst == dst.id && p.xOff == xOff && p.yOff == yOff
      && (update.Some? ==> p.rects == update.value)
      && (update.None? ==> |p.rects| == 1 && Code.IsWhole(p.rects[0], src.width, src.height))
  {
    var serial, dstBuffer;
    r, serial, dstBuffer := xs.TryScheduleGpuCopy(src, dst, update, xOff, yOff, env);
    p := Protocol.Entry(0, 0, 0, 0, 0, []);
    if r.Scheduled? {
      p := xs.shared.scheduled[|xs.shared.scheduled| - 1];
    }
  }

  /** Scheduling a copy and draining its entry: the source pixel at (x, y) that was asked for stands at
      (x + xOff, y + yOff) of the destination, and every other pixel of it is as it was. */
  method ScheduledCopyLands(xs: Code.XServer, src: Code.PixmapPriv, dst: Code.PixmapPriv,
                            update: Code.Option<seq<Protocol.Rect>>, xOff: int, yOff: int, env: Code.Env,
                            ghost m: Memory, ghost x: int, ghost y: int)
    returns (r: Code.Outcome, ghost p: Protocol.Entry)
    requires xs.shared.Valid() && (src == dst || src.id != dst.id)
    requires 0 <= src.width < 32768 && 0 <= src.height < 32768
    requires MemoryOk(m) && src.id in m && dst.id in m && InImage(m[dst.id], x + xOff, y + yOff)
    modifies xs, xs.shared, xs.shared.slots, src, dst
    ensures r.Scheduled? ==>
      && xs.shared.scheduled != [] && p == xs.shared.scheduled[|xs.shared.scheduled| - 1]
      && CopyEntry(m, DrawnEntry(p))[dst.id].pixel(x + xOff, y + yOff)
         == if Asked(src, update, x, y) then m[src.id].pixel(x, y) else m[dst.id].pixel(x + xOff, y + yOff)
  {
    r, p := ScheduleEntry(xs, src, dst, update, xOff, yOff, env);
    if r.Scheduled? {
      EntryLands(m, p, x, y);
      AskedIs(p.rects, src, update, x, y);
    }
  }
}
