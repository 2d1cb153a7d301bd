/**
  The drawing that performs a deferred copy: device and texture coordinates of a rectangle, the viewport, rasterization
  and sampling, over the reals; and what it does to the pixels.
 */
module CopyGeometry {

  type Color = int

  datatype Rect = Rect(x1: int, y1: int, x2: int, y2: int)

  /** A pixel rectangle; `texWidth` is the row length of the texture made from it. */
  datatype Image = Image(width: int, height: int, texWidth: int, pixel: (int, int) -> Color)

  /** The texture filter; a linear one blends neighbouring texels by weight. */
  datatype Filter = Nearest | Linear(blend: (real, Color, Color) -> Color)

  ghost predicate FilterOk(f: Filter) {
    f.Linear? ==> forall a: Color, b: Color :: f.blend(0.0, a, b) == a
  }

  predicate ImageOk(i: Image) {
    0 < i.width <= i.texWidth && 0 < i.height
  }

  // ------------------------------------------------------------------- coordinates

  /** The device coordinate of a pixel edge, left or bottom to -1 and right or top to 1. */
  function DeviceX(x: int, off: int, size: int): (d: real)
    requires size > 0
  {
    2.0 * (x + off) as real / size as real - 1.0
  }

  function DeviceY(y: int, off: int, size: int): (d: real)
    requires size > 0
  {
    1.0 - 2.0 * (y + off) as real / size as real
  }

  function TexCoord(x: int, size: int): (u: real)
    requires size > 0
  {
    x as real / size as real
  }

  /** Where a viewport that starts at `start` puts a device coordinate. */
  function Window(d: real, start: int, size: int): (w: real) {
    start as real + (d + 1.0) / 2.0 * size as real
  }

  lemma Cancel(a: real, b: real)
    requires b != 0.0
    ensures a / b * b == a
  {}

  /** The drawn vertex of a rectangle's corner stands at the offset pixel edge; the y coordinate is negated when drawn. */
  lemma VertexStands(x: int, off: int, size: int)
    requires size > 0
    ensures Window(DeviceX(x, off, size), 0, size) == (x + off) as real
    ensures Window(-DeviceY(x, off, size), 0, size) == (x + off) as real
  {
    var q := 2.0 * (x + off) as real / size as real;
    Cancel(2.0 * (x + off) as real, size as real);
    assert q * size as real == 2.0 * (x + off) as real;
    assert q / 2.0 * size as real == (q * size as real) / 2.0;
  }

  /** A value that runs from `a` at `w0` to `b` at `w1`. */
  function Interpolate(w: real, w0: real, w1: real, a: real, b: real): (v: real)
    requires w0 != w1
  {
    a + (w - w0) / (w1 - w0) * (b - a)
  }

  /** The texture position along one axis, in texels. */
  function Along(w: real, w0: real, w1: real, a: real, b: real, texSize: int): (p: real)
    requires w0 != w1
  {
    Interpolate(w, w0, w1, a, b) * texSize as real
  }

  /** The centre of a pixel. */
  function Centre(x: int): (c: real) {
    x as real + 0.5
  }

  lemma ScaleLine(w: real, w0: real, n: real, a: real, d: real)
    requires n != 0.0 && d != 0.0
    ensures (a / d + (w - w0) / n * ((a + n) / d - a / d)) * d == a + (w - w0)
  {
    var t := (w - w0) / n;
    Cancel(w - w0, n);
    Cancel(a, d);
    Cancel(a + n, d);
    var u0, u1 := a / d, (a + n) / d;
    assert (u1 - u0) * d == n;
    assert t * (u1 - u0) * d == t * ((u1 - u0) * d) == t * n;
  }

  /** At the centre of destination pixel `x` the texture coordinate is the centre of source pixel `x - off`. */
  lemma SamplesCentre(x: int, off: int, x1: int, x2: int, texSize: int)
    requires x1 < x2 && texSize > 0
    ensures Interpolate(Centre(x), (x1 + off) as real, (x2 + off) as real, TexCoord(x1, texSize), TexCoord(x2, texSize))
      * texSize as real == Centre(x - off)
  {
    var a, n, d := x1 as real, (x2 - x1) as real, texSize as real;
    ScaleLine(Centre(x), (x1 + off) as real, n, a, d);
    assert (x2 + off) as real - (x1 + off) as real == n;
    assert a + n == x2 as real;
  }

  // ------------------------------------------------------------------- sampling

  function ClampTo(i: int, size: int): (c: int)
    requires size > 0
    ensures 0 <= c < size && (0 <= i < size ==> c == i)
  {
    if i < 0 then 0 else if i >= size then size - 1 else i
  }

  function Texel(src: Image, i: int, j: int): (c: Color)
    requires ImageOk(src)
  {
    src.pixel(ClampTo(i, src.texWidth), ClampTo(j, src.height))
  }

  /** The colour at a position given in texels, clamped to the edge. */
  function Sample(f: Filter, src: Image, u: real, v: real): (c: Color)
    requires ImageOk(src)
  {
    match f
    case Nearest => Texel(src, u.Floor, v.Floor)
    case Linear(blend) =>
      var i, j := (u - 0.5).Floor, (v - 0.5).Floor;
      var a, b := u - 0.5 - i as real, v - 0.5 - j as real;
      blend(b, blend(a, Texel(src, i, j), Texel(src, i + 1, j)), blend(a, Texel(src, i, j + 1), Texel(src, i + 1, j + 1)))
  }

  /** At a texel's centre either filter gives that texel. */
  lemma SampleAtCentre(f: Filter, src: Image, i: int, j: int)
    requires FilterOk(f) && ImageOk(src)
    ensures Sample(f, src, Centre(i), Centre(j)) == Texel(src, i, j)
  {
    assert Centre(i).Floor == i && Centre(j).Floor == j;
    assert (Centre(i) - 0.5).Floor == i && (Centre(j) - 0.5).Floor == j;
  }

  // ------------------------------------------------------------------- drawing

  /** A corner pair as drawRegion receives it: device coordinates, texture coordinates. */
  datatype Region = Region(x0: real, y0: real, x1: real, y1: real, u0: real, v0: real, u1: real, v1: real)

  function RegionOf(src: Image, dst: Image, r: Rect, xOff: int, yOff: int): (g: Region)
    requires ImageOk(src) && ImageOk(dst)
  {
    Region(DeviceX(r.x1, xOff, dst.width), DeviceY(r.y1, yOff, dst.height),
           DeviceX(r.x2, xOff, dst.width), DeviceY(r.y2, yOff, dst.height),
           TexCoord(r.x1, src.texWidth), TexCoord(r.y1, src.height), TexCoord(r.x2, src.texWidth), TexCoord(r.y2, src.height))
  }

  datatype Viewport = Viewport(x: int, y: int, width: int, height: int)

  /** The viewport set for a destination. */
  function Whole(dst: Image): (v: Viewport) {
    Viewport(0, 0, dst.width, dst.height)
  }

  /** Whether a region drawn under a viewport covers the centre of a pixel; what leaves the viewport is clipped. */
  predicate Covers(g: Region, v: Viewport, x: int, y: int) {
    && Window(g.x0, v.x, v.width) < Centre(x) < Window(g.x1, v.x, v.width)
    && Window(-g.y0, v.y, v.height) < Centre(y) < Window(-g.y1, v.y, v.height)
    && v.x <= x < v.x + v.width && v.y <= y < v.y + v.height
  }

  function TexelX(g: Region, src: Image, v: Viewport, x: int): (u: real)
    requires Window(g.x0, v.x, v.width) != Window(g.x1, v.x, v.width)
  {
    Along(Centre(x), Window(g.x0, v.x, v.width), Window(g.x1, v.x, v.width), g.u0, g.u1, src.texWidth)
  }

  function TexelY(g: Region, src: Image, v: Viewport, y: int): (p: real)
    requires Window(-g.y0, v.y, v.height) != Window(-g.y1, v.y, v.height)
  {
    Along(Centre(y), Window(-g.y0, v.y, v.height), Window(-g.y1, v.y, v.height), g.v0, g.v1, src.height)
  }

  predicate InImage(i: Image, x: int, y: int) {
    0 <= x < i.width && 0 <= y < i.height
  }

  /** drawRegion: every covered pixel of the attached image takes the sampled colour. */
  function Drawn(f: Filter, g: Region, src: Image, v: Viewport, target: Image): (r: Image)
    requires ImageOk(src)
  {
    target.(pixel := (x, y) =>
      if InImage(target, x, y) && Covers(g, v, x, y) then Sample(f, src, TexelX(g, src, v, x), TexelY(g, src, v, y))
      else target.pixel(x, y))
  }

  predicate Inside(r: Rect, xOff: int, yOff: int, x: int, y: int) {
    r.x1 + xOff <= x < r.x2 + xOff && r.y1 + yOff <= y < r.y2 + yOff
  }

  /** The plain copy: pixels of the offset rectangle take the source pixel at the same place in the rectangle. */
  function Copied(src: Image, dst: Image, r: Rect, xOff: int, yOff: int): (t: Image) {
    dst.(pixel := (x, y) =>
      if InImage(dst, x, y) && Inside(r, xOff, yOff, x, y) then src.pixel(x - xOff, y - yOff) else dst.pixel(x, y))
  }

  lemma CoversRect(src: Image, dst: Image, r: Rect, xOff: int, yOff: int, x: int, y: int)
    requires ImageOk(src) && ImageOk(dst)
    ensures Covers(RegionOf(src, dst, r, xOff, yOff), Whole(dst), x, y)
      <==> InImage(dst, x, y) && Inside(r, xOff, yOff, x, y)
  {
    VertexStands(r.x1, xOff, dst.width);
    VertexStands(r.x2, xOff, dst.width);
    VertexStands(r.y1, yOff, dst.height);
    VertexStands(r.y2, yOff, dst.height);
  }

  lemma SampledPixel(f: Filter, g: Region, src: Image, v: Viewport, target: Image, x: int, y: int, i: int, j: int)
    requires FilterOk(f) && ImageOk(src) && InImage(target, x, y) && Covers(g, v, x, y)
    requires TexelX(g, src, v, x) == Centre(i) && TexelY(g, src, v, y) == Centre(j)
    ensures Drawn(f, g, src, v, target).pixel(x, y) == Texel(src, i, j)
  {
    SampleAtCentre(f, src, i, j);
  }

  lemma UncoveredPixel(f: Filter, g: Region, src: Image, v: Viewport, target: Image, x: int, y: int)
    requires ImageOk(src) && !(InImage(target, x, y) && Covers(g, v, x, y))
    ensures Drawn(f, g, src, v, target).pixel(x, y) == target.pixel(x, y)
  {}

  /** Every pixel the region covers takes the source pixel at the offset position, clamped to the source's edge. */
  lemma DrawnPixel(f: Filter, src: Image, dst: Image, r: Rect, xOff: int, yOff: int, target: Image, x: int, y: int)
    requires FilterOk(f) && ImageOk(src) && ImageOk(dst) && SameSize(target, dst)
    ensures Drawn(f, RegionOf(src, dst, r, xOff, yOff), src, Whole(dst), target).pixel(x, y)
      == if InImage(dst, x, y) && Inside(r, xOff, yOff, x, y) then Texel(src, x - xOff, y - yOff) else target.pixel(x, y)
  {
    var g := RegionOf(src, dst, r, xOff, yOff);
    if InImage(dst, x, y) && Inside(r, xOff, yOff, x, y) {
      PositionIs(src, dst, r, xOff, yOff, x, y);
      SampledPixel(f, g, src, Whole(dst), target, x, y, x - xOff, y - yOff);
    } else {
      CoversRect(src, dst, r, xOff, yOff, x, y);
      UncoveredPixel(f, g, src, Whole(dst), target, x, y);
    }
  }

  lemma PositionX(x: int, off: int, x1: int, x2: int, size: int, texSize: int)
    requires x1 < x2 && size > 0 && texSize > 0
    ensures var w0, w1 := Window(DeviceX(x1, off, size), 0, size), Window(DeviceX(x2, off, size), 0, size);
      w0 != w1 && Along(Centre(x), w0, w1, TexCoord(x1, texSize), TexCoord(x2, texSize), texSize) == Centre(x - off)
  {
    VertexStands(x1, off, size);
    VertexStands(x2, off, size);
    SamplesCentre(x, off, x1, x2, texSize);
  }

  lemma PositionY(y: int, off: int, y1: int, y2: int, size: int, texSize: int)
    requires y1 < y2 && size > 0 && texSize > 0
    ensures var w0, w1 := Window(-DeviceY(y1, off, size), 0, size), Window(-DeviceY(y2, off, size), 0, size);
      w0 != w1 && Along(Centre(y), w0, w1, TexCoord(y1, texSize), TexCoord(y2, texSize), texSize) == Centre(y - off)
  {
    VertexStands(y1, off, size);
    VertexStands(y2, off, size);
    SamplesCentre(y, off, y1, y2, texSize);
  }

  lemma PositionIs(src: Image, dst: Image, r: Rect, xOff: int, yOff: int, x: int, y: int)
    requires ImageOk(src) && ImageOk(dst) && InImage(dst, x, y) && Inside(r, xOff, yOff, x, y)
    ensures var g, v := RegionOf(src, dst, r, xOff, yOff), Whole(dst);
      Covers(g, v, x, y) && TexelX(g, src, v, x) == Centre(x - xOff) && TexelY(g, src, v, y) == Centre(y - yOff)
  {
    CoversRect(src, dst, r, xOff, yOff, x, y);
    PositionX(x, xOff, r.x1, r.x2, dst.width, src.texWidth);
    PositionY(y, yOff, r.y1, r.y2, dst.height, src.height);
  }

  /** Whether the offset rectangle has a pixel in the destination. */
  predicate Touches(r: Rect, xOff: int, yOff: int, dst: Image) {
    && r.x1 < r.x2 && r.x1 + xOff < dst.width && 0 < r.x2 + xOff
    && r.y1 < r.y2 && r.y1 + yOff < dst.height && 0 < r.y2 + yOff
  }

  /** A device interval that has a pixel centre under some viewport reaches into the destination it was computed for. */
  lemma IntervalReaches(d0: real, d1: real, a: int, b: int, size: int, x: int, start: int, width: int)
    requires size > 0 && (d0 + 1.0) * size as real == 2.0 * a as real && (d1 + 1.0) * size as real == 2.0 * b as real
    requires Window(d0, start, width) < Centre(x) < Window(d1, start, width) && start <= x < start + width
    ensures a < b && a < size && 0 < b
  {
    var w := Centre(x) - start as real;
    assert 0.0 < w < width as real;
    Order((d0 + 1.0) / 2.0, w, width as real);
    Order((d1 + 1.0) / 2.0, w, width as real);
    var t := w / width as real;
    Between(d0, t, d1, size as real);
  }

  lemma Smaller(p: real, q: real, n: real)
    requires n > 0.0
    ensures p * n < q * n ==> p < q
  {
    if p >= q {
      assert (p - q) * n >= 0.0;
    }
  }

  lemma Order(p: real, w: real, n: real)
    requires 0.0 < w < n
    ensures 0.0 < w / n < 1.0
    ensures p * n < w ==> p < w / n
    ensures w < p * n ==> w / n < p
  {
    Cancel(w, n);
    Smaller(0.0, w / n, n);
    Smaller(w / n, 1.0, n);
    Smaller(p, w / n, n);
    Smaller(w / n, p, n);
  }

  lemma Between(d0: real, t: real, d1: real, n: real)
    requires n > 0.0 && 0.0 < t < 1.0 && (d0 + 1.0) / 2.0 < t < (d1 + 1.0) / 2.0
    ensures (d0 + 1.0) * n < (d1 + 1.0) * n && (d0 + 1.0) * n < 2.0 * n && 0.0 < (d1 + 1.0) * n
  {}

  lemma DeviceScales(x: int, off: int, size: int)
    requires size > 0
    ensures (DeviceX(x, off, size) + 1.0) * size as real == 2.0 * (x + off) as real
    ensures (-DeviceY(x, off, size) + 1.0) * size as real == 2.0 * (x + off) as real
  {
    Cancel(2.0 * (x + off) as real, size as real);
  }

  /** A rectangle that misses its destination draws nothing, whatever is attached and under every viewport. */
  lemma MissesDrawNothing(src: Image, dst: Image, r: Rect, xOff: int, yOff: int, v: Viewport, x: int, y: int)
    requires ImageOk(src) && ImageOk(dst) && !Touches(r, xOff, yOff, dst)
    ensures !Covers(RegionOf(src, dst, r, xOff, yOff), v, x, y)
  {
    var g := RegionOf(src, dst, r, xOff, yOff);
    if Covers(g, v, x, y) {
      DeviceScales(r.x1, xOff, dst.width);
      DeviceScales(r.x2, xOff, dst.width);
      DeviceScales(r.y1, yOff, dst.height);
      DeviceScales(r.y2, yOff, dst.height);
      IntervalReaches(g.x0, g.x1, r.x1 + xOff, r.x2 + xOff, dst.width, x, v.x, v.width);
      IntervalReaches(-g.y0, -g.y1, r.y1 + yOff, r.y2 + yOff, dst.height, y, v.y, v.height);
    }
  }

  // ------------------------------------------------------------------- batches

  /** A rectangle that lies in the source. */
  predicate InSource(r: Rect, src: Image) {
    0 <= r.x1 && r.x2 <= src.width && 0 <= r.y1 && r.y2 <= src.height
  }

  predicate SameSize(a: Image, b: Image) {
    a.width == b.width && a.height == b.height && a.texWidth == b.texWidth
  }

  ghost predicate SameImage(a: Image, b: Image) {
    SameSize(a, b) && forall x: int, y: int :: a.pixel(x, y) == b.pixel(x, y)
  }

  /** One rectangle drawn to its own destination is one plain copy. */
  lemma DrawIsCopy(f: Filter, src: Image, dst: Image, r: Rect, xOff: int, yOff: int, target: Image)
    requires FilterOk(f) && ImageOk(src) && ImageOk(dst) && InSource(r, src) && SameSize(target, dst)
    ensures SameImage(Drawn(f, RegionOf(src, dst, r, xOff, yOff), src, Whole(dst), target), Copied(src, target, r, xOff, yOff))
  {
    forall x: int, y: int
      ensures Drawn(f, RegionOf(src, dst, r, xOff, yOff), src, Whole(dst), target).pixel(x, y)
        == Copied(src, target, r, xOff, yOff).pixel(x, y)
    {
      DrawnPixel(f, src, dst, r, xOff, yOff, target, x, y);
    }
  }

  datatype Entry = Entry(src: nat, dst: nat, rects: seq<Rect>, xOff: int, yOff: int)

  /** All buffers by id. */
  type Memory = map<nat, Image>

  predicate MemoryOk(m: Memory) {
    forall id :: id in m ==> ImageOk(m[id])
  }

  /** What the framebuffer object draws to; it keeps its texture from one drain to the next. */
  datatype Attachment = Nothing | Texture(id: nat)

  /** The id a drain believes to be attached, what is attached, and the viewport. */
  datatype Target = Target(bound: nat, attached: Attachment, viewport: Viewport)

  /** A drain starts with the bound id 0 and whatever attachment and viewport were left behind. */
  function Begun(attached: Attachment, viewport: Viewport): (t: Target) {
    Target(0, attached, viewport)
  }

  /** Attaching and the viewport are skipped when the destination has the bound id. */
  function Bind(t: Target, m: Memory, dst: nat): (u: Target)
    requires dst in m
  {
    if t.bound == dst then t else Target(dst, Texture(dst), Whole(m[dst]))
  }

  function DrawRects(f: Filter, src: Image, dst: Image, v: Viewport, target: Image, rects: seq<Rect>, xOff: int, yOff: int): (r: Image)
    requires ImageOk(src) && ImageOk(dst)
    ensures SameSize(r, target)
    decreases |rects|
  {
    if rects == [] then target
    else DrawRects(f, src, dst, v, Drawn(f, RegionOf(src, dst, rects[0], xOff, yOff), src, v, target), rects[1..], xOff, yOff)
  }

  function CopyRects(src: Image, dst: Image, rects: seq<Rect>, xOff: int, yOff: int): (r: Image)
    ensures SameSize(r, dst)
    decreases |rects|
  {
    if rects == [] then dst else CopyRects(src, Copied(src, dst, rects[0], xOff, yOff), rects[1..], xOff, yOff)
  }

  predicate Found(m: Memory, e: Entry) {
    e.src in m && e.dst in m
  }

  /** The target of an entry: nothing is bound unless both buffers are found. */
  function NextTarget(t: Target, m: Memory, e: Entry): (u: Target) {
    if Found(m, e) then Bind(t, m, e.dst) else t
  }

  /** Drawing an entry with the target already bound. */
  function DrawEntry(f: Filter, t: Target, m: Memory, e: Entry): (r: Memory)
    requires MemoryOk(m)
    ensures MemoryOk(r) && r.Keys == m.Keys
  {
    if Found(m, e) && t.attached.Texture? && t.attached.id in m then
      m[t.attached.id := DrawRects(f, m[e.src], m[e.dst], t.viewport, m[t.attached.id], e.rects, e.xOff, e.yOff)]
    else m
  }

  function CopyEntry(m: Memory, e: Entry): (r: Memory)
    requires MemoryOk(m)
    ensures MemoryOk(r) && r.Keys == m.Keys
  {
    if Found(m, e) then m[e.dst := CopyRects(m[e.src], m[e.dst], e.rects, e.xOff, e.yOff)] else m
  }

  function DrawBatch(f: Filter, t: Target, m: Memory, batch: seq<Entry>): (r: Memory)
    requires MemoryOk(m)
    decreases |batch|
  {
    if batch == [] then m
    else var u := NextTarget(t, m, batch[0]); DrawBatch(f, u, DrawEntry(f, u, m, batch[0]), batch[1..])
  }

  function CopyBatch(m: Memory, batch: seq<Entry>): (r: Memory)
    requires MemoryOk(m)
    decreases |batch|
  {
    if batch == [] then m else CopyBatch(CopyEntry(m, batch[0]), batch[1..])
  }

  /** The drain loop's drawing. */
  method RenderBatch(f: Filter, attached: Attachment, viewport: Viewport, m0: Memory, batch: seq<Entry>) returns (m: Memory)
    requires MemoryOk(m0)
    ensures m == DrawBatch(f, Begun(attached, viewport), m0, batch)
  {
    var t := Target(0, attached, viewport);
    m := m0;
    for i := 0 to |batch|
      invariant MemoryOk(m)
      invariant DrawBatch(f, t, m, batch[i..]) == DrawBatch(f, Begun(attached, viewport), m0, batch)
    {
      var e := batch[i];
      assert batch[i..][0] == e && batch[i..][1..] == batch[i + 1..];
      if e.src in m && e.dst in m {
        if t.bound != e.dst {
          t := Target(e.dst, Texture(e.dst), Viewport(0, 0, m[e.dst].width, m[e.dst].height));
        }
        m := DrawEntry(f, t, m, e);
      }
    }
  }

  ghost predicate SameMemory(a: Memory, b: Memory) {
    a.Keys == b.Keys && forall id :: id in a ==> SameImage(a[id], b[id])
  }

  ghost predicate SameShape(a: Memory, b: Memory) {
    a.Keys == b.Keys && forall id :: id in a ==> SameSize(a[id], b[id])
  }

  lemma SameImageTrans(a: Image, b: Image, c: Image)
    requires SameImage(a, b) && SameImage(b, c)
    ensures SameImage(a, c)
  {}

  lemma SameMemoryTrans(a: Memory, b: Memory, c: Memory)
    requires SameMemory(a, b) && SameMemory(b, c)
    ensures SameMemory(a, c)
  {
    forall id | id in a
      ensures SameImage(a[id], c[id])
    {
      SameImageTrans(a[id], b[id], c[id]);
    }
  }

  lemma CopiedSame(src: Image, src': Image, dst: Image, dst': Image, r: Rect, xOff: int, yOff: int)
    requires SameImage(src, src') && SameImage(dst, dst')
    ensures SameImage(Copied(src, dst, r, xOff, yOff), Copied(src', dst', r, xOff, yOff))
  {
    forall x: int, y: int
      ensures Copied(src, dst, r, xOff, yOff).pixel(x, y) == Copied(src', dst', r, xOff, yOff).pixel(x, y)
    {}
  }

  lemma {:induction false} CopyRectsSame(src: Image, src': Image, dst: Image, dst': Image, rects: seq<Rect>, xOff: int, yOff: int)
    requires SameImage(src, src') && SameImage(dst, dst')
    ensures SameImage(CopyRects(src, dst, rects, xOff, yOff), CopyRects(src', dst', rects, xOff, yOff))
    decreases |rects|
  {
    if rects != [] {
      CopiedSame(src, src', dst, dst', rects[0], xOff, yOff);
      CopyRectsSame(src, src', Copied(src, dst, rects[0], xOff, yOff), Copied(src', dst', rects[0], xOff, yOff), rects[1..], xOff, yOff);
    }
  }

  lemma {:induction false} DrawRectsIsCopy(f: Filter, src: Image, dst: Image, target: Image, target': Image, rects: seq<Rect>, xOff: int, yOff: int)
    requires FilterOk(f) && ImageOk(src) && ImageOk(dst) && SameSize(target, dst) && SameImage(target, target')
    requires forall i :: 0 <= i < |rects| ==> InSource(rects[i], src)
    ensures SameImage(DrawRects(f, src, dst, Whole(dst), target, rects, xOff, yOff), CopyRects(src, target', rects, xOff, yOff))
    decreases |rects|
  {
    if rects != [] {
      var d, c, c' := Drawn(f, RegionOf(src, dst, rects[0], xOff, yOff), src, Whole(dst), target),
        Copied(src, target, rects[0], xOff, yOff), Copied(src, target', rects[0], xOff, yOff);
      DrawIsCopy(f, src, dst, rects[0], xOff, yOff, target);
      CopiedSame(src, src, target, target', rects[0], xOff, yOff);
      SameImageTrans(d, c, c');
      DrawRectsIsCopy(f, src, dst, d, c', rects[1..], xOff, yOff);
    }
  }

  /** Several rectangles of one source: a pixel any of them covers takes the source pixel before the offset, and every other
      pixel stays. */
  lemma {:induction false} CopiedPixels(src: Image, dst: Image, rects: seq<Rect>, xOff: int, yOff: int, x: int, y: int)
    ensures CopyRects(src, dst, rects, xOff, yOff).pixel(x, y)
      == if InImage(dst, x, y) && (exists i :: 0 <= i < |rects| && Inside(rects[i], xOff, yOff, x, y))
         then src.pixel(x - xOff, y - yOff) else dst.pixel(x, y)
    decreases |rects|
  {
    if rects != [] {
      CopiedPixels(src, Copied(src, dst, rects[0], xOff, yOff), rects[1..], xOff, yOff, x, y);
      assert (exists i :: 0 <= i < |rects| && Inside(rects[i], xOff, yOff, x, y)) <==>
        Inside(rects[0], xOff, yOff, x, y) || exists i :: 0 <= i < |rects[1..]| && Inside(rects[1..][i], xOff, yOff, x, y) by {
        if i :| 0 < i < |rects| && Inside(rects[i], xOff, yOff, x, y) {
          assert rects[1..][i - 1] == rects[i];
        }
      }
    }
  }

  /** The rectangles of an entry lie in its source, and source and destination are different buffers. */
  predicate EntryOk(m: Memory, e: Entry) {
    e.src != e.dst && (e.src in m ==> forall i :: 0 <= i < |e.rects| ==> InSource(e.rects[i], m[e.src]))
  }

  ghost predicate EntriesOk(m: Memory, batch: seq<Entry>) {
    forall i :: 0 <= i < |batch| ==> EntryOk(m, batch[i])
  }

  lemma EntriesStay(m: Memory, n: Memory, batch: seq<Entry>)
    requires SameShape(m, n) && EntriesOk(m, batch) && batch != []
    ensures EntriesOk(n, batch[1..])
  {
    forall i | 0 <= i < |batch[1..]|
      ensures EntryOk(n, batch[1..][i])
    {
      assert EntryOk(m, batch[i + 1]);
    }
  }

  lemma CopyEntrySame(m: Memory, n: Memory, e: Entry)
    requires MemoryOk(m) && MemoryOk(n) && SameMemory(m, n)
    ensures SameMemory(CopyEntry(m, e), CopyEntry(n, e))
  {
    if Found(m, e) {
      CopyRectsSame(m[e.src], n[e.src], m[e.dst], n[e.dst], e.rects, e.xOff, e.yOff);
    }
  }

  lemma {:induction false} CopyBatchSame(m: Memory, n: Memory, batch: seq<Entry>)
    requires MemoryOk(m) && MemoryOk(n) && SameMemory(m, n)
    ensures SameMemory(CopyBatch(m, batch), CopyBatch(n, batch))
    decreases |batch|
  {
    if batch != [] {
      CopyEntrySame(m, n, batch[0]);
      CopyBatchSame(CopyEntry(m, batch[0]), CopyEntry(n, batch[0]), batch[1..]);
    }
  }

  // ------------------------------------------------------------------- the bound target

  /** The bound buffer is attached under its own viewport. */
  predicate Attached(t: Target, m: Memory) {
    t.bound in m && t.attached == Texture(t.bound) && t.viewport == Whole(m[t.bound])
  }

  lemma EntryIsCopy(f: Filter, t: Target, m: Memory, n: Memory, e: Entry)
    requires FilterOk(f) && MemoryOk(m) && MemoryOk(n) && SameMemory(m, n) && EntryOk(m, e)
    requires Attached(t, m) || (Found(m, e) && t.bound != e.dst)
    ensures var u := NextTarget(t, m, e);
      Attached(u, m) && Attached(u, DrawEntry(f, u, m, e)) && SameMemory(DrawEntry(f, u, m, e), CopyEntry(n, e))
  {
    if Found(m, e) {
      DrawRectsIsCopy(f, m[e.src], m[e.dst], m[e.dst], m[e.dst], e.rects, e.xOff, e.yOff);
      var u := NextTarget(t, m, e);
      assert SameMemory(DrawEntry(f, u, m, e), CopyEntry(m, e));
      CopyEntrySame(m, n, e);
      SameMemoryTrans(DrawEntry(f, u, m, e), CopyEntry(m, e), CopyEntry(n, e));
    }
  }

  lemma ShapeOfEntry(f: Filter, t: Target, m: Memory, e: Entry)
    requires MemoryOk(m)
    ensures SameShape(m, DrawEntry(f, t, m, e))
  {}

  /** Once a destination has been attached, draining is applying the plain copies in the order they were scheduled. */
  lemma {:induction false} AttachedIsCopies(f: Filter, t: Target, m: Memory, n: Memory, batch: seq<Entry>)
    requires FilterOk(f) && MemoryOk(m) && MemoryOk(n) && SameMemory(m, n) && EntriesOk(m, batch) && Attached(t, m)
    ensures SameMemory(DrawBatch(f, t, m, batch), CopyBatch(n, batch))
    decreases |batch|
  {
    if batch != [] {
      var e, u := batch[0], NextTarget(t, m, batch[0]);
      EntryIsCopy(f, t, m, n, e);
      ShapeOfEntry(f, u, m, e);
      EntriesStay(m, DrawEntry(f, u, m, e), batch);
      AttachedIsCopies(f, u, DrawEntry(f, u, m, e), CopyEntry(n, e), batch[1..]);
    }
  }

  // ------------------------------------------------------------------- the destination with id 0

  /** Whether some rectangle of an entry has a pixel in its destination. */
  predicate Draws(m: Memory, e: Entry)
    requires e.dst in m
  {
    exists i :: 0 <= i < |e.rects| && Touches(e.rects[i], e.xOff, e.yOff, m[e.dst])
  }

  /** Before any other destination is bound, an entry draws to the buffer with id 0. */
  predicate DrawsUnbound(m: Memory, batch: seq<Entry>)
    decreases |batch|
  {
    batch != [] && if Found(m, batch[0])
      then batch[0].dst == 0 && (Draws(m, batch[0]) || DrawsUnbound(m, batch[1..]))
      else DrawsUnbound(m, batch[1..])
  }

  lemma MissedImage(f: Filter, src: Image, dst: Image, v: Viewport, target: Image, r: Rect, xOff: int, yOff: int)
    requires ImageOk(src) && ImageOk(dst) && !Touches(r, xOff, yOff, dst)
    ensures SameImage(Drawn(f, RegionOf(src, dst, r, xOff, yOff), src, v, target), target)
    ensures SameImage(Copied(src, dst, r, xOff, yOff), dst)
  {
    forall x: int, y: int
      ensures Drawn(f, RegionOf(src, dst, r, xOff, yOff), src, v, target).pixel(x, y) == target.pixel(x, y)
    {
      MissesDrawNothing(src, dst, r, xOff, yOff, v, x, y);
    }
  }

  lemma {:induction false} MissedRects(f: Filter, src: Image, dst: Image, v: Viewport, target: Image, rects: seq<Rect>, xOff: int, yOff: int)
    requires ImageOk(src) && ImageOk(dst)
    requires forall i :: 0 <= i < |rects| ==> !Touches(rects[i], xOff, yOff, dst)
    ensures SameImage(DrawRects(f, src, dst, v, target, rects, xOff, yOff), target)
    decreases |rects|
  {
    if rects != [] {
      MissedImage(f, src, dst, v, target, rects[0], xOff, yOff);
      var d := Drawn(f, RegionOf(src, dst, rects[0], xOff, yOff), src, v, target);
      MissedRects(f, src, dst, v, d, rects[1..], xOff, yOff);
      SameImageTrans(DrawRects(f, src, dst, v, d, rects[1..], xOff, yOff), d, target);
    }
  }

  lemma {:induction false} MissedCopies(src: Image, dst: Image, rects: seq<Rect>, xOff: int, yOff: int)
    requires ImageOk(src) && ImageOk(dst)
    requires forall i :: 0 <= i < |rects| ==> !Touches(rects[i], xOff, yOff, dst)
    ensures SameImage(CopyRects(src, dst, rects, xOff, yOff), dst)
    decreases |rects|
  {
    if rects != [] {
      MissedImage(Nearest, src, dst, Whole(dst), dst, rects[0], xOff, yOff);
      var d := Copied(src, dst, rects[0], xOff, yOff);
      MissedCopies(src, d, rects[1..], xOff, yOff);
      SameImageTrans(CopyRects(src, d, rects[1..], xOff, yOff), d, dst);
    }
  }

  /** An entry that draws nothing leaves the memory as it was, drawn or copied. */
  lemma IdleEntry(f: Filter, t: Target, m: Memory, e: Entry)
    requires MemoryOk(m) && (Found(m, e) ==> !Draws(m, e))
    ensures SameMemory(DrawEntry(f, t, m, e), m) && SameMemory(CopyEntry(m, e), m)
  {
    if Found(m, e) {
      MissedCopies(m[e.src], m[e.dst], e.rects, e.xOff, e.yOff);
      if t.attached.Texture? && t.attached.id in m {
        MissedRects(f, m[e.src], m[e.dst], t.viewport, m[t.attached.id], e.rects, e.xOff, e.yOff);
      }
    }
  }

  lemma {:induction false} UnboundByShape(m: Memory, n: Memory, batch: seq<Entry>)
    requires SameShape(m, n)
    ensures DrawsUnbound(m, batch) <==> DrawsUnbound(n, batch)
    decreases |batch|
  {
    if batch != [] {
      UnboundByShape(m, n, batch[1..]);
    }
  }

  lemma {:induction false} UnboundPrefix(m: Memory, batch: seq<Entry>, k: nat)
    requires k <= |batch| && !DrawsUnbound(m, batch)
    ensures !DrawsUnbound(m, batch[..k])
    decreases |batch|
  {
    if k > 0 {
      assert batch[..k][0] == batch[0] && batch[..k][1..] == batch[1..][..k - 1];
      if !Found(m, batch[0]) || batch[0].dst == 0 {
        UnboundPrefix(m, batch[1..], k - 1);
      }
    }
  }

  lemma {:induction false} BegunIsCopies(f: Filter, t: Target, m: Memory, n: Memory, batch: seq<Entry>)
    requires FilterOk(f) && MemoryOk(m) && MemoryOk(n) && SameMemory(m, n) && EntriesOk(m, batch)
    requires t.bound == 0 && !DrawsUnbound(m, batch)
    ensures SameMemory(DrawBatch(f, t, m, batch), CopyBatch(n, batch))
    decreases |batch|
  {
    if batch != [] {
      var e, u := batch[0], NextTarget(t, m, batch[0]);
      var m', n' := DrawEntry(f, u, m, e), CopyEntry(n, e);
      ShapeOfEntry(f, u, m, e);
      EntriesStay(m, m', batch);
      if Found(m, e) && e.dst != 0 {
        EntryIsCopy(f, t, m, n, e);
        AttachedIsCopies(f, u, m', n', batch[1..]);
      } else {
        IdleEntry(f, u, m, e);
        IdleBoth(f, u, m, n, e);
        UnboundByShape(m, m', batch[1..]);
        BegunIsCopies(f, u, m', n', batch[1..]);
      }
    }
  }

  lemma IdleBoth(f: Filter, t: Target, m: Memory, n: Memory, e: Entry)
    requires MemoryOk(m) && MemoryOk(n) && SameMemory(m, n) && (Found(m, e) ==> !Draws(m, e))
    ensures SameMemory(DrawEntry(f, t, m, e), CopyEntry(n, e))
  {
    IdleEntry(f, t, m, e);
    CopyEntrySame(m, n, e);
    assert SameMemory(m, CopyEntry(m, e));
    SameMemoryTrans(m, CopyEntry(m, e), CopyEntry(n, e));
    SameMemoryTrans(DrawEntry(f, t, m, e), m, CopyEntry(n, e));
  }

  /** After every entry of the batch the memory is what the plain copies give. */
  ghost predicate CopiesPlainly(f: Filter, t: Target, m: Memory, batch: seq<Entry>)
    requires MemoryOk(m)
  {
    forall k :: 0 <= k <= |batch| ==> SameMemory(DrawBatch(f, t, m, batch[..k]), CopyBatch(m, batch[..k]))
  }

  /** The same for buffers of these sizes with any contents, and whatever an earlier drain left behind. */
  ghost predicate AlwaysCopies(f: Filter, m: Memory, batch: seq<Entry>) {
    forall n, attached, viewport :: MemoryOk(n) && SameShape(m, n) ==> CopiesPlainly(f, Begun(attached, viewport), n, batch)
  }

  function Plain(i: Image, c: Color): (r: Image) {
    i.(pixel := (x, y) => c)
  }

  /** The source all of colour 1, every other buffer of colour 0. */
  function Painted(m: Memory, src: nat): (n: Memory) {
    map id | id in m :: Plain(m[id], if id == src then 1 else 0)
  }

  lemma {:induction false} CopyPaints(src: Image, dst: Image, rects: seq<Rect>, xOff: int, yOff: int, x: int, y: int)
    requires InImage(dst, x, y) && forall a: int, b: int :: src.pixel(a, b) == 1
    requires dst.pixel(x, y) == 1 || exists i :: 0 <= i < |rects| && Inside(rects[i], xOff, yOff, x, y)
    ensures CopyRects(src, dst, rects, xOff, yOff).pixel(x, y) == 1
    decreases |rects|
  {
    if rects != [] {
      var d := Copied(src, dst, rects[0], xOff, yOff);
      if d.pixel(x, y) != 1 {
        var i :| 0 <= i < |rects| && Inside(rects[i], xOff, yOff, x, y);
        assert Inside(rects[1..][i - 1], xOff, yOff, x, y);
      }
      CopyPaints(src, d, rects[1..], xOff, yOff, x, y);
    }
  }

  /** With nothing attached yet, an entry for the buffer with id 0 that draws a pixel is lost. */
  lemma EntryIsLost(f: Filter, v: Viewport, m: Memory, e: Entry)
    requires MemoryOk(m) && Found(m, e) && e.src != e.dst && e.dst == 0 && Draws(m, e)
    ensures var n, t := Painted(m, e.src), Begun(Nothing, v);
      MemoryOk(n) && !SameMemory(DrawEntry(f, NextTarget(t, n, e), n, e), CopyEntry(n, e))
  {
    var n := Painted(m, e.src);
    var i :| 0 <= i < |e.rects| && Touches(e.rects[i], e.xOff, e.yOff, m[e.dst]);
    var r := e.rects[i];
    var x := if r.x1 + e.xOff < 0 then 0 else r.x1 + e.xOff;
    var y := if r.y1 + e.yOff < 0 then 0 else r.y1 + e.yOff;
    assert Inside(r, e.xOff, e.yOff, x, y) && InImage(n[0], x, y);
    CopyPaints(n[e.src], n[0], e.rects, e.xOff, e.yOff, x, y);
    assert n[0].pixel(x, y) == 0;
    assert !SameImage(n[0], CopyEntry(n, e)[0]);
  }

  lemma {:induction false} UnboundIsLost(f: Filter, v: Viewport, m: Memory, batch: seq<Entry>) returns (n: Memory, k: nat)
    requires MemoryOk(m) && EntriesOk(m, batch) && DrawsUnbound(m, batch)
    ensures MemoryOk(n) && SameShape(m, n) && k <= |batch|
    ensures !SameMemory(DrawBatch(f, Begun(Nothing, v), n, batch[..k]), CopyBatch(n, batch[..k]))
    decreases |batch|
  {
    var e := batch[0];
    if Found(m, e) && Draws(m, e) {
      n, k := Painted(m, e.src), 1;
      EntryIsLost(f, v, m, e);
      assert batch[..1] == [e];
    } else {
      EntriesStay(m, m, batch);
      n, k := UnboundIsLost(f, v, m, batch[1..]);
      SkipsIdle(f, Begun(Nothing, v), n, batch, k);
      k := k + 1;
    }
  }

  lemma SkipsIdle(f: Filter, t: Target, n: Memory, batch: seq<Entry>, k: nat)
    requires MemoryOk(n) && batch != [] && k <= |batch[1..]| && t.attached.Nothing? && t.bound == 0
    requires Found(n, batch[0]) ==> batch[0].dst == 0 && !Draws(n, batch[0])
    requires !SameMemory(DrawBatch(f, t, n, batch[1..][..k]), CopyBatch(n, batch[1..][..k]))
    ensures !SameMemory(DrawBatch(f, t, n, batch[..k + 1]), CopyBatch(n, batch[..k + 1]))
  {
    var e, rest := batch[0], batch[1..][..k];
    assert batch[..k + 1][0] == e && batch[..k + 1][1..] == rest;
    IdleEntry(f, t, n, e);
    CopyBatchSame(CopyEntry(n, e), n, rest);
    var d, c, c' := DrawBatch(f, t, n, rest), CopyBatch(CopyEntry(n, e), rest), CopyBatch(n, rest);
    assert DrawBatch(f, t, n, batch[..k + 1]) == d;
    if SameMemory(d, c) {
      SameMemoryTrans(d, c, c');
    }
  }

  /** Draining a batch is applying the plain copies in the order they were scheduled, for all contents and whatever an
      earlier drain left attached, exactly when no entry draws to the buffer with id 0 before another one is bound. */
  lemma BatchIsCopies(f: Filter, m: Memory, batch: seq<Entry>)
    requires FilterOk(f) && MemoryOk(m) && EntriesOk(m, batch)
    ensures AlwaysCopies(f, m, batch) <==> !DrawsUnbound(m, batch)
  {
    if DrawsUnbound(m, batch) {
      var v := Viewport(0, 0, 0, 0);
      var n, k := UnboundIsLost(f, v, m, batch);
      assert !CopiesPlainly(f, Begun(Nothing, v), n, batch);
    } else {
      forall n, attached, viewport | MemoryOk(n) && SameShape(m, n)
        ensures CopiesPlainly(f, Begun(attached, viewport), n, batch)
      {
        BoundIsPlain(f, Begun(attached, viewport), m, n, batch);
      }
    }
  }

  lemma BoundIsPlain(f: Filter, t: Target, m: Memory, n: Memory, batch: seq<Entry>)
    requires FilterOk(f) && MemoryOk(n) && SameShape(m, n) && EntriesOk(m, batch)
    requires t.bound == 0 && !DrawsUnbound(m, batch)
    ensures CopiesPlainly(f, t, n, batch)
  {
    forall k | 0 <= k <= |batch|
      ensures SameMemory(DrawBatch(f, t, n, batch[..k]), CopyBatch(n, batch[..k]))
    {
      UnboundPrefix(m, batch, k);
      UnboundByShape(m, n, batch[..k]);
      forall i | 0 <= i < |batch[..k]|
        ensures EntryOk(n, batch[..k][i])
      {
        assert EntryOk(m, batch[i]);
      }
      BegunIsCopies(f, t, n, n, batch[..k]);
    }
  }

  /** A screen and a picture, and a copy of the picture's only pixel to the screen: after a drain that left the picture's
      own texture attached the screen stays black. */
  lemma FirstBufferIsMissed(f: Filter)
    ensures var m := map[0 := Image(1, 1, 1, (x, y) => 0), 1 := Image(1, 1, 1, (x, y) => 7)];
      var batch := [Entry(1, 0, [Rect(0, 0, 1, 1)], 0, 0)];
      var t := Begun(Texture(1), Viewport(0, 0, 1, 1));
      && DrawsUnbound(m, batch)
      && DrawBatch(f, t, m, batch)[0].pixel(0, 0) == 0 && CopyBatch(m, batch)[0].pixel(0, 0) == 7
  {
    var m: Memory := map[0 := Image(1, 1, 1, (x, y) => 0), 1 := Image(1, 1, 1, (x, y) => 7)];
    var e := Entry(1, 0, [Rect(0, 0, 1, 1)], 0, 0);
    var t := Begun(Texture(1), Viewport(0, 0, 1, 1));
    assert Touches(e.rects[0], e.xOff, e.yOff, m[0]) && Draws(m, e);
    assert DrawBatch(f, t, m, [e]) == DrawEntry(f, t, m, e);
    CopyOnce(m[1], m[0], e);
    assert CopyBatch(m, [e]) == CopyEntry(m, e);
  }

  lemma CopyOnce(src: Image, dst: Image, e: Entry)
    requires |e.rects| == 1
    ensures CopyRects(src, dst, e.rects, e.xOff, e.yOff) == Copied(src, dst, e.rects[0], e.xOff, e.yOff)
  {}
}
