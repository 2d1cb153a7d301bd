/**
  What part of the picture a redraw shows and where: zoom, panning towards the cursor and the part the soft keyboard hides.
  Floating point numbers are reals.
 */
module ViewGeometry {

  function Min(a: real, b: real): (r: real) {
    if a < b then a else b
  }

  function Max(a: real, b: real): (r: real) {
    if a > b then a else b
  }

  /** lroundf: to the nearest whole number, halves away from zero. */
  function Round(x: real): (r: int)
    ensures -0.5 <= r as real - x <= 0.5
  {
    if x >= 0.0 then (x + 0.5).Floor else -(0.5 - x).Floor
  }

  function ClampZoom(percent: int): (z: int)
    ensures 100 <= z <= 400 && (100 <= percent <= 400 ==> z == percent)
  {
    if percent < 100 then 100 else if percent > 400 then 400 else percent
  }

  // ------------------------------------------------------------------- quotients

  lemma NonNegativeFactor(x: real, c: real)
    requires c > 0.0 && x * c >= 0.0
    ensures x >= 0.0
  {}

  lemma PositiveFactor(x: real, c: real)
    requires c > 0.0 && x * c > 0.0
    ensures x > 0.0
  {}

  lemma QuotientAtMost(a: real, b: real, c: real)
    requires c > 0.0 && a <= b * c
    ensures a / c <= b
  {
    var q := a / c;
    assert q * c == a;
    assert (b - q) * c == b * c - q * c;
    NonNegativeFactor(b - q, c);
  }

  lemma QuotientPositive(a: real, c: real)
    requires c > 0.0 && a > 0.0
    ensures a / c > 0.0
  {
    var q := a / c;
    assert q * c == a;
    PositiveFactor(q, c);
  }

  lemma QuotientAtLeast(a: real, b: real, c: real)
    requires c > 0.0 && a >= b * c
    ensures a / c >= b
  {
    var q := a / c;
    assert q * c == a;
    assert (q - b) * c == q * c - b * c;
    NonNegativeFactor(q - b, c);
  }

  /** `n * s / req`: the part of `n` shown when it is drawn `s` times its size instead of `req` times. */
  function Scaled(n: real, s: real, req: real): (r: real)
    requires n > 0.0 && 0.0 < s <= req
    ensures 0.0 < r <= n
  {
    MulMonotone(n, s, req);
    QuotientAtMost(n * s, n, req);
    QuotientPositive(n * s, req);
    n * s / req
  }

  lemma MulMonotone(n: real, s: real, t: real)
    requires n > 0.0 && 0.0 < s <= t
    ensures 0.0 < n * s <= n * t
  {}

  /** The part of `s` above a cut. */
  function Above(s: real, part: real, whole: real): (r: real)
    requires s > 0.0 && 0.0 < part < whole
    ensures 0.0 < r <= s
  {
    QuotientAtMost(part, 1.0, whole);
    QuotientPositive(part, whole);
    MulMonotone(s, part / whole, 1.0);
    s * (part / whole)
  }

  lemma AboveKeepsRatio(s: real, part: real, whole: real)
    requires s > 0.0 && 0.0 < part < whole
    ensures Above(s, part, whole) / part == s / whole
  {
    var q, b := part / whole, s / whole;
    assert q * whole == part && b * whole == s;
    RatioStep(s, q, b, part, whole);
  }

  lemma RatioStep(s: real, q: real, b: real, part: real, whole: real)
    requires part > 0.0 && q * whole == part && b * whole == s
    ensures s * q / part == b
  {
    assert s * q == b * whole * q == b * (q * whole) == b * part;
    assert b * part / part == b;
  }

  // ------------------------------------------------------------------- panning

  /** Keeps the shown part still until the cursor comes within a twentieth of an edge. */
  function PanToCursor(offset: real, cursor: real, shown: real, total: real): (r: real) {
    var edge := shown * 0.05;
    var moved := if cursor < offset + edge then cursor - edge
                 else if cursor > offset + shown - edge then cursor - shown + edge
                 else offset;
    Max(0.0, Min(moved, total - shown))
  }

  /** The result stays in the picture, shows a cursor that is in the picture, and panning again changes nothing. */
  lemma PanProperties(offset: real, cursor: real, shown: real, total: real)
    requires 0.0 <= shown <= total
    ensures var r := PanToCursor(offset, cursor, shown, total);
      && 0.0 <= r <= total - shown
      && (0.0 <= cursor <= total ==> r <= cursor <= r + shown)
      && PanToCursor(r, cursor, shown, total) == r
  {}

  /** When it stays: exactly when the cursor is off the edges, or beyond one the picture cannot move past. */
  lemma PanStays(offset: real, cursor: real, shown: real, total: real)
    requires 0.0 <= shown <= total && 0.0 <= offset <= total - shown
    ensures PanToCursor(offset, cursor, shown, total) == offset <==>
      || offset + shown * 0.05 <= cursor <= offset + shown - shown * 0.05
      || (offset == 0.0 && cursor <= offset + shown - shown * 0.05)
      || (offset == total - shown && cursor >= offset + shown * 0.05)
      || shown == total
  {}

  function Distance(a: real, b: real): (d: real) {
    if a < b then b - a else a - b
  }

  /** It moves no further than needed: among the positions in the picture that keep the cursor off the edges the result is
      the nearest, and where there is none the picture's end is shown that the cursor is at. */
  lemma PanMovesLeast(offset: real, cursor: real, shown: real, total: real)
    requires 0.0 <= shown <= total && 0.0 <= offset <= total - shown
    ensures var r, edge := PanToCursor(offset, cursor, shown, total), shown * 0.05;
      && (forall o: real :: 0.0 <= o <= total - shown && o + edge <= cursor <= o + shown - edge ==> Distance(offset, r) <= Distance(offset, o))
      && (edge <= cursor <= total - edge ==> r + edge <= cursor <= r + shown - edge)
      && (cursor < edge ==> r == 0.0) && (cursor > total - edge ==> r == total - shown)
  {}

  // ------------------------------------------------------------------- one redraw

  datatype Rect = Rect(x: int, y: int, w: int, h: int)

  /** What a redraw depends on besides the pan state. */
  datatype Input = Input(viewport: Rect, surfaceW: int, surfaceH: int, expectedW: int, expectedH: int, bufferW: int,
                         zoom: int, hiddenBottom: int, cursorX: int, cursorY: int)

  /** The picture's size is positive and the buffer may be narrower than expected only by the mode granularity. */
  predicate InputOk(i: Input) {
    && i.viewport.w > 0 && i.viewport.h > 0 && i.expectedW > 0 && i.expectedH > 0
    && 0 < i.bufferW <= i.expectedW && 100 <= i.zoom <= 400
  }

  function Requested(i: Input): (s: real) {
    i.zoom as real / 100.0
  }

  /** How far the viewport can grow on one axis about its centre, from one up to the requested scale. */
  function DestinationScale(start: int, size: int, surface: int, requested: real): (s: real)
    requires size > 0
    ensures s >= 1.0 && (requested >= 1.0 ==> s <= requested)
  {
    var centre := start as real + size as real / 2.0;
    var room := 2.0 * Min(centre, surface as real - centre);
    ScaleFor(size as real, room, requested)
  }

  function ScaleFor(size: real, room: real, requested: real): (s: real)
    requires size > 0.0
    ensures s >= 1.0 && (requested >= 1.0 ==> s <= requested)
  {
    Max(1.0, Min(requested, room / size))
  }

  /** One axis of the rendered viewport: its start and size. */
  datatype Span = Span(start: int, size: int)

  function Grown(size: int, scale: real): (n: int) {
    Round(size as real * scale)
  }

  function Rendered(start: int, size: int, scale: real): (r: Span) {
    var centre := start as real + size as real / 2.0;
    Span(Round(centre - Grown(size, scale) as real / 2.0), Grown(size, scale))
  }

  lemma RoundBounds(x: real, lo: int, hi: int)
    requires lo as real <= x <= hi as real
    ensures lo <= Round(x) <= hi
  {}

  /** Twice the room on the tighter side of the centre, a whole number because the centre is a whole number of halves. */
  function Room(start: int, size: int, surface: int): (r: int) {
    var twice := 2 * start + size;
    if twice < 2 * surface - twice then twice else 2 * surface - twice
  }

  lemma ScaleBounds(size: real, room: real, requested: real) returns (x: real)
    requires 0.0 < size <= room && requested >= 1.0
    ensures x == size * ScaleFor(size, room, requested) && size <= x <= room
  {
    var q := room / size;
    assert q * size == room;
    QuotientAtLeast(room, 1.0, size);
    var scale := ScaleFor(size, room, requested);
    assert 1.0 <= scale <= q;
    MulMonotone(size, scale, q);
    MulMonotone(size, 1.0, scale);
    assert size * q == room;
    x := size * scale;
  }

  lemma ScaleIs(start: int, size: int, surface: int, requested: real)
    requires size > 0
    ensures DestinationScale(start, size, surface, requested) == ScaleFor(size as real, Room(start, size, surface) as real, requested)
  {
    var centre := start as real + size as real / 2.0;
    assert 2.0 * Min(centre, surface as real - centre) == Room(start, size, surface) as real;
  }

  lemma GrownBounds(size: int, scale: real, x: real, room: int)
    requires x == size as real * scale && size as real <= x <= room as real
    ensures size <= Grown(size, scale) <= room
  {
    RoundBounds(x, size, room);
    assert Grown(size, scale) == Round(x);
  }

  lemma GrownFits(start: int, size: int, surface: int, requested: real)
    requires size > 0 && 0 <= start && start + size <= surface && requested >= 1.0
    ensures size <= Grown(size, DestinationScale(start, size, surface, requested)) <= Room(start, size, surface)
  {
    var room := Room(start, size, surface);
    ScaleIs(start, size, surface, requested);
    var x := ScaleBounds(size as real, room as real, requested);
    GrownBounds(size, ScaleFor(size as real, room as real, requested), x, room);
  }

  /** A span of `grown` about the same centre, with its start rounded, stays inside. */
  lemma CentredInside(start: int, size: int, surface: int, grown: int)
    requires grown <= Room(start, size, surface)
    ensures var centre := start as real + size as real / 2.0;
      var first := Round(centre - grown as real / 2.0); 0 <= first && first + grown <= surface
  {
    var n := 2 * start + size - grown;
    assert start as real + size as real / 2.0 - grown as real / 2.0 == n as real / 2.0;
    assert n >= 0;
    HalfRound(n);
  }

  /** Rounding a whole number of halves. */
  lemma HalfRound(n: int)
    requires n >= 0
    ensures n <= 2 * Round(n as real / 2.0) <= n + 1
  {}

  lemma RenderedCentred(start: int, size: int, surface: int, scale: real)
    requires size <= Grown(size, scale) <= Room(start, size, surface)
    ensures var r := Rendered(start, size, scale); 0 <= r.start && r.start + r.size <= surface && size <= r.size
  {
    CentredInside(start, size, surface, Grown(size, scale));
  }

  /** A viewport inside the surface grows to one inside the surface. */
  lemma RenderedInside(start: int, size: int, surface: int, requested: real)
    requires size > 0 && 0 <= start && start + size <= surface && requested >= 1.0
    ensures var r := Rendered(start, size, DestinationScale(start, size, surface, requested));
      0 <= r.start && r.start + r.size <= surface && size <= r.size
  {
    GrownFits(start, size, surface, requested);
    RenderedCentred(start, size, surface, DestinationScale(start, size, surface, requested));
  }

  /** It stays centred, to half a pixel. */
  lemma RenderedCentre(start: int, size: int, scale: real)
    ensures var r := Rendered(start, size, scale); -1 <= (2 * r.start + r.size) - (2 * start + size) <= 1
  {
    var grown := Grown(size, scale);
    var n := 2 * start + size - grown;
    assert start as real + size as real / 2.0 - grown as real / 2.0 == n as real / 2.0;
    assert -0.5 <= Round(n as real / 2.0) as real - n as real / 2.0 <= 0.5;
  }

  /** The keyboard's cut into the rendered viewport, when part of it remains. */
  datatype View = View(rendered: Rect, sourceW: real, sourceH: real, hidden: bool)

  function Uncut(i: Input): (v: View)
    requires InputOk(i)
    ensures 0.0 < v.sourceW <= i.expectedW as real && 0.0 < v.sourceH <= i.expectedH as real && !v.hidden
  {
    if i.zoom == 100 then View(i.viewport, i.bufferW as real, i.expectedH as real, false)
    else
      var req := Requested(i);
      var sx := DestinationScale(i.viewport.x, i.viewport.w, i.surfaceW, req);
      var sy := DestinationScale(i.viewport.y, i.viewport.h, i.surfaceH, req);
      var rx, ry := Rendered(i.viewport.x, i.viewport.w, sx), Rendered(i.viewport.y, i.viewport.h, sy);
      View(Rect(rx.start, ry.start, rx.size, ry.size), Scaled(i.expectedW as real, sx, req), Scaled(i.expectedH as real, sy, req), false)
  }

  lemma ScaledBack(n: real, s: real, req: real, size: real)
    requires n > 0.0 && 0.0 < s <= req && size > 0.0
    ensures size * s == req * size * Scaled(n, s, req) / n
  {
    var r := Scaled(n, s, req);
    assert r * req == n * s;
    BackStep(n, s, req, size, r);
  }

  lemma BackStep(n: real, s: real, req: real, size: real, r: real)
    requires n > 0.0 && r * req == n * s
    ensures size * s == req * size * r / n
  {
    assert req * size * r == size * (r * req) == size * (n * s) == size * s * n;
    assert size * s * n / n == size * s;
  }

  /** One axis of a zoomed view: a part `shown` of the picture's `expected` is drawn over `drawn` of the surface. */
  predicate AtScale(drawn: int, shown: real, size: int, expected: int, requested: real)
    requires expected > 0
  {
    var exact := requested * size as real * shown / expected as real;
    -0.5 <= drawn as real - exact <= 0.5
  }

  lemma GrownAtScale(size: int, s: real, shown: real, expected: int, requested: real)
    requires expected > 0 && size as real * s == requested * size as real * shown / expected as real
    ensures AtScale(Grown(size, s), shown, size, expected, requested)
  {
    var x := size as real * s;
    assert -0.5 <= Round(x) as real - x <= 0.5;
  }

  lemma AxisAtScale(start: int, size: int, surface: int, expected: int, requested: real)
    requires size > 0 && expected > 0 && requested >= 1.0
    ensures var s := DestinationScale(start, size, surface, requested);
      AtScale(Rendered(start, size, s).size, Scaled(expected as real, s, requested), size, expected, requested)
  {
    var s := DestinationScale(start, size, surface, requested);
    ScaledBack(expected as real, s, requested, size as real);
    GrownAtScale(size, s, Scaled(expected as real, s, requested), expected, requested);
  }

  lemma ZoomIsScale(i: Input)
    requires InputOk(i)
    ensures Requested(i) >= 1.0
  {
    QuotientAtLeast(i.zoom as real, 1.0, 100.0);
  }

  /** Zoomed in, both axes are drawn at the requested multiple of their usual size, up to rounding to whole pixels. */
  lemma ShownAtScale(i: Input)
    requires InputOk(i) && i.zoom > 100
    ensures var v, req := Uncut(i), Requested(i);
      && AtScale(v.rendered.w, v.sourceW, i.viewport.w, i.expectedW, req)
      && AtScale(v.rendered.h, v.sourceH, i.viewport.h, i.expectedH, req)
  {
    ZoomIsScale(i);
    AxisAtScale(i.viewport.x, i.viewport.w, i.surfaceW, i.expectedW, Requested(i));
    AxisAtScale(i.viewport.y, i.viewport.h, i.surfaceH, i.expectedH, Requested(i));
  }

  lemma WholeShown(n: real, req: real)
    requires n > 0.0 && req > 0.0
    ensures Scaled(n, req, req) == n
  {
    assert n * req / req == n;
  }

  lemma FillsRoom(size: int, room: int, requested: real)
    requires size > 0 && requested >= 1.0 && room as real < requested * size as real
    ensures Grown(size, ScaleFor(size as real, room as real, requested)) == if room < size then size else room
  {
    var s, r := size as real, room as real;
    var q := r / s;
    assert q * s == r;
    QuotientAtMost(r, requested, s);
    if room < size {
      QuotientAtMost(r, 1.0, s);
    } else {
      QuotientAtLeast(r, 1.0, s);
    }
  }

  lemma FitsRoom(size: int, room: int, requested: real)
    requires size > 0 && requested >= 1.0 && requested * size as real <= room as real
    ensures ScaleFor(size as real, room as real, requested) == requested
  {
    QuotientAtLeast(room as real, requested, size as real);
  }

  /** One axis: the whole picture is shown exactly where the scaled viewport has room about its centre; elsewhere the
      rendered viewport takes all the room there is. */
  lemma AxisFills(start: int, size: int, surface: int, expected: int, requested: real)
    requires size > 0 && expected > 0 && requested >= 1.0
    ensures var s, room := DestinationScale(start, size, surface, requested), Room(start, size, surface);
      && (requested * size as real <= room as real ==> Scaled(expected as real, s, requested) == expected as real)
      && (room as real < requested * size as real ==> Rendered(start, size, s).size == if room < size then size else room)
  {
    var room := Room(start, size, surface);
    ScaleIs(start, size, surface, requested);
    if requested * size as real <= room as real {
      FitsRoom(size, room, requested);
      WholeShown(expected as real, requested);
    } else {
      FillsRoom(size, room, requested);
    }
  }

  function CutOf(i: Input, v: View): (c: int) {
    v.rendered.y + v.rendered.h - (i.viewport.y + i.viewport.h - i.hiddenBottom)
  }

  function CutAt(v: View, cut: int): (r: View)
    requires v.sourceH > 0.0 && 0 < cut < v.rendered.h
    ensures r.sourceW == v.sourceW && 0.0 < r.sourceH <= v.sourceH && r.hidden
  {
    v.(sourceH := Above(v.sourceH, (v.rendered.h - cut) as real, v.rendered.h as real),
       rendered := v.rendered.(h := v.rendered.h - cut), hidden := true)
  }

  function ViewOf(i: Input): (v: View)
    requires InputOk(i)
    ensures 0.0 < v.sourceW <= i.expectedW as real && 0.0 < v.sourceH <= i.expectedH as real
  {
    var v := Uncut(i);
    if i.hiddenBottom > 0 && 0 < CutOf(i, v) < v.rendered.h then CutAt(v, CutOf(i, v)) else v
  }

  /** The keyboard's cut keeps the scale: source rows per rendered row are the same with and without it, and so is the
      width. */
  lemma CutKeepsScale(v: View, cut: int)
    requires v.sourceH > 0.0 && 0 < cut < v.rendered.h
    ensures var r := CutAt(v, cut);
      && r.sourceH / r.rendered.h as real == v.sourceH / v.rendered.h as real
      && r.sourceW == v.sourceW && r.rendered.w == v.rendered.w
  {
    AboveKeepsRatio(v.sourceH, (v.rendered.h - cut) as real, v.rendered.h as real);
  }

  /** With the keyboard over part of it the view ends exactly where the keyboard begins; it is not cut when the keyboard
      covers none of it or all of it. */
  lemma EndsAboveKeyboard(i: Input)
    requires InputOk(i)
    ensures var v, u, top := ViewOf(i), Uncut(i), i.viewport.y + i.viewport.h - i.hiddenBottom;
      && (v.hidden <==> i.hiddenBottom > 0 && u.rendered.y < top < u.rendered.y + u.rendered.h)
      && (v.hidden ==> v.rendered == u.rendered.(h := v.rendered.h) && v.rendered.y + v.rendered.h == top)
      && (!v.hidden ==> v == u)
  {}

  // ------------------------------------------------------------------- the pan state

  /** The pan position and the vertical one kept for the other side of the keyboard's switch. */
  datatype Pan = Pan(left: real, top: real, other: real, wasHidden: bool)

  /** Swaps the vertical positions when the keyboard appears or goes. */
  function Switched(p: Pan, i: Input, hidden: bool): (q: Pan) {
    if hidden == p.wasHidden then p
    else Pan(p.left, if p.other >= 0.0 && (!hidden || i.zoom == 100) then p.other else p.top, p.top, hidden)
  }

  function NextPan(p: Pan, i: Input): (q: Pan)
    requires InputOk(i)
  {
    var v := ViewOf(i);
    var s := Switched(p, i, v.hidden);
    s.(left := if i.zoom > 100 then PanToCursor(s.left, i.cursorX as real, v.sourceW, i.expectedW as real) else 0.0,
       top := if v.sourceH < i.expectedH as real then PanToCursor(s.top, i.cursorY as real, v.sourceH, i.expectedH as real) else 0.0)
  }

  /** For every input and every earlier pan state: the shown part lies in the picture, and a cursor in the picture lies
      in the shown part on each axis that pans. */
  lemma SourceInPicture(p: Pan, i: Input)
    requires InputOk(i)
    ensures var q, v := NextPan(p, i), ViewOf(i);
      && 0.0 <= q.left && q.left + v.sourceW <= i.expectedW as real
      && 0.0 <= q.top && q.top + v.sourceH <= i.expectedH as real
      && (i.zoom > 100 && 0 <= i.cursorX <= i.expectedW ==> q.left <= i.cursorX as real <= q.left + v.sourceW)
      && (v.sourceH < i.expectedH as real && 0 <= i.cursorY <= i.expectedH ==> q.top <= i.cursorY as real <= q.top + v.sourceH)
  {
    var v := ViewOf(i);
    var s := Switched(p, i, v.hidden);
    PanProperties(s.left, i.cursorX as real, v.sourceW, i.expectedW as real);
    PanProperties(s.top, i.cursorY as real, v.sourceH, i.expectedH as real);
  }

  /** Redrawing again for the same input changes nothing. */
  lemma RedrawIsIdempotent(p: Pan, i: Input)
    requires InputOk(i)
    ensures NextPan(NextPan(p, i), i) == NextPan(p, i)
  {
    var v := ViewOf(i);
    var s := Switched(p, i, v.hidden);
    PanProperties(s.left, i.cursorX as real, v.sourceW, i.expectedW as real);
    PanProperties(s.top, i.cursorY as real, v.sourceH, i.expectedH as real);
  }

  ghost predicate AllHidden(inputs: seq<Input>) {
    forall i <- inputs :: InputOk(i) && ViewOf(i).hidden
  }

  /** A run of redraws. */
  ghost function Redrawn(p: Pan, inputs: seq<Input>): (q: Pan)
    requires forall i <- inputs :: InputOk(i)
  {
    if inputs == [] then p else NextPan(Redrawn(p, inputs[..|inputs| - 1]), inputs[|inputs| - 1])
  }

  lemma {:induction false} HiddenKeepsOther(p: Pan, inputs: seq<Input>)
    requires !p.wasHidden && inputs != [] && AllHidden(inputs)
    ensures var q := Redrawn(p, inputs); q.wasHidden && q.other == p.top
  {
    var most := inputs[..|inputs| - 1];
    if most != [] {
      HiddenKeepsOther(p, most);
    }
  }

  /** The keyboard comes, however many redraws happen meanwhile, and goes: the picture is again where it would be had the
      keyboard never come. */
  lemma KeyboardComesAndGoes(p: Pan, inputs: seq<Input>, last: Input)
    requires !p.wasHidden && p.top >= 0.0 && inputs != [] && AllHidden(inputs) && InputOk(last) && !ViewOf(last).hidden
    ensures NextPan(Redrawn(p, inputs), last).top == NextPan(p, last).top
  {
    HiddenKeepsOther(p, inputs);
  }

  /** The renderer's view fields. */
  class Viewer {
    var zoomPercent: int
    var panSourceLeft: real
    var panSourceTop: real
    var hiddenPanSourceTop: real
    var bottomWasHidden: bool

    ghost function Now(): (p: Pan)
      reads this
    {
      Pan(panSourceLeft, panSourceTop, hiddenPanSourceTop, bottomWasHidden)
    }

    method SetZoom(percent: int)
      modifies this`zoomPercent
      ensures zoomPercent == ClampZoom(percent)
    {
      zoomPercent := if percent < 100 then 100 else if percent > 400 then 400 else percent;
    }

    /** The part of a redraw that moves the picture. */
    method Redraw(i: Input) returns (v: View)
      requires InputOk(i) && i.zoom == zoomPercent
      modifies this
      ensures v == ViewOf(i) && Now() == NextPan(old(Now()), i) && zoomPercent == old(zoomPercent)
    {
      v := ViewOf(i);
      if v.hidden != bottomWasHidden {
        bottomWasHidden := v.hidden;
        var other := hiddenPanSourceTop;
        hiddenPanSourceTop := panSourceTop;
        if other >= 0.0 && (!v.hidden || zoomPercent == 100) {
          panSourceTop := other;
        }
      }
      panSourceLeft := if zoomPercent > 100
        then PanToCursor(panSourceLeft, i.cursorX as real, v.sourceW, i.expectedW as real) else 0.0;
      panSourceTop := if v.sourceH < i.expectedH as real
        then PanToCursor(panSourceTop, i.cursorY as real, v.sourceH, i.expectedH as real) else 0.0;
    }
  }
}
