/** The preview of a drawing: bounding boxes, cropping, and the raster picture. */
module Preview {
  import opened Bytes
  import opened Rounding
  import opened Painter
  import opened Raster
  import LinePath

  /** Blank margin around the drawing, in canvas units. */
  const PAD := 40.0

  datatype Spot = Spot(x: real, y: real)

  datatype Box = Box(x0: real, y0: real, x1: real, y1: real)

  /** `Arrow` points are relative to (x, y). `Panel` is every other element;
      only rectangles among them are drawn in the raster. */
  datatype Element =
    | Arrow(x: real, y: real, points: seq<Spot>, color: Rgb)
    | Panel(x: real, y: real, width: real, height: real, rectangle: bool, dashed: bool, color: Rgb)

  datatype Option<+T> = None | Some(value: T)

  function Point(e: Element, k: nat): Spot
    requires e.Arrow? && k < |e.points|
  {
    Spot(e.x + e.points[k].x, e.y + e.points[k].y)
  }

  /** The corners an element contributes to the drawing's extent. */
  function Corners(e: Element): seq<Spot> {
    match e
    case Arrow(_, _, points, _) => seq(|points|, k requires 0 <= k < |points| => Point(e, k))
    case Panel(x, y, w, h, _, _, _) => [Spot(x, y), Spot(x + w, y + h)]
  }

  predicate Within(s: Spot, b: Box) {
    b.x0 <= s.x <= b.x1 && b.y0 <= s.y <= b.y1
  }

  /** `b` is the smallest box around `spots`: it holds them all and each of its
      four sides is touched. */
  ghost predicate IsHull(spots: seq<Spot>, b: Box) {
    && (forall s :: s in spots ==> Within(s, b))
    && (exists s :: s in spots && s.x == b.x0)
    && (exists s :: s in spots && s.y == b.y0)
    && (exists s :: s in spots && s.x == b.x1)
    && (exists s :: s in spots && s.y == b.y1)
  }

  function AllCorners(els: seq<Element>): seq<Spot> {
    if els == [] then [] else AllCorners(els[..|els| - 1]) + Corners(els[|els| - 1])
  }

  lemma {:induction false} CornersCollected(els: seq<Element>, e: Element, s: Spot)
    requires e in els && s in Corners(e)
    ensures s in AllCorners(els)
  {
    var n := |els| - 1;
    if e in els[..n] {
      CornersCollected(els[..n], e, s);
    }
  }

  /** `None` when there is no corner at all (`min` of nothing raises). */
  method Hull(spots: seq<Spot>) returns (r: Option<Box>)
    ensures r.None? <==> spots == []
    ensures r.Some? ==> IsHull(spots, r.value)
  {
    if spots == [] {
      return None;
    }
    var b := Box(spots[0].x, spots[0].y, spots[0].x, spots[0].y);
    for k := 1 to |spots|
      invariant IsHull(spots[..k], b)
    {
      var s := spots[k];
      ghost var before := spots[..k];
      assert spots[..k + 1] == before + [s];
      assert forall u :: u in before ==> u in spots[..k + 1];
      assert s in spots[..k + 1];
      b := Box(Min(b.x0, s.x), Min(b.y0, s.y), Max(b.x1, s.x), Max(b.y1, s.y));
    }
    assert spots[..|spots|] == spots;
    r := Some(b);
  }

  method Bounds(els: seq<Element>) returns (r: Option<Box>)
    ensures r.None? <==> AllCorners(els) == []
    ensures r.Some? ==> IsHull(AllCorners(els), r.value)
  {
    var spots := [];
    for k := 0 to |els|
      invariant spots == AllCorners(els[..k])
    {
      assert els[..k + 1][..k] == els[..k];
      spots := spots + Corners(els[k]);
    }
    assert els[..|els|] == els;
    r := Hull(spots);
  }

  /** An element's own box; `None` for an arrow without points. A panel's far
      corner is taken as given, so a negative size is not turned around. */
  method ElementBox(e: Element) returns (r: Option<Box>)
    ensures e.Panel? ==> r == Some(Box(e.x, e.y, e.x + e.width, e.y + e.height))
    ensures e.Arrow? ==> (r.None? <==> e.points == []) && (r.Some? ==> IsHull(Corners(e), r.value))
  {
    if e.Arrow? {
      r := Hull(Corners(e));
    } else {
      r := Some(Box(e.x, e.y, e.x + e.width, e.y + e.height));
    }
  }

  /** The crop rectangle X, Y, W, H with its tolerance. */
  function Widened(x: real, y: real, w: real, h: real, tol: real): Box {
    Box(x - tol, y - tol, x + w + tol, y + h + tol)
  }

  /** Kept by a crop: a panel by its two corners, an arrow by every point. */
  predicate Keeps(area: Box, e: Element) {
    match e
    case Panel(x, y, w, h, _, _, _) => area.x0 <= x && area.y0 <= y && x + w <= area.x1 && y + h <= area.y1
    case Arrow(_, _, points, _) => forall k :: 0 <= k < |points| ==> Within(Point(e, k), area)
  }

  function Kept(area: Box, els: seq<Element>): seq<Element> {
    if els == [] then []
    else
      var rest := Kept(area, els[..|els| - 1]);
      if Keeps(area, els[|els| - 1]) then rest + [els[|els| - 1]] else rest
  }

  /** What survives a crop: every element all of whose corners lie within the
      tolerance of the rectangle, and no other. */
  lemma {:induction false} KeptIff(els: seq<Element>, x: real, y: real, w: real, h: real, tol: real, e: Element)
    requires e.Panel? ==> e.width >= 0.0 && e.height >= 0.0
    ensures e in Kept(Widened(x, y, w, h, tol), els)
            <==> e in els && forall s :: s in Corners(e) ==>
                   -tol <= s.x - x <= w + tol && -tol <= s.y - y <= h + tol
  {
    var area := Widened(x, y, w, h, tol);
    CornersInside(e, area);
    if els != [] {
      var n := |els| - 1;
      assert els == els[..n] + [els[n]];
      KeptIff(els[..n], x, y, w, h, tol, e);
    }
  }

  lemma CornersInside(e: Element, area: Box)
    requires e.Panel? ==> e.width >= 0.0 && e.height >= 0.0
    ensures Keeps(area, e) <==> forall s :: s in Corners(e) ==> Within(s, area)
  {
    if e.Panel? {
      assert Corners(e)[0] in Corners(e) && Corners(e)[1] in Corners(e);
    } else {
      forall k | 0 <= k < |e.points| ensures Corners(e)[k] == Point(e, k) && Corners(e)[k] in Corners(e) {
      }
    }
  }

  /** A crop keeps the order of the document. */
  lemma {:induction false} KeptInOrder(area: Box, a: seq<Element>, b: seq<Element>)
    ensures Kept(area, a + b) == Kept(area, a) + Kept(area, b)
  {
    if b == [] {
      assert a + b == a;
    } else {
      var n := |b| - 1;
      assert (a + b)[..|a + b| - 1] == a + b[..n];
      KeptInOrder(area, a, b[..n]);
    }
  }

  lemma HullInsideIffPointsInside(spots: seq<Spot>, b: Box, area: Box)
    requires IsHull(spots, b)
    ensures (area.x0 <= b.x0 && area.y0 <= b.y0 && b.x1 <= area.x1 && b.y1 <= area.y1)
            <==> forall s :: s in spots ==> Within(s, area)
  {}

  /** Cropping keeps, in order, exactly the elements inside the widened rectangle;
      an arrow survives iff every one of its points is inside. `None` when an
      arrow has no points. */
  method CropElements(els: seq<Element>, x: real, y: real, w: real, h: real, tol: real)
    returns (r: Option<seq<Element>>)
    ensures r.None? <==> exists e :: e in els && e.Arrow? && e.points == []
    ensures r.Some? ==> r.value == Kept(Widened(x, y, w, h, tol), els)
  {
    var area := Widened(x, y, w, h, tol);
    var kept := [];
    for k := 0 to |els|
      invariant kept == Kept(area, els[..k])
      invariant forall e :: e in els[..k] ==> !(e.Arrow? && e.points == [])
    {
      var e := els[k];
      var box := ElementBox(e);
      if box.None? {
        return None;
      }
      var b := box.value;
      assert els[..k + 1][..k] == els[..k];
      if e.Arrow? {
        HullInsideIffPointsInside(Corners(e), b, area);
        assert forall i :: 0 <= i < |e.points| ==> Corners(e)[i] == Point(e, i);
      }
      if b.x0 >= x - tol && b.y0 >= y - tol && b.x1 <= x + w + tol && b.y1 <= y + h + tol {
        kept := kept + [e];
      }
    }
    assert els[..|els|] == els;
    r := Some(kept);
  }

  // --- the raster ---

  function Place(v: real, low: real, scale: real): real {
    (v - low + PAD) * scale
  }

  function Extent(low: real, high: real, scale: real): int {
    Trunc((high - low + 2.0 * PAD) * scale)
  }

  /** An element on the canvas: a rectangle, a polyline, or nothing the raster draws. */
  datatype Shape =
    | Card(x: real, y: real, w: real, h: real, dashed: bool, color: Rgb)
    | Wire(spots: seq<Spot>, color: Rgb)
    | Blank(color: Rgb)

  function PlaceSpot(s: Spot, b: Box, scale: real): Spot {
    Spot(Place(s.x, b.x0, scale), Place(s.y, b.y0, scale))
  }

  function ShapeOf(e: Element, b: Box, scale: real): Shape {
    match e
    case Arrow(_, _, points, color) =>
      Wire(seq(|points|, k requires 0 <= k < |points| => PlaceSpot(Point(e, k), b, scale)), color)
    case Panel(x, y, w, h, rectangle, dashed, color) =>
      if rectangle then Card(Place(x, b.x0, scale), Place(y, b.y0, scale), w * scale, h * scale, dashed, color)
      else Blank(color)
  }

  function Shapes(els: seq<Element>, b: Box, scale: real): seq<Shape> {
    seq(|els|, k requires 0 <= k < |els| => ShapeOf(els[k], b, scale))
  }

  /** Where an element lands: its coordinates from the box's low corner, past 40
      units of margin, everything scaled. */
  lemma ShapeIs(e: Element, b: Box, scale: real)
    ensures var s := ShapeOf(e, b, scale);
            && (e.Panel? && e.rectangle ==>
                  s == Card((e.x - b.x0 + 40.0) * scale, (e.y - b.y0 + 40.0) * scale,
                            e.width * scale, e.height * scale, e.dashed, e.color))
            && (e.Panel? && !e.rectangle ==> s == Blank(e.color))
            && (e.Arrow? ==> s.Wire? && s.color == e.color && |s.spots| == |e.points|)
    ensures e.Arrow? ==>
              forall k :: 0 <= k < |e.points| ==>
                ShapeOf(e, b, scale).spots[k] == Spot((e.x + e.points[k].x - b.x0 + 40.0) * scale,
                                                      (e.y + e.points[k].y - b.y0 + 40.0) * scale)
  {
    match e
    case Panel(_, _, _, _, _, _, _) =>
      PlaceIs(e.x, b.x0, scale);
      PlaceIs(e.y, b.y0, scale);
    case Arrow(_, _, points, _) =>
      forall k | 0 <= k < |points|
        ensures ShapeOf(e, b, scale).spots[k] == Spot((e.x + points[k].x - b.x0 + 40.0) * scale,
                                                      (e.y + points[k].y - b.y0 + 40.0) * scale)
      {
        PlaceIs(e.x + points[k].x, b.x0, scale);
        PlaceIs(e.y + points[k].y, b.y0, scale);
      }
  }

  lemma PlaceIs(v: real, low: real, scale: real)
    ensures Place(v, low, scale) == (v - low + 40.0) * scale
  {
    assert v - low + PAD == v - low + 40.0;
  }

  lemma ExtentIs(low: real, high: real, scale: real)
    ensures Extent(low, high, scale) == Trunc((high - low + 80.0) * scale)
  {
    assert high - low + 2.0 * PAD == high - low + 80.0;
  }

  /** A rectangle's strokes: its outline, and a title strip unless it is dashed. */
  function CardStrokes(s: Shape): seq<Stroke> {
    if s.Card? then
      [Stroke(Op.Rect(s.x, s.y, s.w, s.h, 2), s.color)]
      + if s.dashed then [] else [Stroke(Op.Fill(s.x + 1.0, s.y + 1.0, s.w - 2.0, 5.0), s.color)]
    else []
  }

  function Leg(spots: seq<Spot>, k: nat): Op
    requires k + 1 < |spots|
  {
    Op.Line(spots[k].x, spots[k].y, spots[k + 1].x, spots[k + 1].y)
  }

  function WireStrokes(s: Shape): seq<Stroke> {
    if s.Wire? && s.spots != [] then
      seq(|s.spots| - 1, k requires 0 <= k < |s.spots| - 1 => Stroke(Leg(s.spots, k), s.color))
    else []
  }

  /** The strokes of every shape, in document order. */
  function Drawn(shapes: seq<Shape>, draw: Shape -> seq<Stroke>): seq<Stroke> {
    if shapes == [] then [] else Drawn(shapes[..|shapes| - 1], draw) + draw(shapes[|shapes| - 1])
  }

  /** Zones and cards first, in document order, then every arrow leg. */
  function Picture(shapes: seq<Shape>): seq<Stroke> {
    Drawn(shapes, CardStrokes) + Drawn(shapes, WireStrokes)
  }

  lemma OneMoreStroke(done: seq<Stroke>, s: Stroke, x: int, y: int)
    ensures Paint(done + [s], WHITE, x, y) == if Covers(s.op, x, y) then s.color else Paint(done, WHITE, x, y)
  {
    assert (done + [s])[..|done|] == done;
  }

  /** Draws one more stroke on a canvas that already shows `done`. */
  method Add(cv: Canvas, ghost done: seq<Stroke>, s: Stroke)
    requires cv.Valid()
    requires forall x, y | cv.Inside(x, y) :: cv.At(x, y) == Paint(done, WHITE, x, y)
    modifies cv.buf
    ensures forall x, y | cv.Inside(x, y) :: cv.At(x, y) == Paint(done + [s], WHITE, x, y)
  {
    cv.Draw(s);
    forall x, y | cv.Inside(x, y) ensures cv.At(x, y) == Paint(done + [s], WHITE, x, y) {
      OneMoreStroke(done, s, x, y);
    }
  }

  /** Draws one element's strokes in turn. */
  method AddAll(cv: Canvas, ghost done: seq<Stroke>, strokes: seq<Stroke>)
    requires cv.Valid()
    requires forall x, y | cv.Inside(x, y) :: cv.At(x, y) == Paint(done, WHITE, x, y)
    modifies cv.buf
    ensures forall x, y | cv.Inside(x, y) :: cv.At(x, y) == Paint(done + strokes, WHITE, x, y)
  {
    assert done + strokes[..0] == done;
    for k := 0 to |strokes|
      invariant forall x, y | cv.Inside(x, y) :: cv.At(x, y) == Paint(done + strokes[..k], WHITE, x, y)
    {
      Add(cv, done + strokes[..k], strokes[k]);
      assert done + strokes[..k] + [strokes[k]] == done + strokes[..k + 1];
    }
    assert strokes[..|strokes|] == strokes;
  }

  method DrawCards(cv: Canvas, shapes: seq<Shape>)
    requires cv.Valid()
    requires forall x, y | cv.Inside(x, y) :: cv.At(x, y) == Paint([], WHITE, x, y)
    modifies cv.buf
    ensures forall x, y | cv.Inside(x, y) :: cv.At(x, y) == Paint(Drawn(shapes, CardStrokes), WHITE, x, y)
  {
    for k := 0 to |shapes|
      invariant forall x, y | cv.Inside(x, y) :: cv.At(x, y) == Paint(Drawn(shapes[..k], CardStrokes), WHITE, x, y)
    {
      assert shapes[..k + 1][..k] == shapes[..k];
      AddAll(cv, Drawn(shapes[..k], CardStrokes), CardStrokes(shapes[k]));
    }
    assert shapes[..|shapes|] == shapes;
  }

  method DrawWires(cv: Canvas, ghost cards: seq<Stroke>, shapes: seq<Shape>)
    requires cv.Valid()
    requires forall x, y | cv.Inside(x, y) :: cv.At(x, y) == Paint(cards, WHITE, x, y)
    modifies cv.buf
    ensures forall x, y | cv.Inside(x, y) :: cv.At(x, y) == Paint(cards + Drawn(shapes, WireStrokes), WHITE, x, y)
  {
    ghost var done := cards;
    assert cards + [] == cards;
    for k := 0 to |shapes|
      invariant done == cards + Drawn(shapes[..k], WireStrokes)
      invariant forall x, y | cv.Inside(x, y) :: cv.At(x, y) == Paint(done, WHITE, x, y)
    {
      assert shapes[..k + 1][..k] == shapes[..k];
      AddAll(cv, done, WireStrokes(shapes[k]));
      done := done + WireStrokes(shapes[k]);
    }
    assert shapes[..|shapes|] == shapes;
  }

  /** The whole raster picture: every pixel shows what the painter would leave
      there, on a canvas that holds the box and its margin. */
  method Render(els: seq<Element>, b: Box, scale: real) returns (cv: Canvas)
    ensures cv.Valid() && fresh(cv) && fresh(cv.buf)
    ensures cv.w == Trunc((b.x1 - b.x0 + 80.0) * scale) && cv.h == Trunc((b.y1 - b.y0 + 80.0) * scale)
    ensures forall x, y | cv.Inside(x, y) :: cv.At(x, y) == Paint(Picture(Shapes(els, b, scale)), WHITE, x, y)
  {
    ExtentIs(b.x0, b.x1, scale);
    ExtentIs(b.y0, b.y1, scale);
    var shapes := Shapes(els, b, scale);
    cv := new Canvas(Extent(b.x0, b.x1, scale), Extent(b.y0, b.y1, scale), WHITE);
    DrawCards(cv, shapes);
    DrawWires(cv, Drawn(shapes, CardStrokes), shapes);
  }

  // --- what the picture shows, shape by shape ---

  /** On one of the four lines, two at each end, of an extent. */
  predicate AtEdge(low: real, size: real, n: int) {
    n == Trunc(low) || n == Trunc(low + 1.0) || n == Trunc(low + size - 1.0) || n == Trunc(low + size)
  }

  /** The outline: two rows above and below, two columns left and right. */
  predicate OnOutline(s: Shape, x: int, y: int)
    requires s.Card?
  {
    (Between(s.x, s.x + s.w, x) && AtEdge(s.y, s.h, y)) || (Between(s.y, s.y + s.h, y) && AtEdge(s.x, s.w, x))
  }

  /** The title strip: five rows inside the outline. */
  predicate OnStrip(s: Shape, x: int, y: int)
    requires s.Card?
  {
    Between(s.x + 1.0, s.x + s.w - 1.0, x) && Trunc(s.y + 1.0) <= y < Trunc(s.y + 6.0)
  }

  /** A rectangle shows its outline, and a card, not dashed, its strip too. */
  predicate CardTouches(s: Shape, x: int, y: int) {
    s.Card? && (OnOutline(s, x, y) || (!s.dashed && OnStrip(s, x, y)))
  }

  /** An arrow shows the digital lines between its consecutive points. */
  predicate WireTouches(s: Shape, x: int, y: int) {
    s.Wire? && exists k: nat :: k + 1 < |s.spots| && OnLeg(s.spots[k], s.spots[k + 1], x, y)
  }

  predicate OnLeg(from: Spot, to: Spot, x: int, y: int) {
    var p, q := LinePath.Point(Trunc(from.x), Trunc(from.y)), LinePath.Point(Trunc(to.x), Trunc(to.y));
    exists n: nat :: n <= LinePath.Length(p, q) && IsDot(LinePath.At(p, q, n), x, y)
  }

  /** A point of a line and its right-hand neighbour. */
  predicate IsDot(a: LinePath.Point, x: int, y: int) {
    a.y == y && (a.x == x || a.x + 1 == x)
  }

  ghost predicate Covered(strokes: seq<Stroke>, x: int, y: int) {
    exists k :: 0 <= k < |strokes| && Covers(strokes[k].op, x, y)
  }

  lemma OneMoreCovers(done: seq<Stroke>, s: Stroke, x: int, y: int)
    ensures Covered(done + [s], x, y) <==> Covered(done, x, y) || Covers(s.op, x, y)
  {
    var all := done + [s];
    assert all[|done|] == s;
    if Covered(all, x, y) {
      var k :| 0 <= k < |all| && Covers(all[k].op, x, y);
      assert k < |done| ==> Covers(done[k].op, x, y);
    }
    if Covered(done, x, y) {
      var k :| 0 <= k < |done| && Covers(done[k].op, x, y);
      assert Covers(all[k].op, x, y);
    }
  }

  /** Later strokes hide earlier ones exactly where they cover. */
  lemma {:induction false} PaintAppended(a: seq<Stroke>, s: seq<Stroke>, x: int, y: int)
    ensures Covered(a + s, x, y) <==> Covered(a, x, y) || Covered(s, x, y)
    ensures Paint(a + s, WHITE, x, y) == Paint(if Covered(s, x, y) then s else a, WHITE, x, y)
  {
    if s == [] {
      assert a + s == a;
    } else {
      var n := |s| - 1;
      var before := s[..n];
      assert s == before + [s[n]] && a + s == a + before + [s[n]];
      PaintAppended(a, before, x, y);
      OneMoreStroke(a + before, s[n], x, y);
      OneMoreStroke(before, s[n], x, y);
      OneMoreCovers(a + before, s[n], x, y);
      OneMoreCovers(before, s[n], x, y);
    }
  }

  lemma {:induction false} OneColour(strokes: seq<Stroke>, c: Rgb, x: int, y: int)
    requires Covered(strokes, x, y) && forall k :: 0 <= k < |strokes| ==> strokes[k].color == c
    ensures Paint(strokes, WHITE, x, y) == c
  {
    var n := |strokes| - 1;
    assert strokes == strokes[..n] + [strokes[n]];
    OneMoreCovers(strokes[..n], strokes[n], x, y);
    if !Covers(strokes[n].op, x, y) {
      OneColour(strokes[..n], c, x, y);
    }
  }

  lemma BandOfTwo(y: real, n: int)
    ensures InBand(y, 2, n) <==> n == Trunc(y) || n == Trunc(y + 1.0)
  {
    assert Row(y, 0) == Trunc(y) && Row(y, 1) == Trunc(y + 1.0);
  }

  lemma TwoBands(low: real, size: real, n: int)
    ensures InEndBands(low, size, 2, n) <==> AtEdge(low, size, n)
  {
    BandOfTwo(low, n);
    BandOfTwo(low + size - 1.0, n);
    assert low + size - 1.0 + 1.0 == low + size;
  }

  lemma OutlineIsCovered(s: Shape, x: int, y: int)
    requires s.Card?
    ensures Covers(Op.Rect(s.x, s.y, s.w, s.h, 2), x, y) <==> OnOutline(s, x, y)
  {
    TwoBands(s.y, s.h, y);
    TwoBands(s.x, s.w, x);
  }

  lemma StripIsCovered(s: Shape, x: int, y: int)
    requires s.Card?
    ensures Covers(Op.Fill(s.x + 1.0, s.y + 1.0, s.w - 2.0, 5.0), x, y) <==> OnStrip(s, x, y)
  {
    assert s.x + 1.0 + (s.w - 2.0) == s.x + s.w - 1.0 && s.y + 1.0 + 5.0 == s.y + 6.0;
  }

  lemma CoveredByTwo(s: seq<Stroke>, x: int, y: int)
    requires 1 <= |s| <= 2
    ensures Covered(s, x, y) <==> Covers(s[0].op, x, y) || (|s| == 2 && Covers(s[1].op, x, y))
  {}

  /** The strokes of one rectangle cover what it touches, in its colour. */
  lemma CardCovers(s: Shape, x: int, y: int)
    ensures Covered(CardStrokes(s), x, y) <==> CardTouches(s, x, y)
    ensures Covered(CardStrokes(s), x, y) ==> Paint(CardStrokes(s), WHITE, x, y) == s.color
  {
    if s.Card? {
      OutlineIsCovered(s, x, y);
      StripIsCovered(s, x, y);
      CoveredByTwo(CardStrokes(s), x, y);
      if Covered(CardStrokes(s), x, y) {
        OneColour(CardStrokes(s), s.color, x, y);
      }
    }
  }

  lemma LegIsCovered(spots: seq<Spot>, k: nat, x: int, y: int)
    requires k + 1 < |spots|
    ensures Covers(Leg(spots, k), x, y) <==> OnLeg(spots[k], spots[k + 1], x, y)
  {
    var p, q := Pixel(spots[k].x, spots[k].y), Pixel(spots[k + 1].x, spots[k + 1].y);
    forall n: nat
      ensures IsDot(LinePath.At(p, q, n), x, y)
              <==> LinePath.At(p, q, n) == LinePath.Point(x, y) || LinePath.At(p, q, n) == LinePath.Point(x - 1, y)
    {
    }
  }

  lemma WireCovers(s: Shape, x: int, y: int)
    ensures Covered(WireStrokes(s), x, y) <==> WireTouches(s, x, y)
    ensures Covered(WireStrokes(s), x, y) ==> Paint(WireStrokes(s), WHITE, x, y) == s.color
  {
    var strokes := WireStrokes(s);
    if s.Wire? && s.spots != [] {
      forall k: nat | k < |strokes| ensures Covers(strokes[k].op, x, y) <==> OnLeg(s.spots[k], s.spots[k + 1], x, y) {
        LegIsCovered(s.spots, k, x, y);
      }
      if Covered(strokes, x, y) {
        OneColour(strokes, s.color, x, y);
      }
    }
  }

  /** The last shape of a kind to touch a pixel. */
  ghost predicate IsLast(shapes: seq<Shape>, touches: Shape -> bool, k: nat) {
    k < |shapes| && touches(shapes[k]) && forall j :: k < j < |shapes| ==> !touches(shapes[j])
  }

  /** Drawn in order, the last shape to touch a pixel shows there. */
  lemma {:induction false} LastShows(shapes: seq<Shape>, draw: Shape -> seq<Stroke>, touches: Shape -> bool,
                                    x: int, y: int)
    requires forall s :: s in shapes ==> (Covered(draw(s), x, y) <==> touches(s))
    requires forall s :: s in shapes && touches(s) ==> Paint(draw(s), WHITE, x, y) == s.color
    ensures Covered(Drawn(shapes, draw), x, y) <==> exists s :: s in shapes && touches(s)
    ensures forall k: nat :: IsLast(shapes, touches, k) ==> Paint(Drawn(shapes, draw), WHITE, x, y) == shapes[k].color
  {
    if shapes != [] {
      var n := |shapes| - 1;
      assert shapes == shapes[..n] + [shapes[n]];
      LastShows(shapes[..n], draw, touches, x, y);
      PaintAppended(Drawn(shapes[..n], draw), draw(shapes[n]), x, y);
      forall k: nat | IsLast(shapes, touches, k)
        ensures Paint(Drawn(shapes, draw), WHITE, x, y) == shapes[k].color
      {
        if k < n {
          assert IsLast(shapes[..n], touches, k);
          assert !touches(shapes[n]);
        }
      }
    }
  }

  lemma CardsShow(shapes: seq<Shape>, x: int, y: int)
    ensures Covered(Drawn(shapes, CardStrokes), x, y) <==> exists s :: s in shapes && CardTouches(s, x, y)
    ensures forall k: nat :: IsLast(shapes, s => CardTouches(s, x, y), k) ==>
              Paint(Drawn(shapes, CardStrokes), WHITE, x, y) == shapes[k].color
  {
    forall s | s in shapes
      ensures Covered(CardStrokes(s), x, y) <==> CardTouches(s, x, y)
      ensures CardTouches(s, x, y) ==> Paint(CardStrokes(s), WHITE, x, y) == s.color
    {
      CardCovers(s, x, y);
    }
    LastShows(shapes, CardStrokes, s => CardTouches(s, x, y), x, y);
  }

  lemma WiresShow(shapes: seq<Shape>, x: int, y: int)
    ensures Covered(Drawn(shapes, WireStrokes), x, y) <==> exists s :: s in shapes && WireTouches(s, x, y)
    ensures forall k: nat :: IsLast(shapes, s => WireTouches(s, x, y), k) ==>
              Paint(Drawn(shapes, WireStrokes), WHITE, x, y) == shapes[k].color
  {
    forall s | s in shapes
      ensures Covered(WireStrokes(s), x, y) <==> WireTouches(s, x, y)
      ensures WireTouches(s, x, y) ==> Paint(WireStrokes(s), WHITE, x, y) == s.color
    {
      WireCovers(s, x, y);
    }
    LastShows(shapes, WireStrokes, s => WireTouches(s, x, y), x, y);
  }

  /** A pixel on an arrow shows the last arrow over it, whatever the rectangles; any
      other pixel shows the last rectangle whose outline or strip it is on; the
      rest of the canvas is white. */
  lemma PictureShows(shapes: seq<Shape>, x: int, y: int)
    ensures var shown := Paint(Picture(shapes), WHITE, x, y);
            && (forall k: nat :: IsLast(shapes, s => WireTouches(s, x, y), k) ==> shown == shapes[k].color)
            && ((forall s :: s in shapes ==> !WireTouches(s, x, y)) ==>
                  forall k: nat :: IsLast(shapes, s => CardTouches(s, x, y), k) ==> shown == shapes[k].color)
            && ((forall s :: s in shapes ==> !WireTouches(s, x, y) && !CardTouches(s, x, y)) ==> shown == WHITE)
  {
    CardsShow(shapes, x, y);
    WiresShow(shapes, x, y);
    PaintAppended(Drawn(shapes, CardStrokes), Drawn(shapes, WireStrokes), x, y);
    if !Covered(Drawn(shapes, CardStrokes), x, y) {
      UntouchedIsBackground(Drawn(shapes, CardStrokes), WHITE, x, y);
    }
    forall k: nat | IsLast(shapes, s => WireTouches(s, x, y), k)
      ensures Paint(Picture(shapes), WHITE, x, y) == shapes[k].color
    {
      assert shapes[k] in shapes;
    }
  }

  // --- nothing is clipped ---

  lemma PlacedInside(v: real, low: real, high: real, scale: real)
    requires low <= v <= high && PAD * scale >= 2.0
    ensures 2.0 <= Place(v, low, scale) && 2 <= Trunc(Place(v, low, scale))
    ensures Trunc(Place(v, low, scale)) + 2 <= Extent(low, high, scale)
    ensures Place(v, low, scale) + 2.0 <= (high - low + 2.0 * PAD) * scale
  {
    assert 0.0 <= (v - low) * scale;
    assert 0.0 <= (high - v) * scale;
    assert Place(v, low, scale) == (v - low) * scale + PAD * scale;
    assert (high - low + 2.0 * PAD) * scale == Place(v, low, scale) + (high - v) * scale + PAD * scale;
  }

  /** With at least two pixels of margin no pixel of any arrow is clipped, the
      second pixel of the line's weight included. */
  lemma ArrowsNeverClipped(els: seq<Element>, b: Box, scale: real, e: Element, x: int, y: int)
    requires IsHull(AllCorners(els), b) && PAD * scale >= 2.0
    requires e in els
    ensures WireTouches(ShapeOf(e, b, scale), x, y) ==>
              0 <= x < Extent(b.x0, b.x1, scale) && 0 <= y < Extent(b.y0, b.y1, scale)
  {
    if !WireTouches(ShapeOf(e, b, scale), x, y) {
      return;
    }
    var spots := ShapeOf(e, b, scale).spots;
    var k: nat :| k + 1 < |spots| && OnLeg(spots[k], spots[k + 1], x, y);
    var p, q := Point(e, k), Point(e, k + 1);
    assert Corners(e)[k] == p && Corners(e)[k + 1] == q;
    CornersCollected(els, e, p);
    CornersCollected(els, e, q);
    LegStaysInside(p, q, b, scale, x, y);
  }

  lemma LegStaysInside(p: Spot, q: Spot, b: Box, scale: real, x: int, y: int)
    requires Within(p, b) && Within(q, b) && PAD * scale >= 2.0
    ensures OnLeg(PlaceSpot(p, b, scale), PlaceSpot(q, b, scale), x, y) ==>
              0 <= x < Extent(b.x0, b.x1, scale) && 0 <= y < Extent(b.y0, b.y1, scale)
  {
    if !OnLeg(PlaceSpot(p, b, scale), PlaceSpot(q, b, scale), x, y) {
      return;
    }
    PlacedInside(p.x, b.x0, b.x1, scale);
    PlacedInside(p.y, b.y0, b.y1, scale);
    PlacedInside(q.x, b.x0, b.x1, scale);
    PlacedInside(q.y, b.y0, b.y1, scale);
    var from, to := PlaceSpot(p, b, scale), PlaceSpot(q, b, scale);
    var u, v := LinePath.Point(Trunc(from.x), Trunc(from.y)), LinePath.Point(Trunc(to.x), Trunc(to.y));
    var n: nat :| n <= LinePath.Length(u, v) && IsDot(LinePath.At(u, v, n), x, y);
    LinePath.PathInBox(u, v, n);
  }

  lemma EdgeStaysInside(low: real, size: real, n: int, limit: int)
    requires 2.0 <= low && 0.0 <= size && Trunc(low + size) + 2 <= limit
    ensures AtEdge(low, size, n) || Between(low, low + size, n) ==> 0 <= n < limit
  {}

  lemma OutlineStaysInside(s: Shape, x: int, y: int, w: int, h: int)
    requires s.Card? && OnOutline(s, x, y)
    requires 2.0 <= s.x && 0.0 <= s.w && Trunc(s.x + s.w) + 2 <= w
    requires 2.0 <= s.y && 0.0 <= s.h && Trunc(s.y + s.h) + 2 <= h
    ensures 0 <= x < w && 0 <= y < h
  {
    EdgeStaysInside(s.x, s.w, x, w);
    EdgeStaysInside(s.y, s.h, y, h);
  }

  lemma PanelIsPlaced(e: Element, b: Box, scale: real, s: Shape)
    requires e.Panel? && e.rectangle && e.width >= 0.0 && e.height >= 0.0 && PAD * scale >= 2.0
    requires Within(Spot(e.x, e.y), b) && Within(Spot(e.x + e.width, e.y + e.height), b)
    requires s == ShapeOf(e, b, scale)
    ensures 2.0 <= s.x && 0.0 <= s.w && Trunc(s.x + s.w) + 2 <= Extent(b.x0, b.x1, scale)
    ensures 2.0 <= s.y && 0.0 <= s.h && Trunc(s.y + s.h) + 2 <= Extent(b.y0, b.y1, scale)
  {
    SideIsPlaced(e.x, e.width, b.x0, b.x1, scale, s.x, s.w);
    SideIsPlaced(e.y, e.height, b.y0, b.y1, scale, s.y, s.h);
  }

  lemma SideIsPlaced(v: real, size: real, low: real, high: real, scale: real, from: real, length: real)
    requires low <= v && 0.0 <= size && v + size <= high && PAD * scale >= 2.0
    requires from == Place(v, low, scale) && length == size * scale
    ensures 2.0 <= from && 0.0 <= length && Trunc(from + length) + 2 <= Extent(low, high, scale)
  {
    PlacedInside(v, low, high, scale);
    PlacedInside(v + size, low, high, scale);
    assert Place(v + size, low, scale) == Place(v, low, scale) + size * scale;
    assert 0.0 <= size * scale;
  }

  /** Nor is any pixel of a rectangle's outline. */
  lemma OutlinesNeverClipped(els: seq<Element>, b: Box, scale: real, e: Element, s: Shape, x: int, y: int)
    requires IsHull(AllCorners(els), b) && PAD * scale >= 2.0
    requires e in els && e.Panel? && e.rectangle && e.width >= 0.0 && e.height >= 0.0
    requires s == ShapeOf(e, b, scale) && OnOutline(s, x, y)
    ensures 0 <= x < Extent(b.x0, b.x1, scale) && 0 <= y < Extent(b.y0, b.y1, scale)
  {
    assert Corners(e)[0] == Spot(e.x, e.y) && Corners(e)[1] == Spot(e.x + e.width, e.y + e.height);
    CornersCollected(els, e, Corners(e)[0]);
    CornersCollected(els, e, Corners(e)[1]);
    PanelIsPlaced(e, b, scale, s);
    OutlineStaysInside(s, x, y, Extent(b.x0, b.x1, scale), Extent(b.y0, b.y1, scale));
  }
}
