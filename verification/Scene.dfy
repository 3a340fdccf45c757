/** Where a connector leaves one box and enters another. */
module Connector {
  import opened Rounding
  import opened Router

  datatype Option<+T> = None | Some(value: T)

  datatype Frame = Frame(x: real, y: real, w: real, h: real)

  datatype Side = L | R | T | B

  datatype First = Auto | Horizontal | Vertical

  /** The caller's wishes; `via` names corridor points explicitly. */
  datatype Wish = Wish(sideA: Option<Side>, sideB: Option<Side>, lane: Option<real>, first: First,
                       via: Option<seq<Spot>>)

  function Midpoint(f: Frame, s: Side): Spot {
    match s
    case L => Spot(f.x, f.y + f.h / 2.0)
    case R => Spot(f.x + f.w, f.y + f.h / 2.0)
    case T => Spot(f.x + f.w / 2.0, f.y)
    case B => Spot(f.x + f.w / 2.0, f.y + f.h)
  }

  predicate Sideways(s: Side) {
    s == L || s == R
  }

  function Across(a: Frame, b: Frame): real {
    (b.x + b.w / 2.0) - (a.x + a.w / 2.0)
  }

  function Down(a: Frame, b: Frame): real {
    (b.y + b.h / 2.0) - (a.y + a.h / 2.0)
  }

  function ExitSide(a: Frame, b: Frame, wish: Wish): Side {
    var dx, dy := Across(a, b), Down(a, b);
    if wish.sideA.Some? then wish.sideA.value
    else if wish.first == Horizontal || (wish.first == Auto && Abs(dx) >= Abs(dy)) then (if dx >= 0.0 then R else L)
    else if dy >= 0.0 then B else T
  }

  function EntrySide(a: Frame, b: Frame, wish: Wish): Side {
    if wish.sideB.Some? then wish.sideB.value
    else if Sideways(ExitSide(a, b, wish)) then (if Across(a, b) >= 0.0 then L else R)
    else if Down(a, b) >= 0.0 then T else B
  }

  /** The corridor before elbows and deduplication. */
  function Chain(a: Frame, b: Frame, wish: Wish): (chain: seq<Spot>)
    ensures |chain| >= 2
    ensures chain[0] == Midpoint(a, ExitSide(a, b, wish)) && Last(chain) == Midpoint(b, EntrySide(a, b, wish))
  {
    var sideA, sideB := ExitSide(a, b, wish), EntrySide(a, b, wish);
    var s, e := Midpoint(a, sideA), Midpoint(b, sideB);
    if wish.via.Some? then [s] + wish.via.value + [e]
    else if Sideways(sideA) && Sideways(sideB) then
      var lane := if wish.lane.Some? then wish.lane.value else (s.x + e.x) / 2.0;
      [s, Spot(lane, s.y), Spot(lane, e.y), e]
    else if !Sideways(sideA) && !Sideways(sideB) then
      var lane := if wish.lane.Some? then wish.lane.value else (s.y + e.y) / 2.0;
      [s, Spot(s.x, lane), Spot(e.x, lane), e]
    else if Sideways(sideA) then [s, Spot(e.x, s.y), e]
    else [s, Spot(s.x, e.y), e]
  }

  function Path(a: Frame, b: Frame, wish: Wish): seq<Spot> {
    Deduped(Elbowed(Chain(a, b, wish)))
  }

  /** What is stored: offsets from the first point, to two places. */
  function Stored(path: seq<Spot>): seq<Spot>
    requires path != []
  {
    seq(|path|, k requires 0 <= k < |path| => Spot(Cents(path[k].x - path[0].x), Cents(path[k].y - path[0].y)))
  }

  /** A connector starts exactly on its exit edge, ends within half a unit of its
      entry edge, and has no leg off its axis by more than one unit. */
  lemma PathJoinsBoxes(a: Frame, b: Frame, wish: Wish)
    ensures var path := Path(a, b, wish);
            && path[0] == Midpoint(a, ExitSide(a, b, wish))
            && Near(Last(path), Midpoint(b, EntrySide(a, b, wish)))
            && AllStraight(path, 1.0)
            && Stored(path)[0] == Spot(0.0, 0.0)
  {
    RouteFacts(Chain(a, b, wish));
    RoundWhole(0);
  }

  /** What is stored is the path to the nearest hundredth. */
  lemma StoredIsPath(path: seq<Spot>, k: nat, p: Spot)
    requires k < |path| && p == Stored(path)[k]
    ensures IsWhole(100.0 * p.x) && -0.005 <= p.x - (path[k].x - path[0].x) <= 0.005
    ensures IsWhole(100.0 * p.y) && -0.005 <= p.y - (path[k].y - path[0].y) <= 0.005
  {
    CentsAreWhole(path[k].x - path[0].x);
    CentsAreWhole(path[k].y - path[0].y);
  }

  /** Without wishes a connector leaves by the side facing the other box and enters
      by the side facing back: side by side when the centres are further apart
      across than down, top and bottom otherwise. */
  lemma FacingSides(a: Frame, b: Frame, wish: Wish)
    requires wish.sideA.None? && wish.sideB.None? && wish.first == Auto
    ensures var dx, dy := (b.x + b.w / 2.0) - (a.x + a.w / 2.0), (b.y + b.h / 2.0) - (a.y + a.h / 2.0);
            var s, e := Midpoint(a, ExitSide(a, b, wish)), Midpoint(b, EntrySide(a, b, wish));
            if Abs(dx) >= Abs(dy) then
              && s.y == a.y + a.h / 2.0 && e.y == b.y + b.h / 2.0
              && (dx >= 0.0 ==> s.x == a.x + a.w && e.x == b.x)
              && (dx < 0.0 ==> s.x == a.x && e.x == b.x + b.w)
            else
              && s.x == a.x + a.w / 2.0 && e.x == b.x + b.w / 2.0
              && (dy >= 0.0 ==> s.y == a.y + a.h && e.y == b.y)
              && (dy < 0.0 ==> s.y == a.y && e.y == b.y + b.h)
  {}

  /** A side asked for is the side taken, `first` overrides the choice of axis, and
      the entry side always matches the axis of the exit. */
  lemma WishesAreKept(a: Frame, b: Frame, wish: Wish)
    ensures wish.sideA.Some? ==> ExitSide(a, b, wish) == wish.sideA.value
    ensures wish.sideB.Some? ==> EntrySide(a, b, wish) == wish.sideB.value
    ensures wish.sideA.None? && wish.first == Horizontal ==> ExitSide(a, b, wish) in {L, R}
    ensures wish.sideA.None? && wish.first == Vertical ==> ExitSide(a, b, wish) in {T, B}
    ensures wish.sideB.None? ==> (ExitSide(a, b, wish) in {L, R} <==> EntrySide(a, b, wish) in {L, R})
  {}

  /** Between sides on the same axis the corridor runs along one lane, the wished one
      or halfway; between sides on different axes it turns once, at the corner. */
  lemma CorridorIs(a: Frame, b: Frame, wish: Wish)
    requires wish.via.None?
    ensures var chain, s, e := Chain(a, b, wish), Midpoint(a, ExitSide(a, b, wish)), Midpoint(b, EntrySide(a, b, wish));
            var across, down := ExitSide(a, b, wish) in {L, R}, EntrySide(a, b, wish) in {L, R};
            && (across && down ==>
                  && |chain| == 4 && chain[1].y == s.y && chain[2].y == e.y && chain[1].x == chain[2].x
                  && if wish.lane.Some? then chain[1].x == wish.lane.value else 2.0 * chain[1].x == s.x + e.x)
            && (!across && !down ==>
                  && |chain| == 4 && chain[1].x == s.x && chain[2].x == e.x && chain[1].y == chain[2].y
                  && if wish.lane.Some? then chain[1].y == wish.lane.value else 2.0 * chain[1].y == s.y + e.y)
            && (across && !down ==> |chain| == 3 && chain[1].x == e.x && chain[1].y == s.y)
            && (!across && down ==> |chain| == 3 && chain[1].x == s.x && chain[1].y == e.y)
  {}

  /** Corridor points named by the caller are all passed, in order, within half a unit. */
  lemma ViaIsPassed(a: Frame, b: Frame, wish: Wish) returns (at: seq<nat>)
    requires wish.via.Some?
    ensures |at| == |wish.via.value| && forall j, k :: 0 <= j <= k < |at| ==> at[j] <= at[k]
    ensures forall k :: 0 <= k < |at| ==> at[k] < |Path(a, b, wish)| && Near(Path(a, b, wish)[at[k]], wish.via.value[k])
  {
    var chain := Chain(a, b, wish);
    var all := RoutePassesWaypoints(chain);
    at := all[1..|all| - 1];
    assert forall k :: 0 <= k < |at| ==> chain[k + 1] == wish.via.value[k];
  }

  lemma {:induction false} StraightNeedsNoElbow(pts: seq<Spot>)
    requires pts != [] && AllStraight(pts, 0.0)
    ensures Elbowed(pts) == pts
  {
    if |pts| > 1 {
      var n := |pts| - 1;
      StraightNeedsNoElbow(pts[..n]);
      assert Straight(pts[n - 1], pts[n], 0.0);
      assert pts == pts[..n] + [pts[n]];
    }
  }

  /** Without explicit corridor points every corridor is already right-angled:
      the router adds no elbow to it. */
  lemma AutomaticCorridorIsRightAngled(a: Frame, b: Frame, wish: Wish)
    requires wish.via.None?
    ensures AllStraight(Chain(a, b, wish), 0.0) && Elbowed(Chain(a, b, wish)) == Chain(a, b, wish)
  {
    StraightNeedsNoElbow(Chain(a, b, wish));
  }
}

/** The drawing's element tables and what must stay true between them. */
module Scene {
  import opened Router
  import opened Connector
  import Decimal

  datatype Kind = Rectangle | Text | Arrow

  /** `refs` are the ids of the arrows bound to the element. */
  datatype Element = Element(id: string, kind: Kind, seed: int, nonce: int, start: string, end: string,
                             points: seq<Spot>, refs: seq<string>)

  /** The module-level tables; `byId` holds positions in `elements`. */
  datatype Tables = Tables(elements: seq<Element>, byId: map<string, nat>, boxes: map<string, Frame>, ctr: nat)

  const EMPTY := Tables([], map[], map[], 0)

  const PREFIXES: set<string> := {"t", "zone", "arr"}

  function GeneratedId(prefix: string, n: nat): string {
    prefix + "-" + Decimal.Padded(n, 4)
  }

  /** An id the generator can never make. */
  ghost predicate Plain(id: string) {
    forall prefix, n: nat :: prefix in PREFIXES ==> id != GeneratedId(prefix, n)
  }

  lemma GeneratedIdInjective(p: string, m: nat, q: string, n: nat)
    requires p in PREFIXES && q in PREFIXES && GeneratedId(p, m) == GeneratedId(q, n)
    ensures p == q && m == n
  {
    Decimal.SplitAtMark(p, q, Decimal.Padded(m, 4), Decimal.Padded(n, 4), '-');
    Decimal.PaddedInjective(m, n, 4);
  }

  /** Ids and seeds as a fresh drawing hands them out. */
  lemma FirstIdsAndSeeds(frame: Frame)
    ensures GeneratedId("zone", 1) == "zone-0001" && GeneratedId("arr", 207) == "arr-0207"
    ensures GeneratedId("t", 12345) == "t-12345"
    ensures var s := Zone(EMPTY, frame);
            && |s.elements| == 1 && s.elements[0].id == "zone-0001" && s.elements[0].kind == Rectangle
            && s.elements[0].seed == 100014 && s.elements[0].nonce == 200026 && s.boxes == map["zone-0001" := frame]
  {
    Decimal.PaddedExamples();
  }

  function Seeded(el: Element, ctr: nat): Element {
    el.(seed := 100000 + ctr * 7, nonce := 200000 + ctr * 13)
  }

  function Register(s: Tables, el: Element): Tables {
    Tables(s.elements + [Seeded(el, s.ctr + 1)], s.byId[el.id := |s.elements|], s.boxes, s.ctr + 1)
  }

  function Declare(s: Tables, rid: string, frame: Frame): Tables {
    Register(s, Element(rid, Rectangle, 0, 0, "", "", [], [])).(boxes := s.boxes[rid := frame])
  }

  function Tick(s: Tables): Tables {
    s.(ctr := s.ctr + 1)
  }

  function Zone(s: Tables, frame: Frame): Tables {
    Declare(Tick(s), GeneratedId("zone", s.ctr + 1), frame)
  }

  function Label(s: Tables): Tables {
    Register(Tick(s), Element(GeneratedId("t", s.ctr + 1), Text, 0, 0, "", "", [], []))
  }

  function BackRef(s: Tables, box: string, arrow: string): Tables
    requires box in s.byId && s.byId[box] < |s.elements|
  {
    var i := s.byId[box];
    s.(elements := s.elements[i := s.elements[i].(refs := s.elements[i].refs + [arrow])])
  }

  function WithArrow(s: Tables, a: string, b: string, points: seq<Spot>): Tables {
    Register(Tick(s), Element(GeneratedId("arr", s.ctr + 1), Arrow, 0, 0, a, b, points, []))
  }

  function Wire(s: Tables, a: string, b: string, points: seq<Spot>): Tables
    requires Consistent(s) && a in s.boxes && b in s.boxes
  {
    var id := GeneratedId("arr", s.ctr + 1);
    BackRef(BackRef(WithArrow(s, a, b, points), a, id), b, id)
  }

  // --- invariants ---

  /** `byId` finds each element, and nothing else. */
  ghost predicate Indexed(s: Tables) {
    && (forall i :: 0 <= i < |s.elements| ==> s.elements[i].id in s.byId && s.byId[s.elements[i].id] == i)
    && (forall id :: id in s.byId ==> s.byId[id] < |s.elements| && s.elements[s.byId[id]].id == id)
    && s.boxes.Keys <= s.byId.Keys
  }

  /** Seeds grow with position and with the counter. */
  ghost predicate SeedsGrow(s: Tables) {
    && (forall i :: 0 <= i < |s.elements| ==>
          s.elements[i].seed <= 100000 + s.ctr * 7 && s.elements[i].nonce <= 200000 + s.ctr * 13)
    && (forall i, j :: 0 <= i < j < |s.elements| ==>
          s.elements[i].seed < s.elements[j].seed && s.elements[i].nonce < s.elements[j].nonce)
  }

  /** No generated id is ahead of the counter. */
  ghost predicate Numbered(s: Tables) {
    forall prefix, n: nat :: prefix in PREFIXES && GeneratedId(prefix, n) in s.byId ==> n <= s.ctr
  }

  /** What every drawing call keeps. */
  ghost predicate Consistent(s: Tables) {
    Indexed(s) && SeedsGrow(s) && Numbered(s)
  }

  /** Both ends of an arrow exist and list it back. */
  predicate Bound(s: Tables, arrow: Element) {
    ListsBack(s, arrow.start, arrow.id) && ListsBack(s, arrow.end, arrow.id)
  }

  predicate ListsBack(s: Tables, box: string, arrow: string) {
    box in s.byId && s.byId[box] < |s.elements| && arrow in s.elements[s.byId[box]].refs
  }

  predicate AllBound(s: Tables) {
    forall i :: 0 <= i < |s.elements| && s.elements[i].kind == Arrow ==> Bound(s, s.elements[i])
  }

  lemma UniqueIds(s: Tables, i: nat, j: nat)
    requires Consistent(s) && i < j < |s.elements|
    ensures s.elements[i].id != s.elements[j].id && s.elements[i].seed != s.elements[j].seed
            && s.elements[i].nonce != s.elements[j].nonce
  {
    assert s.byId[s.elements[i].id] == i;
  }

  /** Same elements, up to their back-references. */
  ghost predicate SameWiring(s: seq<Element>, t: seq<Element>) {
    |s| <= |t| && forall i :: 0 <= i < |s| ==>
      t[i].kind == s[i].kind && t[i].id == s[i].id && t[i].start == s[i].start && t[i].end == s[i].end
  }

  /** Registering the id cannot put a generated number ahead of the counter. */
  ghost predicate MayRegister(s: Tables, id: string) {
    id !in s.byId && forall prefix, n: nat :: prefix in PREFIXES && GeneratedId(prefix, n) == id ==> n <= s.ctr + 1
  }

  lemma RegisterIndexes(s: Tables, el: Element)
    requires Indexed(s) && el.id !in s.byId
    ensures Indexed(Register(s, el))
    ensures forall box, arrow :: ListsBack(s, box, arrow) ==> ListsBack(Register(s, el), box, arrow)
  {}

  lemma RegisterSeeds(s: Tables, el: Element)
    requires SeedsGrow(s)
    ensures SeedsGrow(Register(s, el))
  {}

  lemma RegisterKeeps(s: Tables, el: Element)
    requires Consistent(s) && MayRegister(s, el.id)
    ensures Consistent(Register(s, el)) && el.id in Register(s, el).byId
    ensures SameWiring(s.elements, Register(s, el).elements) && |Register(s, el).elements| == |s.elements| + 1
    ensures forall box, arrow :: ListsBack(s, box, arrow) ==> ListsBack(Register(s, el), box, arrow)
  {
    RegisterIndexes(s, el);
    RegisterSeeds(s, el);
  }

  lemma TickKeeps(s: Tables)
    requires Consistent(s)
    ensures Consistent(Tick(s)) && (AllBound(s) ==> AllBound(Tick(s)))
    ensures forall box, arrow :: ListsBack(Tick(s), box, arrow) <==> ListsBack(s, box, arrow)
  {
    if AllBound(s) {
      BoundKept(s, Tick(s));
    }
  }

  lemma FreshGeneratedId(s: Tables, prefix: string)
    requires Consistent(s) && prefix in PREFIXES
    ensures MayRegister(Tick(s), GeneratedId(prefix, s.ctr + 1))
  {
    forall q, n: nat | q in PREFIXES && GeneratedId(q, n) == GeneratedId(prefix, s.ctr + 1)
      ensures n <= s.ctr + 1
    {
      GeneratedIdInjective(q, n, prefix, s.ctr + 1);
    }
  }

  lemma BoxAdded(t: Tables, rid: string, boxes: map<string, Frame>)
    requires Consistent(t) && boxes.Keys == t.boxes.Keys + {rid} && rid in t.byId
    ensures Consistent(t.(boxes := boxes))
    ensures forall box, arrow :: ListsBack(t.(boxes := boxes), box, arrow) <==> ListsBack(t, box, arrow)
  {}

  lemma DeclareKeeps(s: Tables, rid: string, frame: Frame)
    requires Consistent(s) && AllBound(s) && MayRegister(s, rid)
    ensures Consistent(Declare(s, rid, frame)) && AllBound(Declare(s, rid, frame))
  {
    var el := Element(rid, Rectangle, 0, 0, "", "", [], []);
    RegisterKeeps(s, el);
    BoxAdded(Register(s, el), rid, s.boxes[rid := frame]);
    BoundKept(s, Declare(s, rid, frame));
  }

  /** A larger table whose new arrows are bound, and which loses no
      back-reference, stays bound. */
  lemma BoundKept(s: Tables, t: Tables)
    requires AllBound(s) && SameWiring(s.elements, t.elements)
    requires forall i :: |s.elements| <= i < |t.elements| && t.elements[i].kind == Arrow ==>
               Bound(t, t.elements[i])
    requires forall box, arrow :: ListsBack(s, box, arrow) ==> ListsBack(t, box, arrow)
    ensures AllBound(t)
  {}

  lemma LabelKeeps(s: Tables)
    requires Consistent(s) && AllBound(s)
    ensures Consistent(Label(s)) && AllBound(Label(s))
  {
    TickKeeps(s);
    FreshGeneratedId(s, "t");
    var el := Element(GeneratedId("t", s.ctr + 1), Text, 0, 0, "", "", [], []);
    RegisterKeeps(Tick(s), el);
    BoundKept(Tick(s), Label(s));
  }

  lemma ZoneKeeps(s: Tables, frame: Frame)
    requires Consistent(s) && AllBound(s)
    ensures Consistent(Zone(s, frame)) && AllBound(Zone(s, frame))
  {
    TickKeeps(s);
    FreshGeneratedId(s, "zone");
    DeclareKeeps(Tick(s), GeneratedId("zone", s.ctr + 1), frame);
  }

  lemma BackRefKeeps(s: Tables, box: string, arrow: string)
    requires Consistent(s) && box in s.byId
    ensures Consistent(BackRef(s, box, arrow)) && ListsBack(BackRef(s, box, arrow), box, arrow)
    ensures SameWiring(s.elements, BackRef(s, box, arrow).elements)
    ensures forall b, a :: ListsBack(s, b, a) ==> ListsBack(BackRef(s, box, arrow), b, a)
  {}

  /** `t` has one more element than `s`, the arrow `id` from `a` to `b`. */
  ghost predicate NewArrow(s: Tables, t: Tables, a: string, b: string, id: string) {
    && |t.elements| == |s.elements| + 1
    && var e := t.elements[|s.elements|]; e.id == id && e.start == a && e.end == b
  }

  /** An arrow is registered before its boxes list it. */
  lemma ArrowAdded(s: Tables, a: string, b: string, points: seq<Spot>)
    requires Consistent(s) && a in s.boxes && b in s.boxes
    ensures var t := WithArrow(s, a, b, points);
            && Consistent(t) && a in t.byId && b in t.byId
            && |t.elements| == |s.elements| + 1 && SameWiring(s.elements, t.elements)
            && (forall box, arrow :: ListsBack(s, box, arrow) ==> ListsBack(t, box, arrow))
            && NewArrow(s, t, a, b, GeneratedId("arr", s.ctr + 1))
  {
    TickKeeps(s);
    FreshGeneratedId(s, "arr");
    RegisterKeeps(Tick(s), Element(GeneratedId("arr", s.ctr + 1), Arrow, 0, 0, a, b, points, []));
  }

  /** A wire is the new arrow and its two back-references. */
  lemma WireInSteps(s: Tables, t: Tables, a: string, b: string, points: seq<Spot>, id: string)
    requires Consistent(s) && a in s.boxes && b in s.boxes
    requires t == WithArrow(s, a, b, points) && id == GeneratedId("arr", s.ctr + 1)
    requires Consistent(t) && a in t.byId && Consistent(BackRef(t, a, id)) && b in BackRef(t, a, id).byId
    ensures Wire(s, a, b, points) == BackRef(BackRef(t, a, id), b, id)
  {}

  lemma WireKeeps(s: Tables, a: string, b: string, points: seq<Spot>)
    requires Consistent(s) && AllBound(s) && a in s.boxes && b in s.boxes
    ensures Consistent(Wire(s, a, b, points)) && AllBound(Wire(s, a, b, points))
  {
    var t, id := WithArrow(s, a, b, points), GeneratedId("arr", s.ctr + 1);
    ArrowAdded(s, a, b, points);
    BackRefsBind(s, t, a, b, id);
    WireInSteps(s, t, a, b, points, id);
  }

  /** The two back-references complete the binding of a new arrow. */
  lemma BackRefsBind(s: Tables, t: Tables, a: string, b: string, id: string)
    requires AllBound(s) && Consistent(t) && a in t.byId && b in t.byId
    requires NewArrow(s, t, a, b, id) && SameWiring(s.elements, t.elements)
    requires forall box, arrow :: ListsBack(s, box, arrow) ==> ListsBack(t, box, arrow)
    ensures Consistent(BackRef(t, a, id)) && b in BackRef(t, a, id).byId
    ensures var v := BackRef(BackRef(t, a, id), b, id); Consistent(v) && AllBound(v)
  {
    BackRefKeeps(t, a, id);
    var u := BackRef(t, a, id);
    BackRefKeeps(u, b, id);
    var v := BackRef(u, b, id);
    assert ListsBack(v, a, id) && ListsBack(v, b, id);
    assert v.elements[|s.elements|].start == a && v.elements[|s.elements|].end == b;
    BoundKept(s, v);
  }

  // --- whole drawings ---

  datatype Call =
    | DrawRect(rid: string, frame: Frame)
    | DrawZone(frame: Frame)
    | DrawLabel
    | DrawWire(a: string, b: string, wish: Wish)

  /** A wire to a box that was never declared raises and changes nothing. */
  ghost function Apply(s: Tables, c: Call): Tables
    requires Consistent(s)
  {
    match c
    case DrawRect(rid, frame) => Declare(s, rid, frame)
    case DrawZone(frame) => Zone(s, frame)
    case DrawLabel => Label(s)
    case DrawWire(a, b, wish) =>
      if a in s.boxes && b in s.boxes then Wire(s, a, b, Stored(Path(s.boxes[a], s.boxes[b], wish))) else s
  }

  /** The box ids the caller chooses are its own and all different. */
  ghost predicate DistinctBoxes(calls: seq<Call>) {
    && (forall c :: c in calls && c.DrawRect? ==> Plain(c.rid))
    && (forall i, j :: 0 <= i < j < |calls| && calls[i].DrawRect? && calls[j].DrawRect? ==>
          calls[i].rid != calls[j].rid)
  }

  ghost predicate Declared(calls: seq<Call>, id: string) {
    exists c :: c in calls && c.DrawRect? && c.rid == id
  }

  /** `tables` holds the state after each prefix of `calls`. */
  ghost predicate IsDrawing(tables: seq<Tables>, calls: seq<Call>) {
    && |tables| == |calls| + 1 && tables[0] == EMPTY
    && forall k :: 0 <= k < |calls| ==> Consistent(tables[k]) ==> tables[k + 1] == Apply(tables[k], calls[k])
  }

  lemma PlainIdsAreDeclared(s: Tables, c: Call, id: string)
    requires Consistent(s) && id in Apply(s, c).byId && Plain(id)
    ensures id in s.byId || (c.DrawRect? && c.rid == id)
  {
    match c
    case DrawRect(_, _) =>
    case DrawZone(_) => assert id != GeneratedId("zone", s.ctr + 1);
    case DrawLabel => assert id != GeneratedId("t", s.ctr + 1);
    case DrawWire(a, b, wish) => assert id != GeneratedId("arr", s.ctr + 1);
  }

  lemma StepKeeps(s: Tables, c: Call)
    requires Consistent(s) && AllBound(s)
    requires c.DrawRect? ==> Plain(c.rid) && c.rid !in s.byId
    ensures Consistent(Apply(s, c)) && AllBound(Apply(s, c))
  {
    match c
    case DrawRect(rid, frame) => DeclareKeeps(s, rid, frame);
    case DrawZone(frame) => ZoneKeeps(s, frame);
    case DrawLabel => LabelKeeps(s);
    case DrawWire(a, b, wish) =>
      if a in s.boxes && b in s.boxes {
        WireKeeps(s, a, b, Stored(Path(s.boxes[a], s.boxes[b], wish)));
      }
  }

  lemma NotYetDeclared(calls: seq<Call>, k: nat)
    requires DistinctBoxes(calls) && k < |calls| && calls[k].DrawRect?
    ensures !Declared(calls[..k], calls[k].rid)
  {
    forall c | c in calls[..k] && c.DrawRect? ensures c.rid != calls[k].rid {
      var j :| 0 <= j < k && calls[j] == c;
    }
  }

  /** However a drawing is built from distinct boxes, its tables stay consistent
      and every arrow is bound at both ends: validation cannot fail. */
  lemma {:induction false} DrawingIsSound(tables: seq<Tables>, calls: seq<Call>, k: nat)
    requires IsDrawing(tables, calls) && DistinctBoxes(calls) && k < |tables|
    ensures Consistent(tables[k]) && AllBound(tables[k])
    ensures forall id :: id in tables[k].byId && Plain(id) ==> Declared(calls[..k], id)
  {
    if k > 0 {
      var s, c := tables[k - 1], calls[k - 1];
      DrawingIsSound(tables, calls, k - 1);
      if c.DrawRect? {
        assert c in calls;
        NotYetDeclared(calls, k - 1);
      }
      StepKeeps(s, c);
      forall id | id in tables[k].byId && Plain(id) ensures Declared(calls[..k], id) {
        PlainIdsAreDeclared(s, c, id);
        if id in s.byId {
          var d :| d in calls[..k - 1] && d.DrawRect? && d.rid == id;
          assert d in calls[..k];
        } else {
          assert c in calls[..k];
        }
      }
    }
  }

  /** Declaring a box id a second time breaks validation exactly when some arrow
      is already bound to that box. */
  lemma RedeclaringBreaksIff(s: Tables, rid: string, frame: Frame)
    requires Consistent(s) && AllBound(s)
    ensures AllBound(Declare(s, rid, frame))
            <==> forall i :: 0 <= i < |s.elements| && s.elements[i].kind == Arrow ==>
                               s.elements[i].start != rid && s.elements[i].end != rid
  {
    var t := Declare(s, rid, frame);
    var n := |s.elements|;
    assert t.elements[n].refs == [] && t.elements[n].kind == Rectangle && t.byId[rid] == n;
    forall i | 0 <= i < n && s.elements[i].kind == Arrow
      ensures Bound(t, s.elements[i]) <==> s.elements[i].start != rid && s.elements[i].end != rid
    {
      assert Bound(s, s.elements[i]);
    }
    if AllBound(t) {
      forall i | 0 <= i < n && s.elements[i].kind == Arrow
        ensures s.elements[i].start != rid && s.elements[i].end != rid
      {
        assert t.elements[i] == s.elements[i];
      }
    }
  }

  /** The generator's mutable tables. */
  class Drawing {
    var elements: seq<Element>
    var byId: map<string, nat>
    var boxes: map<string, Frame>
    var ctr: nat

    ghost function View(): Tables
      reads this
    {
      Tables(elements, byId, boxes, ctr)
    }

    constructor ()
      ensures View() == EMPTY
    {
      elements, byId, boxes, ctr := [], map[], map[], 0;
    }

    method NextId(prefix: string) returns (id: string)
      modifies this`ctr
      ensures View() == Tick(old(View())) && id == GeneratedId(prefix, ctr)
    {
      ctr := ctr + 1;
      id := GeneratedId(prefix, ctr);
    }

    method Base(el: Element)
      modifies this
      ensures View() == Register(old(View()), el)
    {
      ctr := ctr + 1;
      var seeded := el.(seed := 100000 + ctr * 7, nonce := 200000 + ctr * 13);
      byId := byId[el.id := |elements|];
      elements := elements + [seeded];
    }

    method Rect(rid: string, frame: Frame)
      modifies this
      ensures View() == Declare(old(View()), rid, frame)
    {
      Base(Element(rid, Rectangle, 0, 0, "", "", [], []));
      boxes := boxes[rid := frame];
    }

    method ZoneBox(frame: Frame) returns (rid: string)
      modifies this
      ensures View() == Zone(old(View()), frame)
    {
      rid := NextId("zone");
      Rect(rid, frame);
    }

    method Text()
      modifies this
      ensures View() == Label(old(View()))
    {
      var id := NextId("t");
      Base(Element(id, Kind.Text, 0, 0, "", "", [], []));
    }

    method AddRef(box: string, arrow: string)
      requires box in byId && byId[box] < |elements|
      modifies this`elements
      ensures View() == BackRef(old(View()), box, arrow)
    {
      var i := byId[box];
      elements := elements[i := elements[i].(refs := elements[i].refs + [arrow])];
    }

    method AddArrow(a: string, b: string, points: seq<Spot>) returns (id: string)
      requires Consistent(View()) && a in boxes && b in boxes
      modifies this
      ensures View() == Wire(old(View()), a, b, points) && id == GeneratedId("arr", old(ctr) + 1)
    {
      ArrowAdded(View(), a, b, points);
      id := NextId("arr");
      Base(Element(id, Arrow, 0, 0, a, b, points, []));
      AddRef(a, id);
      AddRef(b, id);
    }

    /** `None` when a box was never declared (`KeyError`). */
    method Connect(a: string, b: string, wish: Wish) returns (r: Option<string>)
      requires Consistent(View())
      modifies this
      ensures View() == Apply(old(View()), DrawWire(a, b, wish))
      ensures r == if a in old(boxes) && b in old(boxes) then Some(GeneratedId("arr", old(ctr) + 1)) else None
    {
      if a !in boxes || b !in boxes {
        return None;
      }
      var chain := Orthogonalize(Chain(boxes[a], boxes[b], wish));
      var id := AddArrow(a, b, Stored(chain));
      r := Some(id);
    }

    /** Validation: true exactly when every arrow is bound at both ends. */
    method Validate() returns (ok: bool)
      requires Consistent(View())
      ensures ok <==> AllBound(View())
    {
      for i := 0 to |elements|
        invariant forall j :: 0 <= j < i && elements[j].kind == Arrow ==> Bound(View(), elements[j])
      {
        var e := elements[i];
        if e.kind == Arrow {
          if e.start !in byId || e.id !in elements[byId[e.start]].refs {
            return false;
          }
          if e.end !in byId || e.id !in elements[byId[e.end]].refs {
            return false;
          }
        }
      }
      ok := true;
    }
  }
}
