/** The ideal digital line the rasteriser draws: step one pixel at a time along
    the longer axis and round the exact height on the other axis half up.
    Nothing here mentions the error term the drawing loop carries. */
module LinePath {
  datatype Point = Point(x: int, y: int)

  function Abs(n: int): nat {
    if n < 0 then -n else n
  }

  function Longer(a: nat, b: nat): nat {
    if a < b then b else a
  }

  /** `+1` only when there is ground to cover to the right, `-1` otherwise. */
  function Toward(from: int, to: int): int {
    if from < to then 1 else -1
  }

  /** `n * rise / run` rounded half up. */
  function HalfUp(n: nat, rise: nat, run: nat): nat
    requires run > 0
  {
    (2 * (n * rise) + run) / (2 * run)
  }

  /** Steps taken along x and along y when `n` points lie behind. */
  function Offset(dx: nat, dy: nat, n: nat): Point {
    if dx == 0 && dy == 0 then Point(0, 0)
    else if dx >= dy then Point(n, HalfUp(n, dy, dx))
    else Point(HalfUp(n, dx, dy), n)
  }

  function Length(p: Point, q: Point): nat {
    Longer(Abs(q.x - p.x), Abs(q.y - p.y))
  }

  /** Point number `n` on the way from `p` to `q`. */
  function At(p: Point, q: Point, n: nat): Point {
    var o := Offset(Abs(q.x - p.x), Abs(q.y - p.y), n);
    Point(p.x + Toward(p.x, q.x) * o.x, p.y + Toward(p.y, q.y) * o.y)
  }

  /** What the drawing loop carries in `err` after that many steps each way. */
  function Err(dx: nat, dy: nat, o: Point): int {
    (o.y + 1) * dx - (o.x + 1) * dy
  }

  lemma SmallMultiple(d: int, k: int)
    requires -d < d * k < d
    ensures k == 0
  {}

  lemma DivFloor(x: int, d: int, q: int)
    requires d > 0 && d * q <= x < d * q + d
    ensures x / d == q
  {
    assert d * (x / d - q) == d * (x / d) - d * q;
    SmallMultiple(d, x / d - q);
  }

  lemma NonNegativeMultiple(d: nat, k: int)
    requires 0 < d * k + d
    ensures 0 <= k
  {}

  lemma DivMonotone(x: int, y: int, d: nat)
    requires d > 0 && x <= y
    ensures x / d <= y / d
  {
    assert d * (y / d - x / d) == d * (y / d) - d * (x / d);
    NonNegativeMultiple(d, y / d - x / d);
  }

  /** The defining inequality of the rounded height. */
  lemma HalfUpBounds(n: nat, rise: nat, run: nat)
    requires run > 0
    ensures 2 * run * HalfUp(n, rise, run) <= 2 * (n * rise) + run
              < 2 * run * HalfUp(n, rise, run) + 2 * run
  {}

  /** One turn of the loop along the longer axis: `g` is the doubled error,
      signed so that the height moves exactly when it is at most `run`; the
      longer axis itself always moves. */
  lemma HalfUpStep(n: nat, rise: nat, run: nat)
    requires 0 < run && rise <= run
    ensures var h := HalfUp(n, rise, run);
            var g := 2 * ((h + 1) * run) - 2 * ((n + 1) * rise);
            0 <= g + rise && HalfUp(n + 1, rise, run) == (if g <= run then h + 1 else h)
  {
    var h := HalfUp(n, rise, run);
    var x := 2 * (n * rise) + run;
    HalfUpBounds(n, rise, run);
    assert (n + 1) * rise == n * rise + rise;
    assert (h + 1) * run == h * run + run;
    assert 2 * run * h == 2 * (h * run);
    assert 2 * run * (h + 1) == 2 * (h * run) + 2 * run;
    if 2 * ((h + 1) * run) - 2 * ((n + 1) * rise) <= run {
      DivFloor(x + 2 * rise, 2 * run, h + 1);
    } else {
      DivFloor(x + 2 * rise, 2 * run, h);
    }
  }

  /** Both ends of the walk. */
  lemma OffsetEnds(dx: nat, dy: nat)
    ensures Offset(dx, dy, 0) == Point(0, 0)
    ensures Offset(dx, dy, Longer(dx, dy)) == Point(dx, dy)
  {
    if 0 < dx && dy <= dx {
      DivFloor(dx, 2 * dx, 0);
      assert 2 * dx * dy == 2 * (dx * dy);
      DivFloor(2 * (dx * dy) + dx, 2 * dx, dy);
    } else if dx < dy {
      DivFloor(dy, 2 * dy, 0);
      assert 2 * dy * dx == 2 * (dy * dx);
      DivFloor(2 * (dy * dx) + dy, 2 * dy, dx);
    }
  }

  /** The loop body's two conditional moves, both judged on the old error. */
  function Move(dx: nat, dy: nat, o: Point, e: int): Point {
    Point(if 2 * e + dy >= 0 then o.x + 1 else o.x, if 2 * e <= dx then o.y + 1 else o.y)
  }

  /** The error term decides the next offset, and keeps its own formula. */
  lemma OffsetStep(dx: nat, dy: nat, n: nat)
    requires n < Longer(dx, dy)
    ensures var o := Offset(dx, dy, n);
            Offset(dx, dy, n + 1) == Move(dx, dy, o, Err(dx, dy, o))
  {
    if dx >= dy {
      HalfUpStep(n, dy, dx);
    } else {
      HalfUpStep(n, dx, dy);
    }
  }

  lemma ErrStep(dx: nat, dy: nat, o: Point)
    ensures var e := Err(dx, dy, o);
            Err(dx, dy, Move(dx, dy, o, e)) ==
            e - (if 2 * e + dy >= 0 then dy else 0) + (if 2 * e <= dx then dx else 0)
  {
    assert (o.y + 2) * dx == (o.y + 1) * dx + dx;
    assert (o.x + 2) * dy == (o.x + 1) * dy + dy;
  }

  /** The drawing loop's three variables. */
  datatype Cursor = Cursor(x: int, y: int, err: int)

  /** The loop body: both conditional moves are judged on the old error. */
  function Advance(p: Point, q: Point, c: Cursor): Cursor {
    var dx, dy := Abs(q.x - p.x), Abs(q.y - p.y);
    var across, down := 2 * c.err + dy >= 0, 2 * c.err <= dx;
    Cursor(if across then c.x + Toward(p.x, q.x) else c.x,
           if down then c.y + Toward(p.y, q.y) else c.y,
           c.err - (if across then dy else 0) + (if down then dx else 0))
  }

  /** The loop's variables after `n` turns. */
  function Turns(p: Point, q: Point, n: nat): Cursor {
    if n == 0 then Cursor(p.x, p.y, Abs(q.x - p.x) - Abs(q.y - p.y))
    else Advance(p, q, Turns(p, q, n - 1))
  }

  /** The loop is at point `n` of the ideal path, with the matching error. */
  ghost predicate OnCourse(p: Point, q: Point, n: nat, c: Cursor) {
    var dx, dy := Abs(q.x - p.x), Abs(q.y - p.y);
    Point(c.x, c.y) == At(p, q, n) && c.err == Err(dx, dy, Offset(dx, dy, n))
  }

  lemma AdvanceStaysOnCourse(p: Point, q: Point, n: nat, c: Cursor)
    requires n < Length(p, q) && OnCourse(p, q, n, c)
    ensures OnCourse(p, q, n + 1, Advance(p, q, c))
  {
    var dx, dy := Abs(q.x - p.x), Abs(q.y - p.y);
    OffsetStep(dx, dy, n);
    ErrStep(dx, dy, Offset(dx, dy, n));
  }

  /** The loop follows the ideal path, all the way to the end. */
  lemma {:induction false} TurnsFollowPath(p: Point, q: Point, n: nat)
    requires n <= Length(p, q)
    ensures OnCourse(p, q, n, Turns(p, q, n))
  {
    if n == 0 {
      OffsetEnds(Abs(q.x - p.x), Abs(q.y - p.y));
    } else {
      TurnsFollowPath(p, q, n - 1);
      AdvanceStaysOnCourse(p, q, n - 1, Turns(p, q, n - 1));
    }
  }

  /** Every point from `p`, in drawing order. */
  function Path(p: Point, q: Point, n: nat): seq<Point> {
    seq(n, k requires 0 <= k => At(p, q, k))
  }

  /** The points the loop has drawn after `n` turns. */
  function Trail(p: Point, q: Point, n: nat): seq<Point> {
    if n == 0 then [] else Trail(p, q, n - 1) + [Point(Turns(p, q, n - 1).x, Turns(p, q, n - 1).y)]
  }

  lemma {:induction false} TrailIsPath(p: Point, q: Point, n: nat)
    requires n <= Length(p, q) + 1
    ensures Trail(p, q, n) == Path(p, q, n)
  {
    if n > 0 {
      TrailIsPath(p, q, n - 1);
      TurnsFollowPath(p, q, n - 1);
    }
  }

  /** The loop's exit test succeeds at the last turn and at no earlier one. */
  lemma ExitTest(p: Point, q: Point, n: nat)
    requires n <= Length(p, q)
    ensures var c := Turns(p, q, n); (c.x == q.x && c.y == q.y) <==> n == Length(p, q)
  {
    TurnsFollowPath(p, q, n);
    PathArrivesOnce(p, q, n);
  }

  lemma HalfUpMonotone(m: nat, n: nat, rise: nat, run: nat)
    requires 0 < run && m <= n
    ensures HalfUp(m, rise, run) <= HalfUp(n, rise, run)
  {
    assert n * rise == m * rise + (n - m) * rise;
    DivMonotone(2 * (m * rise) + run, 2 * (n * rise) + run, 2 * run);
  }

  /** Offsets stay inside the box spanned by the two ends. */
  lemma OffsetInBox(dx: nat, dy: nat, n: nat)
    requires n <= Longer(dx, dy)
    ensures 0 <= Offset(dx, dy, n).x <= dx && 0 <= Offset(dx, dy, n).y <= dy
  {
    OffsetEnds(dx, dy);
    if 0 < dx && dy <= dx {
      HalfUpMonotone(n, dx, dy, dx);
    } else if dx < dy {
      HalfUpMonotone(n, dy, dx, dy);
    }
  }

  /** The path starts and ends exactly where it was asked to. */
  lemma PathEnds(p: Point, q: Point)
    ensures At(p, q, 0) == p && At(p, q, Length(p, q)) == q
  {
    OffsetEnds(Abs(q.x - p.x), Abs(q.y - p.y));
  }

  /** The endpoint is met at the last step and at no earlier one. */
  lemma PathArrivesOnce(p: Point, q: Point, n: nat)
    requires n <= Length(p, q)
    ensures At(p, q, n) == q <==> n == Length(p, q)
  {
    PathEnds(p, q);
  }

  /** Consecutive points are one king-move apart and the longer axis always
      advances by one, so no point is visited twice. */
  lemma KingMove(p: Point, q: Point, n: nat)
    requires n < Length(p, q)
    ensures var a := At(p, q, n);
            var b := At(p, q, n + 1);
            Abs(b.x - a.x) <= 1 && Abs(b.y - a.y) <= 1 && a != b
  {
    OffsetStep(Abs(q.x - p.x), Abs(q.y - p.y), n);
  }

  lemma PointsDistinct(p: Point, q: Point, m: nat, n: nat)
    requires m < n <= Length(p, q)
    ensures At(p, q, m) != At(p, q, n)
  {}

  lemma HalfUpNear(n: nat, rise: nat, run: nat)
    requires run > 0
    ensures 2 * Abs(n * rise - HalfUp(n, rise, run) * run) <= run
  {
    HalfUpBounds(n, rise, run);
    var h := HalfUp(n, rise, run);
    assert 2 * run * h == 2 * (h * run);
  }

  /** Half-pixel accuracy: with i steps along x and j along y, the point is off
      the exact line through both ends by at most half a pixel. */
  lemma HalfPixel(dx: nat, dy: nat, n: nat)
    ensures var o := Offset(dx, dy, n);
            2 * Abs(o.x * dy - o.y * dx) <= Longer(dx, dy)
  {
    if 0 < dx && dy <= dx {
      HalfUpNear(n, dy, dx);
    } else if dx < dy {
      HalfUpNear(n, dx, dy);
    }
  }

  /** Every point of the path lies in the box spanned by its ends. */
  lemma PathInBox(p: Point, q: Point, n: nat)
    requires n <= Length(p, q)
    ensures var a := At(p, q, n);
            (p.x <= a.x <= q.x || q.x <= a.x <= p.x) && (p.y <= a.y <= q.y || q.y <= a.y <= p.y)
  {
    OffsetInBox(Abs(q.x - p.x), Abs(q.y - p.y), n);
  }
}
