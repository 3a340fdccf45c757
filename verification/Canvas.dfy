/** Scalars shared by the raster and its file format. */
module Bytes {
  newtype byte = n: int | 0 <= n < 0x100

  datatype Rgb = Rgb(r: byte, g: byte, b: byte)

  const WHITE := Rgb(255, 255, 255)
}

/** What the drawing calls mean, as a painter would put it: each call covers a
    set of pixels, and the last call to cover a pixel decides its colour. */
module Painter {
  import opened Bytes
  import opened Rounding
  import LinePath

  /** One drawing call, with the arguments as the caller gave them. */
  datatype Op =
    | Px(x: real, y: real)
    | HLine(x0: real, x1: real, y: real, t: int)
    | VLine(x: real, y0: real, y1: real, t: int)
    | Rect(x: real, y: real, w: real, h: real, t: int)
    | Fill(x: real, y: real, w: real, h: real)
    | Line(x0: real, y0: real, x1: real, y1: real)

  datatype Stroke = Stroke(op: Op, color: Rgb)

  /** `n` is reached by `range(int(min(a, b)), int(max(a, b)) + 1)`. */
  predicate Between(a: real, b: real, n: int) {
    Trunc(Min(a, b)) <= n <= Trunc(Max(a, b))
  }

  /** The row `k` below `y`. */
  function Row(y: real, k: int): int {
    Trunc(y + k as real)
  }

  /** Row `n` is one of the `t` rows starting at `y`. */
  predicate InBand(y: real, t: int, n: int) {
    exists k: int :: 0 <= k < t && n == Row(y, k)
  }

  /** Row `n` is in the band at either end of the extent. */
  predicate InEndBands(low: real, size: real, t: int, n: int) {
    InBand(low, t, n) || InBand(low + size - 1.0, t, n)
  }

  function Pixel(x: real, y: real): LinePath.Point {
    LinePath.Point(Trunc(x), Trunc(y))
  }

  /** The line's ideal pixels among its first `n` points: each point of the
      digital path and its right-hand neighbour. */
  predicate OnLine(p: LinePath.Point, q: LinePath.Point, n: int, x: int, y: int) {
    exists k: nat :: k < n &&
      (LinePath.At(p, q, k) == LinePath.Point(x, y) || LinePath.At(p, q, k) == LinePath.Point(x - 1, y))
  }

  predicate Covers(op: Op, x: int, y: int) {
    match op
    case Px(px, py) => Pixel(px, py) == LinePath.Point(x, y)
    case HLine(x0, x1, y0, t) => Between(x0, x1, x) && InBand(y0, t, y)
    case VLine(x0, y0, y1, t) => Between(y0, y1, y) && InBand(x0, t, x)
    case Rect(x0, y0, w, h, t) =>
      (Between(x0, x0 + w, x) && InEndBands(y0, h, t, y)) || (Between(y0, y0 + h, y) && InEndBands(x0, w, t, x))
    case Fill(x0, y0, w, h) => Between(x0, x0 + w, x) && Trunc(y0) <= y < Trunc(y0 + h)
    case Line(x0, y0, x1, y1) =>
      var p, q := Pixel(x0, y0), Pixel(x1, y1);
      OnLine(p, q, LinePath.Length(p, q) + 1, x, y)
  }

  /** At whole coordinates a span is its ends and all between, a band its `t` rows. */
  lemma CoverageOnGrid(a: int, b: int, t: int, n: int)
    ensures Between(a as real, b as real, n) <==> (a <= n <= b || b <= n <= a)
    ensures InBand(a as real, t, n) <==> a <= n < a + t
  {
    if InBand(a as real, t, n) {
      var k: int :| 0 <= k < t && n == Row(a as real, k);
      RowOnGrid(a, k);
    }
    RowOnGrid(a, n - a);
  }

  lemma RowOnGrid(a: int, k: int)
    ensures Row(a as real, k) == a + k
  {
    assert a as real + k as real == (a + k) as real;
  }

  /** The painting, one pixel at a time. */
  function Paint(strokes: seq<Stroke>, background: Rgb, x: int, y: int): Rgb {
    if strokes == [] then background
    else
      var last := strokes[|strokes| - 1];
      if Covers(last.op, x, y) then last.color
      else Paint(strokes[..|strokes| - 1], background, x, y)
  }

  /** The colour of a pixel is that of stroke `k` when `k` covers it and no later one does. */
  lemma {:induction false} LastStrokeWins(strokes: seq<Stroke>, background: Rgb, x: int, y: int, k: nat)
    requires k < |strokes| && Covers(strokes[k].op, x, y)
    requires forall j :: k < j < |strokes| ==> !Covers(strokes[j].op, x, y)
    ensures Paint(strokes, background, x, y) == strokes[k].color
  {
    if k < |strokes| - 1 {
      LastStrokeWins(strokes[..|strokes| - 1], background, x, y, k);
    }
  }

  /** A pixel no stroke covers keeps the background. */
  lemma {:induction false} UntouchedIsBackground(strokes: seq<Stroke>, background: Rgb, x: int, y: int)
    requires forall j :: 0 <= j < |strokes| ==> !Covers(strokes[j].op, x, y)
    ensures Paint(strokes, background, x, y) == background
  {
    if strokes != [] {
      UntouchedIsBackground(strokes[..|strokes| - 1], background, x, y);
    }
  }
}

/** The pixel buffer: rows of RGB triples in one flat array, drawn in place. */
module Raster {
  import opened Bytes
  import opened Rounding
  import opened Painter
  import LinePath

  /** Where pixel (x, y) starts in the buffer. */
  function Start(w: int, x: int, y: int): int {
    (y * w + x) * 3
  }

  lemma StartInBounds(w: int, h: int, x: int, y: int)
    requires 0 <= x < w && 0 <= y < h
    ensures 0 <= Start(w, x, y) && Start(w, x, y) + 3 <= 3 * (w * h)
  {
    var rest := (h - 1 - y) * w;
    assert 0 <= rest;
    assert 0 <= y * w;
    assert rest == h * w - w - y * w;
  }

  lemma SmallMultiple(w: int, k: int)
    requires -w < k * w < w
    ensures k == 0
  {}

  /** Different pixels of one canvas never share a byte. */
  lemma StartInjective(w: int, x0: int, y0: int, x1: int, y1: int)
    requires 0 <= x0 < w && 0 <= x1 < w
    requires Start(w, x0, y0) == Start(w, x1, y1)
    ensures x0 == x1 && y0 == y1
  {
    assert (y0 - y1) * w == y0 * w - y1 * w;
    SmallMultiple(w, y0 - y1);
  }

  lemma BandGrows(y: real, t: int, n: int)
    requires 0 <= t
    ensures InBand(y, t + 1, n) <==> InBand(y, t, n) || n == Row(y, t)
  {}

  /** The pixels of the first `n` turns of the line loop. */
  predicate Dotted(p: LinePath.Point, q: LinePath.Point, n: int, x: int, y: int) {
    exists k: nat :: k < n && IsDot(LinePath.Turns(p, q, k), x, y)
  }

  predicate IsDot(c: LinePath.Cursor, x: int, y: int) {
    c.y == y && (c.x == x || c.x == x - 1)
  }

  lemma DottedGrows(p: LinePath.Point, q: LinePath.Point, n: nat)
    ensures forall x, y :: Dotted(p, q, n + 1, x, y) <==>
              Dotted(p, q, n, x, y) || IsDot(LinePath.Turns(p, q, n), x, y)
  {}

  lemma DottedIsOnLine(p: LinePath.Point, q: LinePath.Point, n: nat)
    requires n <= LinePath.Length(p, q) + 1
    ensures forall x, y :: Dotted(p, q, n, x, y) <==> OnLine(p, q, n, x, y)
  {
    forall k: nat | k < n
      ensures LinePath.At(p, q, k) == LinePath.Point(LinePath.Turns(p, q, k).x, LinePath.Turns(p, q, k).y)
    {
      LinePath.TurnsFollowPath(p, q, k);
    }
  }

  class Canvas {
    const w: int
    const h: int
    const buf: array<byte>

    ghost predicate Valid() {
      buf.Length == if w * h < 0 then 0 else 3 * (w * h)
    }

    predicate Inside(x: int, y: int) {
      0 <= x < w && 0 <= y < h
    }

    /** The colour shown at a pixel of the canvas. */
    ghost function At(x: int, y: int): Rgb
      requires Valid() && Inside(x, y)
      reads buf
    {
      StartInBounds(w, h, x, y);
      var i := Start(w, x, y);
      Rgb(buf[i], buf[i + 1], buf[i + 2])
    }

    constructor (w: int, h: int, bg: Rgb)
      ensures Valid() && fresh(buf) && this.w == w && this.h == h
      ensures forall x, y | Inside(x, y) :: At(x, y) == bg
    {
      var size := if w * h < 0 then 0 else 3 * (w * h);
      this.w, this.h := w, h;
      buf := new byte[size](i => if i % 3 == 0 then bg.r else if i % 3 == 1 then bg.g else bg.b);
      new;
      forall x, y | Inside(x, y) ensures At(x, y) == bg {
        StartInBounds(w, h, x, y);
      }
    }

    /** Sets one pixel; a pixel outside the canvas is clipped silently. */
    method Px(x: real, y: real, c: Rgb)
      requires Valid()
      modifies buf
      ensures forall X, Y | Inside(X, Y) ::
                At(X, Y) == if Pixel(x, y) == LinePath.Point(X, Y) then c else old(At(X, Y))
    {
      var px, py := Trunc(x), Trunc(y);
      if 0 <= px < w && 0 <= py < h {
        StartInBounds(w, h, px, py);
        var i := Start(w, px, py);
        buf[i], buf[i + 1], buf[i + 2] := c.r, c.g, c.b;
        forall X, Y | Inside(X, Y)
          ensures At(X, Y) == if Pixel(x, y) == LinePath.Point(X, Y) then c else old(At(X, Y))
        {
          StartInBounds(w, h, X, Y);
          if Start(w, X, Y) == i {
            StartInjective(w, X, Y, px, py);
          }
        }
      }
    }

    method HLine(x0: real, x1: real, y: real, c: Rgb, t: int)
      requires Valid()
      modifies buf
      ensures forall X, Y | Inside(X, Y) ::
                At(X, Y) == if Between(x0, x1, X) && InBand(y, t, Y) then c else old(At(X, Y))
    {
      var first, last := Trunc(Min(x0, x1)), Trunc(Max(x0, x1));
      var k := 0;
      while k < t
        invariant 0 <= k && (k <= t || k == 0)
        invariant forall X, Y | Inside(X, Y) ::
                    At(X, Y) == if Between(x0, x1, X) && InBand(y, k, Y) then c else old(At(X, Y))
      {
        for x := first to last + 1
          invariant forall X, Y | Inside(X, Y) ::
                      At(X, Y) == if (Between(x0, x1, X) && InBand(y, k, Y))
                                     || (first <= X < x && Y == Row(y, k)) then c else old(At(X, Y))
        {
          Px(x as real, y + k as real, c);
        }
        forall Y ensures InBand(y, k + 1, Y) <==> InBand(y, k, Y) || Y == Row(y, k) {
          BandGrows(y, k, Y);
        }
        k := k + 1;
      }
    }

    method VLine(x: real, y0: real, y1: real, c: Rgb, t: int)
      requires Valid()
      modifies buf
      ensures forall X, Y | Inside(X, Y) ::
                At(X, Y) == if Between(y0, y1, Y) && InBand(x, t, X) then c else old(At(X, Y))
    {
      var first, last := Trunc(Min(y0, y1)), Trunc(Max(y0, y1));
      var k := 0;
      while k < t
        invariant 0 <= k && (k <= t || k == 0)
        invariant forall X, Y | Inside(X, Y) ::
                    At(X, Y) == if Between(y0, y1, Y) && InBand(x, k, X) then c else old(At(X, Y))
      {
        for y := first to last + 1
          invariant forall X, Y | Inside(X, Y) ::
                      At(X, Y) == if (Between(y0, y1, Y) && InBand(x, k, X))
                                     || (first <= Y < y && X == Row(x, k)) then c else old(At(X, Y))
        {
          Px(x + k as real, y as real, c);
        }
        forall X ensures InBand(x, k + 1, X) <==> InBand(x, k, X) || X == Row(x, k) {
          BandGrows(x, k, X);
        }
        k := k + 1;
      }
    }

    method Rect(x: real, y: real, rw: real, rh: real, c: Rgb, t: int)
      requires Valid()
      modifies buf
      ensures forall X, Y | Inside(X, Y) ::
                At(X, Y) == if Covers(Op.Rect(x, y, rw, rh, t), X, Y) then c else old(At(X, Y))
    {
      HLine(x, x + rw, y, c, t);
      HLine(x, x + rw, y + rh - 1.0, c, t);
      VLine(x, y, y + rh, c, t);
      VLine(x + rw - 1.0, y, y + rh, c, t);
    }

    method Fill(x: real, y: real, rw: real, rh: real, c: Rgb)
      requires Valid()
      modifies buf
      ensures forall X, Y | Inside(X, Y) ::
                At(X, Y) == if Covers(Op.Fill(x, y, rw, rh), X, Y) then c else old(At(X, Y))
    {
      var row, end := Trunc(y), Trunc(y + rh);
      while row < end
        invariant Trunc(y) <= row && (row <= end || row == Trunc(y))
        invariant forall X, Y | Inside(X, Y) ::
                    At(X, Y) == if Between(x, x + rw, X) && Trunc(y) <= Y < row then c else old(At(X, Y))
      {
        var yy := row as real;
        HLine(x, x + rw, yy, c, 1);
        forall Y ensures InBand(yy, 1, Y) <==> Y == row {
          BandGrows(yy, 0, Y);
        }
        row := row + 1;
      }
    }

    /** One point of a line: the pixel and its right-hand neighbour. */
    method Dot(x: int, y: int, c: Rgb)
      requires Valid()
      modifies buf
      ensures forall X, Y | Inside(X, Y) ::
                At(X, Y) == if y == Y && (x == X || x == X - 1) then c else old(At(X, Y))
    {
      Px(x as real, y as real, c);
      Px((x + 1) as real, y as real, c);
    }

    /** The integer line loop. It stops at the endpoint; `visited` lists the
        points in the order they are drawn. */
    method Trace(p: LinePath.Point, q: LinePath.Point, c: Rgb) returns (ghost visited: seq<LinePath.Point>)
      requires Valid()
      modifies buf
      ensures visited == LinePath.Trail(p, q, LinePath.Length(p, q) + 1)
      ensures forall X, Y | Inside(X, Y) ::
                At(X, Y) == if Dotted(p, q, LinePath.Length(p, q) + 1, X, Y) then c else old(At(X, Y))
    {
      var x0, y0, x1, y1 := p.x, p.y, q.x, q.y;
      var dx: int, dy: int := LinePath.Abs(x1 - x0), -(LinePath.Abs(y1 - y0) as int);
      var sx, sy := LinePath.Toward(x0, x1), LinePath.Toward(y0, y1);
      var err := dx + dy;
      ghost var n, length := 0, LinePath.Length(p, q);
      visited := [];
      while true
        invariant 0 <= n <= length && LinePath.Cursor(x0, y0, err) == LinePath.Turns(p, q, n)
        invariant visited == LinePath.Trail(p, q, n)
        invariant forall X, Y | Inside(X, Y) ::
                    At(X, Y) == if Dotted(p, q, n, X, Y) then c else old(At(X, Y))
        decreases length - n
      {
        Dot(x0, y0, c);
        visited := visited + [LinePath.Point(x0, y0)];
        DottedGrows(p, q, n);
        LinePath.ExitTest(p, q, n);
        if x0 == x1 && y0 == y1 {
          break;
        }
        var e2 := 2 * err;
        if e2 >= dy {
          err := err + dy;
          x0 := x0 + sx;
        }
        if e2 <= dx {
          err := err + dx;
          y0 := y0 + sy;
        }
        n := n + 1;
      }
    }

    /** A line between two points given as numbers: its pixels are exactly those
        of the ideal path. */
    method Line(xa: real, ya: real, xb: real, yb: real, c: Rgb) returns (ghost visited: seq<LinePath.Point>)
      requires Valid()
      modifies buf
      ensures var p, q := Pixel(xa, ya), Pixel(xb, yb);
              visited == LinePath.Path(p, q, LinePath.Length(p, q) + 1)
      ensures forall X, Y | Inside(X, Y) ::
                At(X, Y) == if Covers(Op.Line(xa, ya, xb, yb), X, Y) then c else old(At(X, Y))
    {
      var p, q := Pixel(xa, ya), Pixel(xb, yb);
      visited := Trace(p, q, c);
      LinePath.TrailIsPath(p, q, LinePath.Length(p, q) + 1);
      DottedIsOnLine(p, q, LinePath.Length(p, q) + 1);
    }

    method Draw(s: Stroke)
      requires Valid()
      modifies buf
      ensures forall X, Y | Inside(X, Y) ::
                At(X, Y) == if Covers(s.op, X, Y) then s.color else old(At(X, Y))
    {
      match s.op {
        case Px(x, y) => Px(x, y, s.color);
        case HLine(x0, x1, y, t) => HLine(x0, x1, y, s.color, t);
        case VLine(x, y0, y1, t) => VLine(x, y0, y1, s.color, t);
        case Rect(x, y, rw, rh, t) => Rect(x, y, rw, rh, s.color, t);
        case Fill(x, y, rw, rh) => Fill(x, y, rw, rh, s.color);
        case Line(x0, y0, x1, y1) => ghost var _ := Line(x0, y0, x1, y1, s.color);
      }
    }

    /** Any sequence of drawing calls shows the painter's picture. */
    method DrawAll(strokes: seq<Stroke>, ghost background: Rgb)
      requires Valid()
      requires forall X, Y | Inside(X, Y) :: At(X, Y) == background
      modifies buf
      ensures forall X, Y | Inside(X, Y) :: At(X, Y) == Paint(strokes, background, X, Y)
    {
      for k := 0 to |strokes|
        invariant forall X, Y | Inside(X, Y) :: At(X, Y) == Paint(strokes[..k], background, X, Y)
      {
        Draw(strokes[k]);
        assert strokes[..k + 1][..k] == strokes[..k];
      }
      assert strokes[..|strokes|] == strokes;
    }
  }
}
