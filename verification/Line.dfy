// graphics_draw_line: integer line drawing, against the line rounded to the nearest pixel.

module Line {
  import opened Bits

  // ---- the line ----

  // b lies within half a pixel of k * minor / major, the upper end excluded.
  predicate Near(k: int, b: int, major: int, minor: int) {
    -major <= 2 * (b * major - k * minor) < major
  }

  // The minor-axis offset of pixel k.
  ghost function Nearest(k: nat, major: int, minor: int): nat {
    if exists b: nat :: Near(k, b, major, minor) then var b: nat :| Near(k, b, major, minor); b else 0
  }

  function Distance(a: int, b: int): (d: int)
    ensures d >= 0
  {
    if a <= b then b - a else a - b
  }

  // From a towards b by n, for n up to their distance.
  function Towards(a: nat, b: nat, n: nat): nat
    requires n <= Distance(a, b)
  {
    if a <= b then a + n else a - n
  }

  datatype Point = Point(x: nat, y: nat)

  function Length(p: Point, q: Point): (n: int)
    ensures n >= 0
  {
    if Distance(p.x, q.x) >= Distance(p.y, q.y) then Distance(p.x, q.x) else Distance(p.y, q.y)
  }

  // Steps along x and along y after k pixels.
  ghost function StepsX(p: Point, q: Point, k: nat): nat {
    var (dx, dy) := (Distance(p.x, q.x), Distance(p.y, q.y));
    if dx >= dy then k else Nearest(k, dy, dx)
  }

  ghost function StepsY(p: Point, q: Point, k: nat): nat {
    var (dx, dy) := (Distance(p.x, q.x), Distance(p.y, q.y));
    if dx >= dy then Nearest(k, dx, dy) else k
  }

  // Pixel k of the line from p to q.
  ghost function PixelOf(p: Point, q: Point, k: nat): Point
    requires k <= Length(p, q)
  {
    StepsInRange(p, q, k);
    Point(Towards(p.x, q.x, StepsX(p, q, k)), Towards(p.y, q.y, StepsY(p, q, k)))
  }

  ghost predicate OnLine(p: Point, q: Point, r: Point) {
    exists k: nat :: k <= Length(p, q) && PixelOf(p, q, k) == r
  }

  lemma NearestIsNear(k: nat, major: int, minor: int)
    requires 0 < major && 0 <= minor
    ensures Near(k, Nearest(k, major, minor), major, minor)
  {
    var n := 2 * (k * minor) + major - 1;
    var b := n / (2 * major);
    assert k * minor >= 0;
    assert n == b * (2 * major) + n % (2 * major);
    assert b * (2 * major) == 2 * (b * major);
    assert Near(k, b, major, minor);
  }

  // A larger factor by one is a larger product by m.
  lemma Mono(a: int, b: int, m: int)
    requires 0 <= m
    ensures a < b ==> a * m + m <= b * m
    ensures a <= b ==> a * m <= b * m
  {
    var d := b - a;
    assert b * m == a * m + d * m;
    if d >= 1 { Positive(d - 1, m); assert d * m == (d - 1) * m + m; }
  }

  lemma Positive(x: int, y: int)
    requires 0 <= x && 0 <= y
    ensures 0 <= x * y
  {
  }

  lemma NearIsUnique(k: int, b: int, c: int, major: int, minor: int)
    requires 0 <= major && Near(k, b, major, minor) && Near(k, c, major, minor)
    ensures b == c
  {
    Mono(b, c, major);
    Mono(c, b, major);
  }

  lemma NearBounds(k: int, b: int, major: int, minor: int)
    requires 0 <= minor && 0 <= k <= major && Near(k, b, major, minor)
    ensures 0 <= b <= minor && (k == major ==> b == minor)
  {
    Mono(b, 0, major);
    Mono(0, k, minor);
    Mono(minor, b, major);
    Mono(k, major, minor);
    Mono(b, minor, major);
  }

  lemma StepsInRange(p: Point, q: Point, k: nat)
    requires k <= Length(p, q)
    ensures StepsX(p, q, k) <= Distance(p.x, q.x) && StepsY(p, q, k) <= Distance(p.y, q.y)
    ensures k == Length(p, q) ==> StepsX(p, q, k) == Distance(p.x, q.x) && StepsY(p, q, k) == Distance(p.y, q.y)
  {
    var (dx, dy) := (Distance(p.x, q.x), Distance(p.y, q.y));
    var (major, minor) := if dx >= dy then (dx, dy) else (dy, dx);
    if major > 0 {
      NearestIsNear(k, major, minor);
      NearBounds(k, Nearest(k, major, minor), major, minor);
    }
  }

  /** Every pixel is within half a pixel of the ideal line on the minor axis and inside the box of
      the end points; the first and the last pixel are the end points. */
  lemma PixelsFollowLine(p: Point, q: Point, k: nat)
    requires k <= Length(p, q)
    ensures var (dx, dy) := (Distance(p.x, q.x), Distance(p.y, q.y));
      var (a, b) := (StepsX(p, q, k), StepsY(p, q, k));
      && -Length(p, q) <= 2 * (b * dx - a * dy) <= Length(p, q)
      && a <= dx && b <= dy && (a == k || b == k)
    ensures PixelOf(p, q, 0) == p && PixelOf(p, q, Length(p, q)) == q
  {
    var (dx, dy) := (Distance(p.x, q.x), Distance(p.y, q.y));
    var (major, minor) := if dx >= dy then (dx, dy) else (dy, dx);
    StepsInRange(p, q, k);
    StepsInRange(p, q, Length(p, q));
    if major > 0 {
      NearestIsNear(k, major, minor);
      assert Near(0, 0, major, minor);
      NearestIsNear(0, major, minor);
      NearIsUnique(0, 0, Nearest(0, major, minor), major, minor);
    }
  }

  // ---- the drawing loop ----

  // The two tests of the loop, in terms of how far along each axis it is: the major axis always
  // advances, the minor one when that brings it nearer.
  lemma NextStep(k: int, b: int, major: int, minor: int)
    requires 0 <= minor <= major && 0 < major && Near(k, b, major, minor)
    ensures var d := b * major - k * minor;
      && 2 * d > minor - 2 * major
      && Near(k + 1, if 2 * d < 2 * minor - major then b + 1 else b, major, minor)
  {
    assert (k + 1) * minor == k * minor + minor;
    assert (b + 1) * major == b * major + major;
    if minor == major {
      assert b * major - k * minor == (b - k) * major;
      Mono(b - k, 0, major);
    }
  }

  // The value of err when k pixels have been left behind.
  ghost function ErrAt(p: Point, q: Point, k: nat): int {
    (StepsY(p, q, k) + 1) * Distance(p.x, q.x) - (StepsX(p, q, k) + 1) * Distance(p.y, q.y)
  }

  // The pixel at r in the new colour, if r is on the screen.
  ghost function Put(pic: imap<Point, nat>, r: Point, color: nat): imap<Point, nat> {
    if r in pic then pic[r := color] else pic
  }

  ghost function WithLine(pic: imap<Point, nat>, p: Point, q: Point, color: nat): imap<Point, nat> {
    imap r | r in pic :: if OnLine(p, q, r) then color else pic[r]
  }

  class Screen {
    const width: nat
    const height: nat
    const backbuffer: array<nat>

    ghost predicate Valid() { width * height <= backbuffer.Length }

    predicate Inside(x: nat, y: nat) { x < width && y < height }

    function Pixel(x: nat, y: nat): nat
      requires Valid() && Inside(x, y)
      reads backbuffer
    {
      InBuffer(x, y);
      backbuffer[y * width + x]
    }

    lemma InBuffer(x: nat, y: nat)
      requires Inside(x, y)
      ensures y * width + x < width * height
    {
      assert (y + 1) * width <= height * width;
      assert (y + 1) * width == y * width + width;
    }

    lemma Apart(x: nat, y: nat, u: nat, v: nat)
      requires Inside(x, y) && Inside(u, v)
      ensures y * width + x == v * width + u ==> x == u && y == v
    {
      Mono(y, v, width);
      Mono(v, y, width);
    }

    // What the screen shows, by position.
    ghost function Picture(): imap<Point, nat>
      requires Valid()
      reads backbuffer
    {
      imap r: Point | Inside(r.x, r.y) :: Pixel(r.x, r.y)
    }

    method SetPixel(x: nat, y: nat, color: nat)
      requires Valid()
      modifies backbuffer
      ensures Picture() == Put(old(Picture()), Point(x, y), color)
    {
      if width == 0 || height == 0 { return; }
      if x >= width || y >= height { return; }
      InBuffer(x, y);
      backbuffer[y * width + x] := color;
      forall r: Point | Inside(r.x, r.y)
        ensures Pixel(r.x, r.y) == if r == Point(x, y) then color else old(Pixel(r.x, r.y))
      {
        InBuffer(r.x, r.y);
        Apart(x, y, r.x, r.y);
      }
    }

    /** The screen shows exactly the pixels of the rounded line in the new colour, from (x0, y0) to
        (x1, y1). */
    method DrawLine(x0: nat, y0: nat, x1: nat, y1: nat, color: nat)
      requires Valid() && x0 < WORD32 && y0 < WORD32 && x1 < WORD32 && y1 < WORD32
      requires FitsInt(Point(x0, y0), Point(x1, y1))
      modifies backbuffer
      ensures Picture() == WithLine(old(Picture()), Point(x0, y0), Point(x1, y1), color)
    {
      ghost var p, q := Point(x0, y0), Point(x1, y1);
      var x: int, y: int := x0, y0;
      var dx: int := if x1 > x then x1 - x else x - x1;
      var dy: int := if y1 > y then y1 - y else y - y1;
      var sx, sy := if x1 > x then 1 else -1, if y1 > y then 1 else -1;
      var err := dx - dy;
      ghost var path := Pens(p, q, Stride(dx, dy, sx, sy), old(Picture()), color);
      Walk(x, y, x1, y1, dx, dy, sx, sy, err, color, path);
    }

    // The loop, along the pens of the line.
    method Walk(x0: int, y0: int, x1: nat, y1: nat, dx: int, dy: int, sx: int, sy: int, err0: int, color: nat,
                ghost path: seq<Pen>)
      requires Valid() && OnGrid(path) && |path| > 0 && path[0] == Pen(x0, y0, err0)
      requires forall k :: 0 <= k < |path| - 1 ==> Linked(path, k, Stride(dx, dy, sx, sy))
      requires forall k :: 0 <= k < |path| ==> (AtPoint(path[k], Point(x1, y1)) <==> k == |path| - 1)
      modifies backbuffer
      ensures Picture() == Plotted(old(Picture()), path, |path|, color)
    {
      var x, y, err := x0, y0, err0;
      ghost var k := 0;
      while true
        invariant k < |path| && path[k] == Pen(x, y, err)
        invariant Picture() == Plotted(old(Picture()), path, k, color)
        decreases |path| - k
      {
        SetPixel(x, y, color);
        k := k + 1;
        assert Picture() == Plotted(old(Picture()), path, k, color);
        if x == x1 && y == y1 { return; }
        assert Linked(path, k - 1, Stride(dx, dy, sx, sy));
        var e2 := 2 * err;
        assert IsInt(e2);
        if e2 > -dy {
          assert IsInt(err - dy);
          err := err - dy;
          x := x + sx;
        }
        if e2 < dx {
          err := err + dx;
          y := y + sy;
        }
      }
    }
  }

  // The variables x0, y0 and err at the top of the loop.
  datatype Pen = Pen(x: int, y: int, err: int)

  // What the loop leaves alone.
  datatype Stride = Stride(dx: int, dy: int, sx: int, sy: int)

  function StrideOf(p: Point, q: Point): Stride {
    Stride(Distance(p.x, q.x), Distance(p.y, q.y), if q.x > p.x then 1 else -1, if q.y > p.y then 1 else -1)
  }

  // One turn of the loop.
  function Turn(a: Pen, w: Stride): Pen {
    Pen(if 2 * a.err > -w.dy then a.x + w.sx else a.x, if 2 * a.err < w.dx then a.y + w.sy else a.y,
      a.err - (if 2 * a.err > -w.dy then w.dy else 0) + (if 2 * a.err < w.dx then w.dx else 0))
  }

  // 2 * err is at most three times the longer side.
  predicate Small(err: int, w: Stride) {
    || -3 * w.dx <= 2 * err <= 3 * w.dx
    || -3 * w.dy <= 2 * err <= 3 * w.dy
  }

  predicate IsInt(n: int) { -0x8000_0000 <= n < 0x8000_0000 }

  // What a turn of the loop computes on the way fits an int.
  predicate FitsTurn(err: int, w: Stride) {
    IsInt(2 * err) && (2 * err > -w.dy ==> IsInt(err - w.dy))
  }

  /** Every value the line's loop computes fits an int. */
  ghost predicate FitsInt(p: Point, q: Point) {
    Length(p, q) < 0x8000_0000 && forall k: nat | k < Length(p, q) :: FitsTurn(ErrAt(p, q, k), StrideOf(p, q))
  }

  lemma TurnFits(p: Point, q: Point, k: nat)
    requires k < Length(p, q) && 3 * Length(p, q) < 0x8000_0000
    ensures FitsTurn(ErrAt(p, q, k), StrideOf(p, q))
  {
    OneMore(p, q, k);
  }

  // On a horizontal or vertical line the error term never moves.
  lemma FlatErr(p: Point, q: Point, k: nat)
    requires k < Length(p, q) && p.y == q.y
    ensures ErrAt(p, q, k) == Distance(p.x, q.x)
  {
    OffsetIsZero(k, Length(p, q));
  }

  lemma SteepErr(p: Point, q: Point, k: nat)
    requires k < Length(p, q) && p.x == q.x
    ensures ErrAt(p, q, k) == -Distance(p.y, q.y)
  {
    OffsetIsZero(k, Length(p, q));
  }

  lemma OffsetIsZero(k: nat, d: nat)
    requires k <= d && d > 0
    ensures Nearest(k, d, 0) == 0
  {
    assert Near(k, 0, d, 0);
    NearestIsNear(k, d, 0);
    NearIsUnique(k, 0, Nearest(k, d, 0), d, 0);
  }

  /** That holds when three times the longer side does; for a horizontal or vertical line, exactly
      when twice the side does. */
  lemma FitsWhen(p: Point, q: Point)
    ensures 3 * Length(p, q) < 0x8000_0000 ==> FitsInt(p, q)
    ensures p.y == q.y ==> (FitsInt(p, q) <==> 2 * Distance(p.x, q.x) < 0x8000_0000)
    ensures p.x == q.x ==> (FitsInt(p, q) <==> 2 * Distance(p.y, q.y) <= 0x8000_0000)
  {
    forall k: nat | k < Length(p, q)
      ensures 3 * Length(p, q) < 0x8000_0000 ==> FitsTurn(ErrAt(p, q, k), StrideOf(p, q))
      ensures p.y == q.y ==> ErrAt(p, q, k) == Distance(p.x, q.x)
      ensures p.x == q.x ==> ErrAt(p, q, k) == -Distance(p.y, q.y)
    {
      if 3 * Length(p, q) < 0x8000_0000 { TurnFits(p, q, k); }
      if p.y == q.y { FlatErr(p, q, k); }
      if p.x == q.x { SteepErr(p, q, k); }
    }
    assert Length(p, q) > 0 ==> 0 < Length(p, q) && (FitsInt(p, q) ==> FitsTurn(ErrAt(p, q, 0), StrideOf(p, q)));
  }

  // Pen k + 1 is one turn on from pen k, and all values have stayed within an int.
  predicate Linked(path: seq<Pen>, k: nat, w: Stride)
    requires k + 1 < |path|
  {
    path[k + 1] == Turn(path[k], w) && FitsTurn(path[k].err, w)
  }

  // One of the first k pens is at r.
  predicate Drawn(path: seq<Pen>, k: nat, r: Point)
    requires k <= |path|
  {
    exists j :: 0 <= j < k && AtPoint(path[j], r)
  }

  predicate AtPoint(pen: Pen, r: Point) { pen.x == r.x && pen.y == r.y }

  // The picture after the first k pens.
  ghost function Plotted(pic: imap<Point, nat>, path: seq<Pen>, k: nat, color: nat): imap<Point, nat>
    requires k <= |path| && OnGrid(path)
  {
    if k == 0 then pic else Put(Plotted(pic, path, k - 1, color), Point(path[k - 1].x, path[k - 1].y), color)
  }

  ghost predicate OnGrid(path: seq<Pen>) {
    forall j :: 0 <= j < |path| ==> 0 <= path[j].x && 0 <= path[j].y
  }

  lemma {:induction false} PlottedShows(pic: imap<Point, nat>, path: seq<Pen>, k: nat, color: nat)
    requires k <= |path| && OnGrid(path)
    ensures Plotted(pic, path, k, color) == imap r | r in pic :: if Drawn(path, k, r) then color else pic[r]
  {
    if k > 0 { PlottedShows(pic, path, k - 1, color); }
  }

  lemma PlottedIsLine(pic: imap<Point, nat>, p: Point, q: Point, path: seq<Pen>, color: nat)
    requires OnGrid(path) && forall r :: Drawn(path, |path|, r) <==> OnLine(p, q, r)
    ensures Plotted(pic, path, |path|, color) == WithLine(pic, p, q, color)
  {
    PlottedShows(pic, path, |path|, color);
  }

  ghost function PenAt(p: Point, q: Point, k: nat): Pen
    requires k <= Length(p, q)
  {
    Pen(PixelOf(p, q, k).x, PixelOf(p, q, k).y, ErrAt(p, q, k))
  }

  /** The loop's pens are the pixels of the line one by one, and only the last is at q. */
  lemma Pens(p: Point, q: Point, w: Stride, pic: imap<Point, nat>, color: nat) returns (path: seq<Pen>)
    requires w == StrideOf(p, q) && FitsInt(p, q)
    ensures OnGrid(path) && |path| == Length(p, q) + 1
    ensures path[0] == Pen(p.x, p.y, w.dx - w.dy)
    ensures forall k :: 0 <= k < |path| - 1 ==> Linked(path, k, w)
    ensures forall k :: 0 <= k < |path| ==> (AtPoint(path[k], q) <==> k == |path| - 1)
    ensures Plotted(pic, path, |path|, color) == WithLine(pic, p, q, color)
  {
    path := seq(Length(p, q) + 1, k requires 0 <= k <= Length(p, q) => PenAt(p, q, k));
    FirstPen(p, q);
    PensTurn(p, q, path);
    PensEnd(p, q, path);
    PensAreLine(p, q, path);
    PlottedIsLine(pic, p, q, path, color);
  }

  lemma PensTurn(p: Point, q: Point, path: seq<Pen>)
    requires |path| == Length(p, q) + 1 && FitsInt(p, q)
    requires forall k :: 0 <= k < |path| ==> path[k] == PenAt(p, q, k)
    ensures forall k :: 0 <= k < |path| - 1 ==> Linked(path, k, StrideOf(p, q))
  {
    forall k | 0 <= k < |path| - 1 ensures Linked(path, k, StrideOf(p, q)) { OneMore(p, q, k); }
  }

  lemma PensEnd(p: Point, q: Point, path: seq<Pen>)
    requires |path| == Length(p, q) + 1
    requires forall k :: 0 <= k < |path| ==> path[k] == PenAt(p, q, k)
    ensures forall k :: 0 <= k < |path| ==> (AtPoint(path[k], q) <==> k == |path| - 1)
  {
    forall k | 0 <= k < |path| ensures AtPoint(path[k], q) <==> k == |path| - 1 { EndsAt(p, q, k); }
  }

  lemma FirstPen(p: Point, q: Point)
    ensures PenAt(p, q, 0) == Pen(p.x, p.y, Distance(p.x, q.x) - Distance(p.y, q.y))
  {
    PixelsFollowLine(p, q, 0);
    StepsInRange(p, q, 0);
  }

  lemma EndsAt(p: Point, q: Point, k: nat)
    requires k <= Length(p, q)
    ensures AtPoint(PenAt(p, q, k), q) <==> k == Length(p, q)
  {
    StepsInRange(p, q, k);
  }

  lemma PensAreLine(p: Point, q: Point, path: seq<Pen>)
    requires |path| == Length(p, q) + 1
    requires forall k :: 0 <= k < |path| ==> path[k] == PenAt(p, q, k)
    ensures forall r :: Drawn(path, |path|, r) <==> OnLine(p, q, r)
  {
    forall r ensures Drawn(path, |path|, r) <==> OnLine(p, q, r) {
      if Drawn(path, |path|, r) {
        var j :| 0 <= j < |path| && AtPoint(path[j], r);
        assert PixelOf(p, q, j) == r;
      }
      if OnLine(p, q, r) {
        var j: nat :| j <= Length(p, q) && PixelOf(p, q, j) == r;
        assert AtPoint(path[j], r);
      }
    }
  }

  /** The loop's two tests decide as the nearest-pixel rule does. */
  lemma OneMore(p: Point, q: Point, k: nat)
    requires k < Length(p, q)
    ensures PenAt(p, q, k + 1) == Turn(PenAt(p, q, k), StrideOf(p, q)) && Small(PenAt(p, q, k).err, StrideOf(p, q))
  {
    if Distance(p.x, q.x) >= Distance(p.y, q.y) { OneMoreX(p, q, k); } else { OneMoreY(p, q, k); }
  }

  lemma OneMoreX(p: Point, q: Point, k: nat)
    requires k < Length(p, q) && Distance(p.x, q.x) >= Distance(p.y, q.y)
    ensures PenAt(p, q, k + 1) == Turn(PenAt(p, q, k), StrideOf(p, q)) && Small(PenAt(p, q, k).err, StrideOf(p, q))
  {
    AlongX(k, Distance(p.x, q.x), Distance(p.y, q.y));
    Advance(p, q, k);
  }

  lemma OneMoreY(p: Point, q: Point, k: nat)
    requires k < Length(p, q) && Distance(p.x, q.x) < Distance(p.y, q.y)
    ensures PenAt(p, q, k + 1) == Turn(PenAt(p, q, k), StrideOf(p, q)) && Small(PenAt(p, q, k).err, StrideOf(p, q))
  {
    AlongY(k, Distance(p.x, q.x), Distance(p.y, q.y));
    Advance(p, q, k);
  }

  // The loop's tests while x is the longer side.
  lemma AlongX(k: nat, dx: int, dy: int)
    requires 0 <= dy <= dx && 0 < dx
    ensures var (b, c) := (Nearest(k, dx, dy), Nearest(k + 1, dx, dy));
      var err := (b + 1) * dx - (k + 1) * dy;
      && 2 * err > -dy && c == b + (if 2 * err < dx then 1 else 0)
      && (c + 1) * dx - (k + 2) * dy == err - dy + (if 2 * err < dx then dx else 0)
      && -3 * dx <= 2 * err <= 3 * dx
  {
    MinorStep(k, dx, dy);
    var (b, c) := (Nearest(k, dx, dy), Nearest(k + 1, dx, dy));
    ErrParts(k, b, dx, dy);
    ErrGrows(k, 1, b, c - b, dx, dy);
  }

  // And while y is.
  lemma AlongY(k: nat, dx: int, dy: int)
    requires 0 <= dx < dy
    ensures var (a, c) := (Nearest(k, dy, dx), Nearest(k + 1, dy, dx));
      var err := (k + 1) * dx - (a + 1) * dy;
      && 2 * err < dx && c == a + (if 2 * err > -dy then 1 else 0)
      && (k + 2) * dx - (c + 1) * dy == err + dx - (if 2 * err > -dy then dy else 0)
      && -3 * dy <= 2 * err <= 3 * dy
  {
    MinorStep(k, dy, dx);
    var (a, c) := (Nearest(k, dy, dx), Nearest(k + 1, dy, dx));
    ErrParts(a, k, dx, dy);
    ErrGrows(a, c - a, k, 1, dx, dy);
  }

  // Pixel k + 1 in terms of pixel k.
  lemma Advance(p: Point, q: Point, k: nat)
    requires k < Length(p, q)
    requires StepsX(p, q, k) <= StepsX(p, q, k + 1) <= StepsX(p, q, k) + 1
    requires StepsY(p, q, k) <= StepsY(p, q, k + 1) <= StepsY(p, q, k) + 1
    ensures var (r, s) := (PixelOf(p, q, k), PixelOf(p, q, k + 1));
      && s.x == r.x + (StepsX(p, q, k + 1) - StepsX(p, q, k)) * (if q.x > p.x then 1 else -1)
      && s.y == r.y + (StepsY(p, q, k + 1) - StepsY(p, q, k)) * (if q.y > p.y then 1 else -1)
  {
    StepsInRange(p, q, k);
    StepsInRange(p, q, k + 1);
  }

  lemma ErrParts(a: int, b: int, dx: int, dy: int)
    ensures (b + 1) * dx - (a + 1) * dy == b * dx - a * dy + dx - dy
  {
  }

  lemma ErrGrows(a: int, i: int, b: int, j: int, dx: int, dy: int)
    ensures (b + j + 1) * dx - (a + i + 1) * dy == (b + 1) * dx - (a + 1) * dy + j * dx - i * dy
  {
  }

  // The nearest offset moves on by one exactly when the second test of the loop says so.
  lemma MinorStep(k: nat, major: int, minor: int)
    requires 0 <= minor <= major && 0 < major
    ensures var b := Nearest(k, major, minor);
      var d := b * major - k * minor;
      && -major <= 2 * d < major && 2 * d > minor - 2 * major
      && Nearest(k + 1, major, minor) == if 2 * d < 2 * minor - major then b + 1 else b
  {
    var b := Nearest(k, major, minor);
    NearestIsNear(k, major, minor);
    NextStep(k, b, major, minor);
    NearestIsNear(k + 1, major, minor);
    var b' := if 2 * (b * major - k * minor) < 2 * minor - major then b + 1 else b;
    NearIsUnique(k + 1, Nearest(k + 1, major, minor), b', major, minor);
  }
}
