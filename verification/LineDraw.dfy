/** Points and lines (llrasterize.cpp): Bresenham's algorithm in all slopes and directions. */
module LineDraw {
  import opened Basics
  import opened ScanFill

  /** The pixels that some points of the raster come to, in order. */
  function Visible(points: seq<Pixel>, xSize: int, ySize: int): seq<Pixel> {
    if |points| == 0 then []
    else Visible(points[..|points|-1], xSize, ySize)
         + (if points[|points|-1].InRaster(xSize, ySize) then [points[|points|-1]] else [])
  }

  lemma {:induction false} VisibleExactly(points: seq<Pixel>, xSize: int, ySize: int, p: Pixel)
    ensures p in Visible(points, xSize, ySize) <==> p in points && p.InRaster(xSize, ySize)
  {
    if |points| > 0 {
      var n := |points| - 1;
      VisibleExactly(points[..n], xSize, ySize, p);
      assert points == points[..n] + [points[n]];
    }
  }

  // ---------------------------------------------------------------------
  //  The ideal line
  // ---------------------------------------------------------------------

  /** How far the minor axis has got after k steps on the major axis: k * minor / major, rounded to the
      nearest integer, and down when halfway. */
  function MinorSteps(k: nat, major: nat, minor: nat): int {
    if major == 0 then 0 else (2 * k * minor + major - 1) / (2 * major)
  }

  lemma Quotient(a: int, b: int, q: int)
    requires b > 0
    ensures q == a / b <==> b * q <= a < b * (q + 1)
  {
    assert a == b * (a / b) + a % b;
    if b * q <= a < b * (q + 1) && q != a / b {
      if q < a / b { Monotone(b, q + 1, a / b); } else { Monotone(b, a / b + 1, q); }
    }
  }

  lemma Monotone(b: int, p: int, q: int)
    requires b > 0 && p <= q
    ensures b * p <= b * q
  {
  }

  /** The number of steps is the one that keeps within half a pixel of the ideal line. */
  lemma NearestPixel(k: nat, major: nat, minor: nat, s: int)
    requires major > 0
    ensures s == MinorSteps(k, major, minor) <==> -(major as int) < 2 * (k * minor - s * major) <= major
  {
    Quotient(2 * k * minor + major - 1, 2 * major, s);
    assert 2 * major * (s + 1) == 2 * (s * major) + 2 * major;
    assert 2 * k * minor == 2 * (k * minor);
  }

  datatype Segment = Segment(start: Pixel, end: Pixel) {
    function DeltaX(): nat { Abs(end.x - start.x) }

    function DeltaY(): nat { Abs(end.y - start.y) }

    function XStep(): int { if start.x > end.x then -1 else 1 }

    function YStep(): int { if start.y > end.y then -1 else 1 }

    predicate Flat() { DeltaX() >= DeltaY() }

    function Major(): nat { if Flat() then DeltaX() else DeltaY() }

    function Minor(): nat { if Flat() then DeltaY() else DeltaX() }

    function At(k: nat): Pixel {
      var s := MinorSteps(k, Major(), Minor());
      if Flat() then Pixel(start.x + XStep() * k, start.y + YStep() * s)
      else Pixel(start.x + XStep() * s, start.y + YStep() * k)
    }

    /** All pixels of the segment, whether or not they are in the raster. */
    function Pixels(n: nat): (r: seq<Pixel>)
      ensures |r| == n && forall k :: 0 <= k < n ==> r[k] == At(k)
    {
      seq(n, k requires 0 <= k < n => At(k))
    }
  }

  lemma MinorStepsBounded(k: nat, major: nat, minor: nat)
    requires minor <= major
    ensures Abs(2 * (k * minor - MinorSteps(k, major, minor) * major)) <= major
    ensures MinorSteps(0, major, minor) == 0 && MinorSteps(major, major, minor) == minor
    ensures 0 <= MinorSteps(k + 1, major, minor) - MinorSteps(k, major, minor) <= 1
  {
    if major > 0 {
      var s := MinorSteps(k, major, minor);
      NearestPixel(k, major, minor, s);
      NearestPixel(0, major, minor, 0);
      NearestPixel(major, major, minor, minor);
      StepEither(k, major, minor, s);
    } else {
      assert k * minor == 0;
    }
  }

  /** One step of the error term decides which of two minor steps comes next. */
  lemma StepEither(k: nat, major: nat, minor: nat, s: int)
    requires 0 < major && minor <= major && s == MinorSteps(k, major, minor)
    ensures MinorSteps(k + 1, major, minor) == if 2 * (k * minor - s * major) + 2 * minor - major > 0 then s + 1 else s
  {
    NearestPixel(k, major, minor, s);
    NearestPixel(k + 1, major, minor, s);
    NearestPixel(k + 1, major, minor, s + 1);
    assert (k + 1) * minor == k * minor + minor && (s + 1) * major == s * major + major;
  }

  /** The segment starts and ends at its rounded ends, and each pixel is one step from the last on the
      major axis and at most one on the minor axis. */
  lemma SegmentShape(g: Segment, k: nat)
    ensures g.At(0) == g.start && g.At(g.Major()) == g.end
    ensures g.Flat() ==> g.At(k + 1).x == g.At(k).x + g.XStep() && Abs(g.At(k + 1).y - g.At(k).y) <= 1
    ensures !g.Flat() ==> g.At(k + 1).y == g.At(k).y + g.YStep() && Abs(g.At(k + 1).x - g.At(k).x) <= 1
  {
    MinorStepsBounded(k, g.Major(), g.Minor());
  }

  /** No pixel is further than half a pixel from the line between the rounded ends, along the minor axis. */
  lemma WithinHalfAPixel(g: Segment, k: nat)
    requires k <= g.Major()
    ensures g.Flat() ==> 2 * Abs(((g.At(k).y - g.start.y) * (g.end.x - g.start.x) - (g.At(k).x - g.start.x) * (g.end.y - g.start.y))) <= g.Major()
    ensures !g.Flat() ==> 2 * Abs(((g.At(k).x - g.start.x) * (g.end.y - g.start.y) - (g.At(k).y - g.start.y) * (g.end.x - g.start.x))) <= g.Major()
  {
    MinorStepsBounded(k, g.Major(), g.Minor());
    var s := MinorSteps(k, g.Major(), g.Minor());
    if g.Flat() {
      Signs(g.XStep(), g.YStep(), k, s, g.DeltaX(), g.DeltaY());
      assert g.end.x - g.start.x == g.XStep() * g.DeltaX() && g.end.y - g.start.y == g.YStep() * g.DeltaY();
    } else {
      Signs(g.YStep(), g.XStep(), k, s, g.DeltaY(), g.DeltaX());
      assert g.end.x - g.start.x == g.XStep() * g.DeltaX() && g.end.y - g.start.y == g.YStep() * g.DeltaY();
    }
  }

  lemma Signs(u: int, v: int, k: int, s: int, major: int, minor: int)
    requires (u == 1 || u == -1) && (v == 1 || v == -1)
    ensures Abs((v * s) * (u * major) - (u * k) * (v * minor)) == Abs(k * minor - s * major)
  {
  }

  /** Drawing the other way round gives the same pixel exactly where the ideal line is not halfway between two. */
  lemma Reversal(g: Segment, k: nat)
    requires 0 < g.Major() && k <= g.Major()
    ensures MinorSteps(g.Major() - k, g.Major(), g.Minor()) == g.Minor() - MinorSteps(k, g.Major(), g.Minor())
            <==> 2 * (k * g.Minor() - MinorSteps(k, g.Major(), g.Minor()) * g.Major()) != g.Major()
  {
    var major, minor := g.Major(), g.Minor();
    var s := MinorSteps(k, major, minor);
    NearestPixel(k, major, minor, s);
    NearestPixel(major - k, major, minor, minor - s);
    Flipped(k, major, minor, s);
  }

  lemma Flipped(k: int, major: int, minor: int, s: int)
    ensures (major - k) * minor - (minor - s) * major == -(k * minor - s * major)
  {
  }

  // ---------------------------------------------------------------------
  //  Drawing
  // ---------------------------------------------------------------------

  /** Draws one segment. */
  method DrawSegment(xSize: int, ySize: int, g: Segment) returns (points: seq<Pixel>)
    ensures points == Visible(g.Pixels(g.Major() + 1), xSize, ySize)
  {
    if g.DeltaX() >= g.DeltaY() {
      points := DrawFlat(xSize, ySize, g);
    } else {
      points := DrawSteep(xSize, ySize, g);
    }
  }

  lemma OnePixelMore(g: Segment, k: nat, xSize: int, ySize: int)
    ensures Visible(g.Pixels(k + 1), xSize, ySize)
            == Visible(g.Pixels(k), xSize, ySize) + (if g.At(k).InRaster(xSize, ySize) then [g.At(k)] else [])
  {
    assert g.Pixels(k + 1)[..k] == g.Pixels(k);
  }

  /** What the error term stands for. */
  ghost function ErrorAt(k: nat, s: int, major: nat, minor: nat): int {
    2 * (k * minor - s * major) + 2 * minor - major
  }

  lemma NextError(k: nat, s: int, major: nat, minor: nat)
    requires minor <= major && s == MinorSteps(k, major, minor)
    ensures ErrorAt(k + 1, s, major, minor) == ErrorAt(k, s, major, minor) + 2 * minor
    ensures ErrorAt(k + 1, s + 1, major, minor) == ErrorAt(k, s, major, minor) + 2 * minor - 2 * major
    ensures major > 0 ==> MinorSteps(k + 1, major, minor) == if ErrorAt(k, s, major, minor) > 0 then s + 1 else s
  {
    assert (k + 1) * minor == k * minor + minor && (s + 1) * major == s * major + major;
    if major > 0 { StepEither(k, major, minor, s); }
  }

  /** The error term at pixel k of a segment. */
  ghost function ErrorOf(g: Segment, k: nat): int {
    ErrorAt(k, MinorSteps(k, g.Major(), g.Minor()), g.Major(), g.Minor())
  }

  lemma FirstPixel(g: Segment)
    ensures g.At(0) == g.start && ErrorOf(g, 0) == 2 * g.Minor() - g.Major()
  {
    MinorStepsBounded(0, g.Major(), g.Minor());
  }

  lemma NextPixel(g: Segment, k: nat)
    requires k < g.Major()
    ensures g.At(k + 1) == if g.Flat() then Pixel(g.At(k).x + g.XStep(), g.At(k).y + (if ErrorOf(g, k) > 0 then g.YStep() else 0))
                           else Pixel(g.At(k).x + (if ErrorOf(g, k) > 0 then g.XStep() else 0), g.At(k).y + g.YStep())
    ensures ErrorOf(g, k + 1) == ErrorOf(g, k) + 2 * g.Minor() - (if ErrorOf(g, k) > 0 then 2 * g.Major() else 0)
  {
    hide MinorSteps, ErrorAt;
    NextError(k, MinorSteps(k, g.Major(), g.Minor()), g.Major(), g.Minor());
  }

  method DrawFlat(xSize: int, ySize: int, g: Segment) returns (points: seq<Pixel>)
    requires g.Flat()
    ensures points == Visible(g.Pixels(g.Major() + 1), xSize, ySize)
  {
    hide Segment.At, ErrorOf;
    var x, y := g.start.x, g.start.y;
    var xError := 2 * g.DeltaY();
    var yError := xError - 2 * g.DeltaX();
    var error := xError - g.DeltaX();
    points := [];
    FirstPixel(g);
    for k := 0 to g.DeltaX() + 1
      invariant k <= g.Major() ==> Pixel(x, y) == g.At(k) && error == ErrorOf(g, k)
      invariant points == Visible(g.Pixels(k), xSize, ySize)
    {
      OnePixelMore(g, k, xSize, ySize);
      if k < g.Major() { NextPixel(g, k); }
      if 0 <= x < xSize && 0 <= y < ySize {
        points := points + [Pixel(x, y)];
      }
      x := x + g.XStep();
      if error > 0 {
        y := y + g.YStep();
        error := error + yError;
      } else {
        error := error + xError;
      }
    }
  }

  method DrawSteep(xSize: int, ySize: int, g: Segment) returns (points: seq<Pixel>)
    requires !g.Flat()
    ensures points == Visible(g.Pixels(g.Major() + 1), xSize, ySize)
  {
    hide Segment.At, ErrorOf;
    var x, y := g.start.x, g.start.y;
    var xError := 2 * g.DeltaX();
    var yError := xError - 2 * g.DeltaY();
    var error := xError - g.DeltaY();
    points := [];
    FirstPixel(g);
    for k := 0 to g.DeltaY() + 1
      invariant k <= g.Major() ==> Pixel(x, y) == g.At(k) && error == ErrorOf(g, k)
      invariant points == Visible(g.Pixels(k), xSize, ySize)
    {
      OnePixelMore(g, k, xSize, ySize);
      if k < g.Major() { NextPixel(g, k); }
      if 0 <= x < xSize && 0 <= y < ySize {
        points := points + [Pixel(x, y)];
      }
      y := y + g.YStep();
      if error > 0 {
        x := x + g.XStep();
        error := error + yError;
      } else {
        error := error + xError;
      }
    }
  }

  /** The segment that leads to vertex i. */
  function SegmentOf(s: Shape, i: nat): Segment
    requires 0 < i < |s.xs| && |s.xs| == |s.ys|
  {
    Segment(Pixel(Round(s.xs[i-1]), Round(s.ys[i-1])), Pixel(Round(s.xs[i]), Round(s.ys[i])))
  }

  /** A pixel of the segment that leads to vertex i; the first vertex of a part has none. */
  ghost predicate OnSegment(s: Shape, i: nat, p: Pixel)
    requires 0 < i < |s.xs| && |s.xs| == |s.ys|
  {
    p in SegmentOf(s, i).Pixels(SegmentOf(s, i).Major() + 1)
  }

  /** p is a pixel of the line from (x0, y0) to (x1, y1): a whole step along the longer axis, and on the other axis
      the nearest pixel to the line, the one nearer to the start when two are as near. */
  ghost predicate NearLine(x0: int, y0: int, x1: int, y1: int, p: Pixel) {
    var dx: int, dy: int := Abs(x1 - x0), Abs(y1 - y0);
    var u, v := if x0 > x1 then x0 - p.x else p.x - x0, if y0 > y1 then y0 - p.y else p.y - y0;
    if dx == 0 && dy == 0 then u == v == 0
    else if dx >= dy then 0 <= u <= dx && -dx < 2 * (u * dy - v * dx) <= dx
    else 0 <= v <= dy && -dy < 2 * (v * dx - u * dy) <= dy
  }

  lemma PixelsNearLine(g: Segment, p: Pixel)
    ensures p in g.Pixels(g.Major() + 1) <==> NearLine(g.start.x, g.start.y, g.end.x, g.end.y, p)
  {
    if NearLine(g.start.x, g.start.y, g.end.x, g.end.y, p) {
      NearLineIsPixel(g, p);
    }
    forall k | 0 <= k <= g.Major() ensures NearLine(g.start.x, g.start.y, g.end.x, g.end.y, g.At(k)) {
      PixelIsNearLine(g, k);
    }
  }

  function Signed(step: int, k: int): int { if step == 1 then k else -k }

  /** Pixel k, without products. */
  lemma PixelAt(g: Segment, k: nat, s: int)
    requires s == MinorSteps(k, g.Major(), g.Minor())
    ensures g.At(k) == if g.Flat() then Pixel(g.start.x + Signed(g.XStep(), k), g.start.y + Signed(g.YStep(), s))
                       else Pixel(g.start.x + Signed(g.XStep(), s), g.start.y + Signed(g.YStep(), k))
  {
    hide MinorSteps;
  }

  lemma PixelIsNearLine(g: Segment, k: nat)
    requires k <= g.Major()
    ensures NearLine(g.start.x, g.start.y, g.end.x, g.end.y, g.At(k))
  {
    hide MinorSteps, Segment.At;
    var s := MinorSteps(k, g.Major(), g.Minor());
    if g.Major() > 0 { NearestPixel(k, g.Major(), g.Minor(), s); } else { MinorStepsBounded(0, 0, 0); }
    PixelAt(g, k, s);
  }

  lemma NearLineIsPixel(g: Segment, p: Pixel)
    requires NearLine(g.start.x, g.start.y, g.end.x, g.end.y, p)
    ensures p in g.Pixels(g.Major() + 1)
  {
    hide MinorSteps, Segment.At, Segment.Pixels;
    var u := if g.start.x > g.end.x then g.start.x - p.x else p.x - g.start.x;
    var v := if g.start.y > g.end.y then g.start.y - p.y else p.y - g.start.y;
    var k, s := if g.Flat() then u else v, if g.Flat() then v else u;
    if g.Major() > 0 { NearestPixel(k, g.Major(), g.Minor(), s); } else { MinorStepsBounded(0, 0, 0); }
    PixelAt(g, k, s);
    assert g.At(k) == p && g.Pixels(g.Major() + 1)[k] == p;
  }

  /** p is a pixel of the line between the rounded vertices i - 1 and i. */
  ghost predicate NearStep(s: Shape, i: nat, p: Pixel)
    requires 0 < i < |s.xs| && |s.xs| == |s.ys|
  {
    NearLine((s.xs[i-1] + 0.5).Floor, (s.ys[i-1] + 0.5).Floor, (s.xs[i] + 0.5).Floor, (s.ys[i] + 0.5).Floor, p)
  }

  lemma StepIsSegment(s: Shape, i: nat, p: Pixel)
    requires 0 < i < |s.xs| && |s.xs| == |s.ys|
    ensures OnSegment(s, i, p) <==> NearStep(s, i, p)
  {
    PixelsNearLine(SegmentOf(s, i), p);
  }

  /** Vertex i is not the first of its part. */
  ghost predicate Joined(sizes: seq<nat>, i: nat) {
    exists k :: 0 <= k < |sizes| && PartStart(sizes, k) < i < PartStart(sizes, k) + sizes[k]
  }

  ghost predicate OnLines(s: Shape, p: Pixel)
    requires s.Complete()
  {
    exists i :: 0 < i < |s.xs| && Joined(s.partSizes, i) && OnSegment(s, i, p)
  }

  /** The same by the rounded vertices. */
  ghost predicate NearLines(s: Shape, p: Pixel)
    requires s.Complete()
  {
    exists i :: 0 < i < |s.xs| && Joined(s.partSizes, i) && NearStep(s, i, p)
  }

  lemma LinesAreNear(s: Shape, p: Pixel)
    requires s.Complete()
    ensures OnLines(s, p) <==> NearLines(s, p)
  {
    hide OnSegment, NearStep, Joined;
    forall i | 0 < i < |s.xs| ensures OnSegment(s, i, p) <==> NearStep(s, i, p) {
      StepIsSegment(s, i, p);
    }
  }

  /** Pixels of the segments of the first parts, up to vertex i. */
  ghost predicate OnFirst(s: Shape, p: Pixel, n: nat)
    requires s.Complete()
  {
    exists i :: 0 < i < |s.xs| && i < n && Joined(s.partSizes, i) && OnSegment(s, i, p)
  }

  lemma NotJoined(sizes: seq<nat>, k: nat)
    requires k < |sizes|
    ensures !Joined(sizes, PartStart(sizes, k))
  {
    forall l | 0 <= l < |sizes| ensures !(PartStart(sizes, l) < PartStart(sizes, k) < PartStart(sizes, l) + sizes[l]) {
      PartStartNext(sizes, l);
      if l < k { PartStartGrows(sizes, l + 1, k); } else if k < l { PartStartGrows(sizes, k, l); }
    }
  }

  lemma {:induction false} PartStartGrows(sizes: seq<nat>, k: nat, l: nat)
    requires k <= l <= |sizes|
    ensures PartStart(sizes, k) <= PartStart(sizes, l)
  {
    if k < l {
      PartStartGrows(sizes, k, l - 1);
      PartStartNext(sizes, l - 1);
    }
  }

  /** The raster's pixels on the segments up to vertex n. */
  ghost predicate DrawnTo(s: Shape, points: seq<Pixel>, n: nat, xSize: int, ySize: int)
    requires s.Complete()
  {
    forall p :: p in points <==> OnFirst(s, p, n) && p.InRaster(xSize, ySize)
  }

  /** Draws every part of a shape: exactly the raster's pixels on its lines. */
  method ImageLine(xSize: int, ySize: int, s: Shape) returns (points: seq<Pixel>)
    requires s.Complete()
    ensures forall p :: p in points <==> OnLines(s, p) && p.InRaster(xSize, ySize)
    ensures forall p :: p in points <==> 0 <= p.x < xSize && 0 <= p.y < ySize && NearLines(s, p)
  {
    forall p ensures OnLines(s, p) <==> NearLines(s, p) {
      LinesAreNear(s, p);
    }
    points := [];
    var n: nat := 0;
    for i := 0 to |s.partSizes|
      invariant n == PartStart(s.partSizes, i) <= |s.xs| && DrawnTo(s, points, n, xSize, ySize)
    {
      PartStartNext(s.partSizes, i);
      PartStartInside(s.partSizes, i + 1);
      points := DrawPart(xSize, ySize, s, i, n, points);
      n := n + s.partSizes[i];
    }
    assert s.partSizes[..|s.partSizes|] == s.partSizes;
    assert forall p :: OnLines(s, p) <==> OnFirst(s, p, n);
  }

  /** Draws the segments of one part. */
  method DrawPart(xSize: int, ySize: int, s: Shape, part: nat, n: nat, before: seq<Pixel>) returns (points: seq<Pixel>)
    requires s.Complete() && part < |s.partSizes| && n == PartStart(s.partSizes, part) && n + s.partSizes[part] <= |s.xs|
    requires DrawnTo(s, before, n, xSize, ySize)
    ensures DrawnTo(s, points, n + s.partSizes[part], xSize, ySize)
  {
    points := before;
    if s.partSizes[part] == 0 { return; }
    NotJoined(s.partSizes, part);
    FirstOfPart(s, points, n, xSize, ySize);
    for j := 1 to s.partSizes[part]
      invariant DrawnTo(s, points, n + j, xSize, ySize)
    {
      var drawn := DrawSegment(xSize, ySize, SegmentOf(s, n + j));
      assert Joined(s.partSizes, n + j);
      NextSegment(s, points, drawn, n + j, xSize, ySize);
      points := points + drawn;
    }
  }

  lemma FirstOfPart(s: Shape, points: seq<Pixel>, n: nat, xSize: int, ySize: int)
    requires s.Complete() && DrawnTo(s, points, n, xSize, ySize) && !Joined(s.partSizes, n)
    ensures DrawnTo(s, points, n + 1, xSize, ySize)
  {
  }

  lemma NextSegment(s: Shape, points: seq<Pixel>, drawn: seq<Pixel>, i: nat, xSize: int, ySize: int)
    requires s.Complete() && 0 < i < |s.xs| && Joined(s.partSizes, i) && DrawnTo(s, points, i, xSize, ySize)
    requires drawn == Visible(SegmentOf(s, i).Pixels(SegmentOf(s, i).Major() + 1), xSize, ySize)
    ensures DrawnTo(s, points + drawn, i + 1, xSize, ySize)
  {
    forall p ensures p in points + drawn <==> OnFirst(s, p, i + 1) && p.InRaster(xSize, ySize) {
      VisibleExactly(SegmentOf(s, i).Pixels(SegmentOf(s, i).Major() + 1), xSize, ySize, p);
      NextOnFirst(s, p, i);
    }
  }

  lemma NextOnFirst(s: Shape, p: Pixel, i: nat)
    requires s.Complete() && 0 < i < |s.xs| && Joined(s.partSizes, i)
    ensures OnFirst(s, p, i + 1) <==> OnFirst(s, p, i) || OnSegment(s, i, p)
  {
  }

  ghost predicate OnPoint(s: Shape, p: Pixel)
    requires s.Complete()
  {
    exists i :: 0 <= i < |s.partSizes| && i < |s.xs| && p == Pixel(Round(s.xs[i]), Round(s.ys[i]))
  }

  /** Draws as many points as there are parts. */
  method ImagePoint(xSize: int, ySize: int, s: Shape) returns (points: seq<Pixel>)
    requires s.Complete() && |s.partSizes| <= |s.xs|
    ensures forall p :: p in points <==> OnPoint(s, p) && p.InRaster(xSize, ySize)
    ensures forall p :: p in points <==>
              && 0 <= p.x < xSize && 0 <= p.y < ySize
              && exists i :: 0 <= i < |s.partSizes| && p.x == (s.xs[i] + 0.5).Floor && p.y == (s.ys[i] + 0.5).Floor
  {
    points := [];
    for i := 0 to |s.partSizes|
      invariant forall p :: p in points <==> (exists k :: 0 <= k < i && p == Pixel(Round(s.xs[k]), Round(s.ys[k]))) && p.InRaster(xSize, ySize)
    {
      var p := Pixel(Round(s.xs[i]), Round(s.ys[i]));
      if 0 <= p.x < xSize && 0 <= p.y < ySize {
        points := points + [p];
      }
    }
  }
}
