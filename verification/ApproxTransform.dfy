/** The approximating transformer (gdaltransformer.cpp): a scanline is transformed by linear interpolation
    between its ends where the middle shows that this is good enough, and halved where it does not. */
module ApproxTransform {
  import opened Basics

  datatype Pt = Pt(x: real, y: real, z: real)

  /** A transformed point and whether the transformation worked. */
  datatype Image = Image(pt: Pt, ok: bool)

  /** The exact transformation, point by point. */
  type Base = Pt -> Image

  function Exact(base: Base, pts: seq<Pt>): (r: seq<Image>)
    ensures |r| == |pts| && forall i :: 0 <= i < |pts| ==> r[i] == base(pts[i])
  {
    seq(|pts|, i requires 0 <= i < |pts| => base(pts[i]))
  }

  function Middle(n: nat): int {
    (n - 1) / 2
  }

  /** The conditions under which a run of points may be interpolated. */
  predicate Interpolable(maxError: real, pts: seq<Pt>)
    requires |pts| > 0
  {
    var first, mid, last := pts[0], pts[Middle(|pts|)], pts[|pts|-1];
    && first.y == last.y && first.y == mid.y
    && first.x != last.x && first.x != mid.x
    && maxError != 0.0 && |pts| > 5
  }

  function Slope(a: real, b: real, dx: real): real
    requires dx != 0.0
  {
    (b - a) / dx
  }

  function Along(a: real, slope: real, dist: real): real {
    a + slope * dist
  }

  /** The image of p by linear interpolation in x between the images a and b of first and last. */
  function Interpolate(a: Pt, b: Pt, first: Pt, last: Pt, p: Pt): Pt
    requires first.x != last.x
  {
    var dx, dist := last.x - first.x, p.x - first.x;
    Pt(Along(a.x, Slope(a.x, b.x, dx), dist), Along(a.y, Slope(a.y, b.y, dx), dist), Along(a.z, Slope(a.z, b.z, dx), dist))
  }

  /** A run between the images a and b of its first and last points. */
  function Interpolated(a: Pt, b: Pt, pts: seq<Pt>): (r: seq<Image>)
    requires |pts| > 0 && pts[0].x != pts[|pts|-1].x
    ensures |r| == |pts|
    ensures forall i :: 0 <= i < |pts| ==> r[i] == Image(Interpolate(a, b, pts[0], pts[|pts|-1], pts[i]), true)
  {
    seq(|pts|, i requires 0 <= i < |pts| => Image(Interpolate(a, b, pts[0], pts[|pts|-1], pts[i]), true))
  }

  function Interpolation(base: Base, pts: seq<Pt>): (r: seq<Image>)
    requires |pts| > 0 && pts[0].x != pts[|pts|-1].x
    ensures |r| == |pts|
  {
    Interpolated(base(pts[0]).pt, base(pts[|pts|-1]).pt, pts)
  }

  /** The error of a point, in x and y. */
  function Distance(p: Pt, q: Pt): real {
    Magnitude(p.x - q.x) + Magnitude(p.y - q.y)
  }

  predicate AllOk(base: Base, pts: seq<Pt>)
    requires |pts| > 0
  {
    base(pts[0]).ok && base(pts[Middle(|pts|)]).ok && base(pts[|pts|-1]).ok
  }

  function MiddleError(base: Base, pts: seq<Pt>): real
    requires |pts| > 0 && pts[0].x != pts[|pts|-1].x
  {
    var mid := pts[Middle(|pts|)];
    Distance(Interpolate(base(pts[0]).pt, base(pts[|pts|-1]).pt, pts[0], pts[|pts|-1], mid), base(mid).pt)
  }

  /** The result of the approximation: exact where interpolation is out of the question, interpolated
      where the middle allows it, and halved otherwise. */
  function Approx(base: Base, maxError: real, pts: seq<Pt>): (out: seq<Image>)
    requires |pts| > 0
    ensures |out| == |pts|
    decreases |pts|
  {
    if !Interpolable(maxError, pts) || !AllOk(base, pts) then Exact(base, pts)
    else if MiddleError(base, pts) <= maxError then Interpolation(base, pts)
    else Approx(base, maxError, pts[..Middle(|pts|)]) + Approx(base, maxError, pts[Middle(|pts|)..])
  }

  // ---------------------------------------------------------------------
  //  What the result has to be
  // ---------------------------------------------------------------------

  /** A run that went through linear interpolation: ends and middle work out, and the middle is close enough. */
  ghost predicate InterpolatedBlock(base: Base, maxError: real, pts: seq<Pt>, out: seq<Image>) {
    && |pts| == |out| && |pts| > 0 && Interpolable(maxError, pts) && AllOk(base, pts)
    && out == Interpolation(base, pts)
    && MiddleError(base, pts) <= maxError
  }

  /** The points fall into consecutive runs, each of them exact or interpolated. */
  ghost predicate Blocks(base: Base, maxError: real, pts: seq<Pt>, out: seq<Image>)
    requires |pts| == |out|
    decreases |pts|
  {
    || out == Exact(base, pts)
    || InterpolatedBlock(base, maxError, pts, out)
    || exists k {:trigger pts[..k]} :: 0 < k < |pts| && Blocks(base, maxError, pts[..k], out[..k]) && Blocks(base, maxError, pts[k..], out[k..])
  }

  lemma TwoBlocks(base: Base, maxError: real, pts: seq<Pt>, out: seq<Image>, k: nat)
    requires |pts| == |out| && 0 < k < |pts|
    requires Blocks(base, maxError, pts[..k], out[..k]) && Blocks(base, maxError, pts[k..], out[k..])
    ensures Blocks(base, maxError, pts, out)
  {
  }

  /** The result falls into such runs, whatever the base transformation is. */
  lemma {:induction false} ApproxBlocks(base: Base, maxError: real, pts: seq<Pt>)
    requires |pts| > 0
    ensures Blocks(base, maxError, pts, Approx(base, maxError, pts))
    decreases |pts|
  {
    if Interpolable(maxError, pts) && AllOk(base, pts) && MiddleError(base, pts) > maxError {
      var k, out := Middle(|pts|), Approx(base, maxError, pts);
      ApproxBlocks(base, maxError, pts[..k]);
      ApproxBlocks(base, maxError, pts[k..]);
      assert out[..k] == Approx(base, maxError, pts[..k]) && out[k..] == Approx(base, maxError, pts[k..]);
      TwoBlocks(base, maxError, pts, out, k);
    }
  }

  /** An interpolated run has exact ends, and a middle within the allowed error. */
  lemma InterpolatedWell(base: Base, maxError: real, pts: seq<Pt>, out: seq<Image>)
    requires InterpolatedBlock(base, maxError, pts, out)
    ensures out[0] == base(pts[0]) && out[|out|-1] == base(pts[|pts|-1])
    ensures var m := (|pts| - 1) / 2;
            out[m].ok && Close(out[m].pt, base(pts[m]).pt, maxError)
  {
    CloseDistance(out[Middle(|pts|)].pt, base(pts[Middle(|pts|)]).pt, maxError);
  }

  // ---------------------------------------------------------------------
  //  Affine transformations
  // ---------------------------------------------------------------------

  /** One coordinate of an affine transformation. */
  datatype Row = Row(cx: real, cy: real, cz: real, c: real) {
    function At(p: Pt): real {
      cx * p.x + (cy * p.y + cz * p.z + c)
    }
  }

  datatype Affine = Affine(x: Row, y: Row, z: Row) {
    function Apply(p: Pt): Image {
      Image(Pt(x.At(p), y.At(p), z.At(p)), true)
    }
  }

  ghost predicate IsAffine(base: Base, m: Affine) {
    forall p :: base(p) == m.Apply(p)
  }

  /** Interpolation reproduces a function that is linear in x. */
  lemma AlongLinear(a: real, c: real, x0: real, xn: real, x: real, v0: real, vn: real, v: real)
    requires x0 != xn && v0 == a * x0 + c && vn == a * xn + c && v == a * x + c
    ensures Along(v0, Slope(v0, vn, xn - x0), x - x0) == v
  {
  }

  /** All points have one y, and their z is linear in x. */
  ghost predicate Straight(pts: seq<Pt>, y: real, slope: real, c: real) {
    forall i :: 0 <= i < |pts| ==> pts[i].y == y && pts[i].z == slope * pts[i].x + c
  }

  function Coefficient(row: Row, slope: real): real {
    row.cx + row.cz * slope
  }

  function Remainder(row: Row, y: real, c: real): real {
    row.cy * y + (row.cz * c + row.c)
  }

  /** Along a straight run an affine transformation is linear in x. */
  lemma RowOnStraight(row: Row, p: Pt, y: real, slope: real, c: real)
    requires p.y == y && p.z == slope * p.x + c
    ensures row.At(p) == Coefficient(row, slope) * p.x + Remainder(row, y, c)
  {
    assert row.cz * p.z == (row.cz * slope) * p.x + row.cz * c;
  }

  lemma AlongRow(row: Row, first: Pt, last: Pt, p: Pt, y: real, slope: real, c: real)
    requires first.x != last.x && Straight([first, p, last], y, slope, c)
    ensures Along(row.At(first), Slope(row.At(first), row.At(last), last.x - first.x), p.x - first.x) == row.At(p)
  {
    var run := [first, p, last];
    RowOnStraight(row, run[0], y, slope, c);
    RowOnStraight(row, run[1], y, slope, c);
    RowOnStraight(row, run[2], y, slope, c);
    AlongLinear(Coefficient(row, slope), Remainder(row, y, c), first.x, last.x, p.x, row.At(first), row.At(last), row.At(p));
  }

  lemma InterpolateAffine(m: Affine, first: Pt, last: Pt, p: Pt, y: real, slope: real, c: real)
    requires first.x != last.x && Straight([first, p, last], y, slope, c)
    ensures Interpolate(m.Apply(first).pt, m.Apply(last).pt, first, last, p) == m.Apply(p).pt
  {
    AlongRow(m.x, first, last, p, y, slope, c);
    AlongRow(m.y, first, last, p, y, slope, c);
    AlongRow(m.z, first, last, p, y, slope, c);
  }

  lemma InterpolationAffine(base: Base, m: Affine, pts: seq<Pt>, y: real, slope: real, c: real)
    requires IsAffine(base, m) && Straight(pts, y, slope, c) && |pts| > 0 && pts[0].x != pts[|pts|-1].x
    ensures Interpolation(base, pts) == Exact(base, pts)
  {
    var first, last := pts[0], pts[|pts|-1];
    forall i | 0 <= i < |pts| ensures Interpolation(base, pts)[i] == Exact(base, pts)[i] {
      InterpolateAffine(m, first, last, pts[i], y, slope, c);
      assert base(first) == m.Apply(first) && base(last) == m.Apply(last) && base(pts[i]) == m.Apply(pts[i]);
    }
  }

  lemma TwoExact(base: Base, pts: seq<Pt>, out: seq<Image>, k: nat)
    requires |pts| == |out| && k < |pts| && out[..k] == Exact(base, pts[..k]) && out[k..] == Exact(base, pts[k..])
    ensures out == Exact(base, pts)
  {
  }

  lemma StraightParts(pts: seq<Pt>, k: nat, y: real, slope: real, c: real)
    requires Straight(pts, y, slope, c) && k <= |pts|
    ensures Straight(pts[..k], y, slope, c) && Straight(pts[k..], y, slope, c)
  {
  }

  /** On a straight run, whatever the blocks are, an affine transformation is reproduced exactly. */
  lemma {:induction false} AffineExact(base: Base, m: Affine, maxError: real, pts: seq<Pt>, out: seq<Image>, y: real, slope: real, c: real)
    requires |pts| == |out| && IsAffine(base, m) && Straight(pts, y, slope, c) && Blocks(base, maxError, pts, out)
    ensures out == Exact(base, pts)
    decreases |pts|
  {
    if InterpolatedBlock(base, maxError, pts, out) {
      InterpolationAffine(base, m, pts, y, slope, c);
    } else if k :| 0 < k < |pts| && Blocks(base, maxError, pts[..k], out[..k]) && Blocks(base, maxError, pts[k..], out[k..]) {
      StraightParts(pts, k, y, slope, c);
      AffineExact(base, m, maxError, pts[..k], out[..k], y, slope, c);
      AffineExact(base, m, maxError, pts[k..], out[k..], y, slope, c);
      TwoExact(base, pts, out, k);
    }
  }

  /** Without an allowed error nothing is interpolated. */
  lemma {:induction false} NeverInterpolated(base: Base, maxError: real, pts: seq<Pt>)
    requires |pts| > 0 && maxError < 0.0
    ensures Approx(base, maxError, pts) == Exact(base, pts)
    decreases |pts|
  {
    if Interpolable(maxError, pts) && AllOk(base, pts) {
      var k := Middle(|pts|);
      NeverInterpolated(base, maxError, pts[..k]);
      NeverInterpolated(base, maxError, pts[k..]);
      TwoExact(base, pts, Approx(base, maxError, pts), k);
    }
  }

  /** Every point has the y of the first one, and its z is where the line from the first to the last one is. */
  ghost predicate OnChord(pts: seq<Pt>)
    requires |pts| > 0
  {
    var first, last := pts[0], pts[|pts|-1];
    forall i :: 0 <= i < |pts| ==>
      pts[i].y == first.y && (pts[i].z - first.z) * (last.x - first.x) == (last.z - first.z) * (pts[i].x - first.x)
  }

  /** What moves no point is interpolated to the point of the line from the first to the last one. */
  lemma AlongChord(a: real, b: real, dx: real, v: real, dist: real)
    requires dx != 0.0
    ensures Along(a, Slope(a, b, dx), dist) == v <==> (v - a) * dx == (b - a) * dist
  {
    var slope := Slope(a, b, dx);
    assert slope * dx == b - a;
    assert (slope * dist) * dx == (b - a) * dist;
    if Along(a, slope, dist) != v { ProductsDiffer(slope * dist, v - a, dx); }
  }

  lemma ProductsDiffer(a: real, b: real, dx: real)
    requires dx != 0.0 && a != b
    ensures a * dx != b * dx
  {
  }

  lemma ChordStraight(pts: seq<Pt>) returns (slope: real, c: real)
    requires |pts| > 0 && OnChord(pts) && pts[0].x != pts[|pts|-1].x
    ensures Straight(pts, pts[0].y, slope, c)
  {
    var first, last := pts[0], pts[|pts|-1];
    slope := Slope(first.z, last.z, last.x - first.x);
    c := first.z - slope * first.x;
    forall i | 0 <= i < |pts| ensures pts[i].y == first.y && pts[i].z == slope * pts[i].x + c {
      AlongChord(first.z, last.z, last.x - first.x, pts[i].z, pts[i].x - first.x);
    }
  }

  const IDENTITY := Affine(Row(1.0, 0.0, 0.0, 0.0), Row(0.0, 1.0, 0.0, 0.0), Row(0.0, 0.0, 1.0, 0.0))

  /** A run that may be interpolated but has a point off its chord comes out wrong there, even when nothing
      moves the points. */
  lemma OffChordFails(base: Base, maxError: real, pts: seq<Pt>, k: nat)
    requires (forall p :: base(p) == Image(p, true)) && maxError >= 0.0
    requires |pts| > 0 && Interpolable(maxError, pts) && k < |pts|
    requires var first, last := pts[0], pts[|pts|-1];
             pts[k].y != first.y || (pts[k].z - first.z) * (last.x - first.x) != (last.z - first.z) * (pts[k].x - first.x)
    ensures Approx(base, maxError, pts)[k] != base(pts[k])
  {
    var first, last := pts[0], pts[|pts|-1];
    StillMiddle(base, maxError, pts);
    FlatSlope(first.y, last.x - first.x, pts[k].x - first.x);
    AlongChord(first.z, last.z, last.x - first.x, pts[k].z, pts[k].x - first.x);
    assert Approx(base, maxError, pts)[k].pt == Interpolate(first, last, first, last, pts[k]);
  }

  /** What moves no point moves no middle, whatever its z. */
  lemma StillMiddle(base: Base, maxError: real, pts: seq<Pt>)
    requires (forall p :: base(p) == Image(p, true)) && |pts| > 0 && Interpolable(maxError, pts)
    ensures MiddleError(base, pts) == 0.0
  {
    var first, mid, last := pts[0], pts[Middle(|pts|)], pts[|pts|-1];
    AlongItself(first.x, last.x, mid.x);
    FlatSlope(first.y, last.x - first.x, mid.x - first.x);
    assert Interpolate(first, last, first, last, mid).x == mid.x;
    assert Interpolate(first, last, first, last, mid).y == mid.y;
  }

  lemma AlongItself(x0: real, xn: real, x: real)
    requires x0 != xn
    ensures Along(x0, Slope(x0, xn, xn - x0), x - x0) == x
  {
    AlongChord(x0, xn, xn - x0, x, x - x0);
  }

  /** So with ends of the same height, every point of another height comes out wrong. */
  lemma UnlevelFails(base: Base, maxError: real, pts: seq<Pt>, k: nat)
    requires (forall p :: base(p) == Image(p, true)) && maxError >= 0.0
    requires |pts| > 0 && Interpolable(maxError, pts) && pts[0].z == pts[|pts|-1].z
    requires k < |pts| && pts[k].z != pts[0].z
    ensures Approx(base, maxError, pts)[k] != base(pts[k])
  {
    ProductsDiffer(pts[k].z - pts[0].z, 0.0, pts[|pts|-1].x - pts[0].x);
    OffChordFails(base, maxError, pts, k);
  }

  ghost predicate ReproducesAffine(maxError: real, pts: seq<Pt>)
    requires |pts| > 0
  {
    forall base, m :: IsAffine(base, m) ==> Approx(base, maxError, pts) == Exact(base, pts)
  }

  /** All affine transformations are reproduced exactly if and only if interpolation is out of the question or
      every point is on the chord. */
  lemma AffineExactIff(maxError: real, pts: seq<Pt>)
    requires |pts| > 0
    ensures ReproducesAffine(maxError, pts) <==> maxError < 0.0 || !Interpolable(maxError, pts) || OnChord(pts)
  {
    if maxError < 0.0 {
      forall base, m | IsAffine(base, m) ensures Approx(base, maxError, pts) == Exact(base, pts) {
        NeverInterpolated(base, maxError, pts);
      }
    } else if Interpolable(maxError, pts) {
      if OnChord(pts) { ChordReproduces(maxError, pts); } else { OffChordDiffers(maxError, pts); }
    }
  }

  lemma ChordReproduces(maxError: real, pts: seq<Pt>)
    requires |pts| > 0 && Interpolable(maxError, pts) && OnChord(pts)
    ensures ReproducesAffine(maxError, pts)
  {
    var slope, c := ChordStraight(pts);
    forall base, m | IsAffine(base, m) ensures Approx(base, maxError, pts) == Exact(base, pts) {
      ApproxBlocks(base, maxError, pts);
      AffineExact(base, m, maxError, pts, Approx(base, maxError, pts), pts[0].y, slope, c);
    }
  }

  lemma OffChordDiffers(maxError: real, pts: seq<Pt>)
    requires |pts| > 0 && maxError >= 0.0 && Interpolable(maxError, pts) && !OnChord(pts)
    ensures !ReproducesAffine(maxError, pts)
  {
    var base: Base := (p: Pt) => Image(p, true);
    assert forall p :: base(p) == IDENTITY.Apply(p);
    assert IsAffine(base, IDENTITY);
    var first, last := pts[0], pts[|pts|-1];
    var k :| 0 <= k < |pts|
      && !(pts[k].y == first.y && (pts[k].z - first.z) * (last.x - first.x) == (last.z - first.z) * (pts[k].x - first.x));
    OffChordFails(base, maxError, pts, k);
  }

  lemma FlatSlope(a: real, dx: real, dist: real)
    requires dx != 0.0
    ensures Along(a, Slope(a, a, dx), dist) == a
  {
  }

  // ---------------------------------------------------------------------
  //  The result in coordinates
  // ---------------------------------------------------------------------

  /** q is where the line from a over first to b over last is over p, each coordinate on its own. */
  ghost predicate OnLine(a: Pt, b: Pt, first: Pt, last: Pt, p: Pt, q: Pt) {
    && (q.x - a.x) * (last.x - first.x) == (b.x - a.x) * (p.x - first.x)
    && (q.y - a.y) * (last.x - first.x) == (b.y - a.y) * (p.x - first.x)
    && (q.z - a.z) * (last.x - first.x) == (b.z - a.z) * (p.x - first.x)
  }

  /** The differences in x and in y are together at most maxError. */
  ghost predicate Close(p: Pt, q: Pt, maxError: real) {
    var dx, dy := if p.x < q.x then q.x - p.x else p.x - q.x, if p.y < q.y then q.y - p.y else p.y - q.y;
    dx + dy <= maxError
  }

  /** out is the result for pts: exact where ends and middle rule interpolation out, on the line between the ends
      where the line is close enough at the middle, and otherwise made of the results for both halves. */
  ghost predicate Produces(base: Base, maxError: real, pts: seq<Pt>, out: seq<Image>)
    requires |pts| == |out| > 0
    decreases |pts|
  {
    var m := (|pts| - 1) / 2;
    var first, mid, last := pts[0], pts[m], pts[|pts|-1];
    if |pts| <= 5 || maxError == 0.0 || first.y != last.y || first.y != mid.y || first.x == last.x || first.x == mid.x
       || !base(first).ok || !base(mid).ok || !base(last).ok
    then
      forall i :: 0 <= i < |pts| ==> out[i] == base(pts[i])
    else if exists q :: OnLine(base(first).pt, base(last).pt, first, last, mid, q) && Close(q, base(mid).pt, maxError) then
      forall i :: 0 <= i < |pts| ==> out[i].ok && OnLine(base(first).pt, base(last).pt, first, last, pts[i], out[i].pt)
    else
      Produces(base, maxError, pts[..m], out[..m]) && Produces(base, maxError, pts[m..], out[m..])
  }

  lemma OnLineInterpolates(a: Pt, b: Pt, first: Pt, last: Pt, p: Pt, q: Pt)
    requires first.x != last.x
    ensures OnLine(a, b, first, last, p, q) <==> q == Interpolate(a, b, first, last, p)
  {
    hide Along, Slope;
    AlongChord(a.x, b.x, last.x - first.x, q.x, p.x - first.x);
    AlongChord(a.y, b.y, last.x - first.x, q.y, p.x - first.x);
    AlongChord(a.z, b.z, last.x - first.x, q.z, p.x - first.x);
  }

  lemma CloseDistance(p: Pt, q: Pt, maxError: real)
    ensures Close(p, q, maxError) <==> Distance(p, q) <= maxError
  {
  }

  lemma MiddleClose(base: Base, maxError: real, pts: seq<Pt>)
    requires |pts| > 0 && pts[0].x != pts[|pts|-1].x
    ensures var first, mid, last := pts[0], pts[(|pts| - 1) / 2], pts[|pts|-1];
            (exists q :: OnLine(base(first).pt, base(last).pt, first, last, mid, q) && Close(q, base(mid).pt, maxError))
            <==> MiddleError(base, pts) <= maxError
  {
    hide OnLine, Close, Interpolate, Distance;
    var first, mid, last := pts[0], pts[(|pts| - 1) / 2], pts[|pts|-1];
    var a, b := base(first).pt, base(last).pt;
    var whole := Interpolate(a, b, first, last, mid);
    OnLineInterpolates(a, b, first, last, mid, whole);
    CloseDistance(whole, base(mid).pt, maxError);
    forall q | OnLine(a, b, first, last, mid, q) ensures q == whole {
      OnLineInterpolates(a, b, first, last, mid, q);
    }
  }

  lemma WholeOnLine(base: Base, pts: seq<Pt>)
    requires |pts| > 0 && pts[0].x != pts[|pts|-1].x
    ensures var first, last, out := pts[0], pts[|pts|-1], Interpolation(base, pts);
            forall i :: 0 <= i < |pts| ==> out[i].ok && OnLine(base(first).pt, base(last).pt, first, last, pts[i], out[i].pt)
  {
    hide OnLine, Interpolate;
    var first, last, out := pts[0], pts[|pts|-1], Interpolation(base, pts);
    forall i | 0 <= i < |pts| ensures out[i].ok && OnLine(base(first).pt, base(last).pt, first, last, pts[i], out[i].pt) {
      OnLineInterpolates(base(first).pt, base(last).pt, first, last, pts[i], out[i].pt);
    }
  }

  /** The approximation is such a result. */
  lemma {:induction false} ApproxProduces(base: Base, maxError: real, pts: seq<Pt>)
    requires |pts| > 0
    ensures Produces(base, maxError, pts, Approx(base, maxError, pts))
    decreases |pts|
  {
    hide OnLine, Close, Interpolation, MiddleError;
    if Interpolable(maxError, pts) && AllOk(base, pts) {
      MiddleClose(base, maxError, pts);
      if MiddleError(base, pts) <= maxError {
        WholeOnLine(base, pts);
      } else {
        var k, out := Middle(|pts|), Approx(base, maxError, pts);
        ApproxProduces(base, maxError, pts[..k]);
        ApproxProduces(base, maxError, pts[k..]);
        assert out[..k] == Approx(base, maxError, pts[..k]) && out[k..] == Approx(base, maxError, pts[k..]);
      }
    }
  }

  /** There is only one such result. */
  lemma {:induction false} ProducesOne(base: Base, maxError: real, pts: seq<Pt>, a: seq<Image>, b: seq<Image>)
    requires |pts| == |a| == |b| > 0 && Produces(base, maxError, pts, a) && Produces(base, maxError, pts, b)
    ensures a == b
    decreases |pts|
  {
    hide OnLine, Close;
    var m := (|pts| - 1) / 2;
    var first, mid, last := pts[0], pts[m], pts[|pts|-1];
    if Interpolable(maxError, pts) && AllOk(base, pts) {
      if exists q :: OnLine(base(first).pt, base(last).pt, first, last, mid, q) && Close(q, base(mid).pt, maxError) {
        forall i | 0 <= i < |pts| ensures a[i] == b[i] {
          OnLineInterpolates(base(first).pt, base(last).pt, first, last, pts[i], a[i].pt);
          OnLineInterpolates(base(first).pt, base(last).pt, first, last, pts[i], b[i].pt);
        }
      } else {
        ProducesOne(base, maxError, pts[..m], a[..m], b[..m]);
        ProducesOne(base, maxError, pts[m..], a[m..], b[m..]);
        assert a == a[..m] + a[m..] && b == b[..m] + b[m..];
      }
    }
  }

  // ---------------------------------------------------------------------
  //  The transformer
  // ---------------------------------------------------------------------

  ghost function Given(x: array<real>, y: array<real>, z: array<real>, lo: nat, n: nat): (r: seq<Pt>)
    requires lo + n <= x.Length && lo + n <= y.Length && lo + n <= z.Length
    reads x, y, z
    ensures |r| == n && forall i :: 0 <= i < n ==> r[i] == Pt(x[lo + i], y[lo + i], z[lo + i])
  {
    seq(n, i requires 0 <= i < n reads x, y, z => Pt(x[lo + i], y[lo + i], z[lo + i]))
  }

  ghost function Result(x: array<real>, y: array<real>, z: array<real>, s: array<bool>, lo: nat, n: nat): (r: seq<Image>)
    requires lo + n <= x.Length && lo + n <= y.Length && lo + n <= z.Length && lo + n <= s.Length
    reads x, y, z, s
    ensures |r| == n && forall i :: 0 <= i < n ==> r[i] == Image(Pt(x[lo + i], y[lo + i], z[lo + i]), s[lo + i])
  {
    seq(n, i requires 0 <= i < n reads x, y, z, s => Image(Pt(x[lo + i], y[lo + i], z[lo + i]), s[lo + i]))
  }

  predicate Apart(x: array<real>, y: array<real>, z: array<real>) {
    x != y && y != z && x != z
  }

  /** Nothing outside of n points from lo changes. */
  twostate predicate OnlyWithin(x: array<real>, y: array<real>, z: array<real>, s: array<bool>, lo: nat, n: nat)
    reads x, y, z, s
  {
    && (forall i :: 0 <= i < x.Length && !(lo <= i < lo + n) ==> x[i] == old(x[i]))
    && (forall i :: 0 <= i < y.Length && !(lo <= i < lo + n) ==> y[i] == old(y[i]))
    && (forall i :: 0 <= i < z.Length && !(lo <= i < lo + n) ==> z[i] == old(z[i]))
    && (forall i :: 0 <= i < s.Length && !(lo <= i < lo + n) ==> s[i] == old(s[i]))
  }

  method Store(i: nat, image: Image, x: array<real>, y: array<real>, z: array<real>, s: array<bool>)
    requires Apart(x, y, z) && i < x.Length && i < y.Length && i < z.Length && i < s.Length
    modifies x, y, z, s
    ensures Image(Pt(x[i], y[i], z[i]), s[i]) == image && OnlyWithin(x, y, z, s, i, 1)
  {
    x[i], y[i], z[i], s[i] := image.pt.x, image.pt.y, image.pt.z, image.ok;
  }

  /** The base transformer, in place. */
  method BaseTransform(base: Base, x: array<real>, y: array<real>, z: array<real>, s: array<bool>, lo: nat, n: nat)
    requires Apart(x, y, z) && lo + n <= x.Length && lo + n <= y.Length && lo + n <= z.Length && lo + n <= s.Length
    modifies x, y, z, s
    ensures Result(x, y, z, s, lo, n) == Exact(base, old(Given(x, y, z, lo, n)))
    ensures OnlyWithin(x, y, z, s, lo, n)
  {
    ghost var pts := Given(x, y, z, lo, n);
    for i := lo to lo + n
      invariant forall j :: lo <= j < i ==> Image(Pt(x[j], y[j], z[j]), s[j]) == base(pts[j-lo])
      invariant forall j :: i <= j < lo + n ==> Pt(x[j], y[j], z[j]) == pts[j-lo]
      invariant OnlyWithin(x, y, z, s, lo, n)
    {
      var image := base(Pt(x[i], y[i], z[i]));
      Store(i, image, x, y, z, s);
    }
  }

  /** Replaces a run by its interpolation, from the last point to the first, whose x is needed to the end. */
  method InterpolateRun(a: Pt, b: Pt, x: array<real>, y: array<real>, z: array<real>, s: array<bool>, lo: nat, n: nat,
                        ghost pts: seq<Pt>)
    requires Apart(x, y, z) && n > 0 && lo + n <= x.Length && lo + n <= y.Length && lo + n <= z.Length && lo + n <= s.Length
    requires pts == Given(x, y, z, lo, n) && pts[0].x != pts[n-1].x
    modifies x, y, z, s
    ensures Result(x, y, z, s, lo, n) == Interpolated(a, b, pts)
    ensures OnlyWithin(x, y, z, s, lo, n)
  {
    hide Interpolated, Slope, Along;
    var dx := x[lo + n - 1] - x[lo];
    assert dx == pts[n-1].x - pts[0].x;
    var deltaX, deltaY, deltaZ := Slope(a.x, b.x, dx), Slope(a.y, b.y, dx), Slope(a.z, b.z, dx);
    ghost var goal := Interpolated(a, b, pts);
    var i := lo + n - 1;
    while i >= lo
      invariant lo - 1 <= i < lo + n
      invariant forall j :: i < j < lo + n ==> Image(Pt(x[j], y[j], z[j]), s[j]) == goal[j-lo]
      invariant forall j :: lo <= j <= i ==> Pt(x[j], y[j], z[j]) == pts[j-lo]
      invariant OnlyWithin(x, y, z, s, lo, n)
      decreases i
    {
      assert x[lo] == pts[0].x;
      var dist := x[i] - x[lo];
      var image := Image(Pt(Along(a.x, deltaX, dist), Along(a.y, deltaY, dist), Along(a.z, deltaZ, dist)), true);
      assert goal[i-lo] == image;
      Store(i, image, x, y, z, s);
      i := i - 1;
    }
  }

  /** Transforms n points from lo, in place. */
  method Transform(base: Base, maxError: real, x: array<real>, y: array<real>, z: array<real>, s: array<bool>, lo: nat, n: nat,
                   ghost pts: seq<Pt>)
    requires Apart(x, y, z) && n > 0 && lo + n <= x.Length && lo + n <= y.Length && lo + n <= z.Length && lo + n <= s.Length
    requires pts == Given(x, y, z, lo, n)
    modifies x, y, z, s
    ensures Result(x, y, z, s, lo, n) == Approx(base, maxError, pts)
    ensures Produces(base, maxError, pts, Result(x, y, z, s, lo, n))
    ensures OnlyWithin(x, y, z, s, lo, n)
    decreases n, 1
  {
    ApproxProduces(base, maxError, pts);
    var middle := (n - 1) / 2;
    var first, last := Pt(x[lo], y[lo], z[lo]), Pt(x[lo + n - 1], y[lo + n - 1], z[lo + n - 1]);
    var mid := Pt(x[lo + middle], y[lo + middle], z[lo + middle]);
    assert first == pts[0] && mid == pts[middle] && last == pts[n-1];
    if first.y != last.y || first.y != mid.y || first.x == last.x || first.x == mid.x || maxError == 0.0 || n <= 5 {
      BaseTransform(base, x, y, z, s, lo, n);
      return;
    }
    var a, m, b := base(first), base(mid), base(last);
    if !a.ok || !m.ok || !b.ok {
      BaseTransform(base, x, y, z, s, lo, n);
      return;
    }
    if Distance(Interpolate(a.pt, b.pt, first, last, mid), m.pt) > maxError {
      TransformHalves(base, maxError, x, y, z, s, lo, n, middle, pts);
      return;
    }
    InterpolateRun(a.pt, b.pt, x, y, z, s, lo, n, pts);
    assert Result(x, y, z, s, lo, n) == Interpolation(base, pts);
  }

  /** Transforms both halves of a run. */
  method TransformHalves(base: Base, maxError: real, x: array<real>, y: array<real>, z: array<real>, s: array<bool>, lo: nat, n: nat,
                         middle: nat, ghost pts: seq<Pt>)
    requires Apart(x, y, z) && 0 < middle < n && lo + n <= x.Length && lo + n <= y.Length && lo + n <= z.Length && lo + n <= s.Length
    requires pts == Given(x, y, z, lo, n)
    modifies x, y, z, s
    ensures Result(x, y, z, s, lo, n) == Approx(base, maxError, pts[..middle]) + Approx(base, maxError, pts[middle..])
    ensures OnlyWithin(x, y, z, s, lo, n)
    decreases n, 0
  {
    hide Produces, Approx;
    assert Given(x, y, z, lo, middle) == pts[..middle];
    Transform(base, maxError, x, y, z, s, lo, middle, pts[..middle]);
    SecondHalf(x, y, z, lo, n, middle, pts);
    TransformRest(base, maxError, x, y, z, s, lo, n, middle, pts[middle..]);
    TwoResults(x, y, z, s, lo, n, middle);
  }

  /** Transforms the second half; the first one stays. */
  method TransformRest(base: Base, maxError: real, x: array<real>, y: array<real>, z: array<real>, s: array<bool>, lo: nat, n: nat,
                       middle: nat, ghost rest: seq<Pt>)
    requires Apart(x, y, z) && 0 < middle < n && lo + n <= x.Length && lo + n <= y.Length && lo + n <= z.Length && lo + n <= s.Length
    requires rest == Given(x, y, z, lo + middle, n - middle)
    modifies x, y, z, s
    ensures Result(x, y, z, s, lo, middle) == old(Result(x, y, z, s, lo, middle))
    ensures Result(x, y, z, s, lo + middle, n - middle) == Approx(base, maxError, rest)
    ensures OnlyWithin(x, y, z, s, lo + middle, n - middle)
    decreases n - middle, 2
  {
    hide Produces, Approx;
    ghost var left := Result(x, y, z, s, lo, middle);
    Transform(base, maxError, x, y, z, s, lo + middle, n - middle, rest);
    forall k | 0 <= k < middle ensures Result(x, y, z, s, lo, middle)[k] == left[k] {
      assert !(lo + middle <= lo + k < lo + n);
    }
  }

  lemma SecondHalf(x: array<real>, y: array<real>, z: array<real>, lo: nat, n: nat, middle: nat, pts: seq<Pt>)
    requires middle < n == |pts| && lo + n <= x.Length && lo + n <= y.Length && lo + n <= z.Length
    requires forall j :: lo + middle <= j < lo + n ==> Pt(x[j], y[j], z[j]) == pts[j-lo]
    ensures Given(x, y, z, lo + middle, n - middle) == pts[middle..]
  {
  }

  lemma TwoResults(x: array<real>, y: array<real>, z: array<real>, s: array<bool>, lo: nat, n: nat, middle: nat)
    requires middle < n && lo + n <= x.Length && lo + n <= y.Length && lo + n <= z.Length && lo + n <= s.Length
    ensures Result(x, y, z, s, lo, n) == Result(x, y, z, s, lo, middle) + Result(x, y, z, s, lo + middle, n - middle)
  {
  }
}
