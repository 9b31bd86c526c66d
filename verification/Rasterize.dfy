/** Burning geometries into a raster, chunk by chunk of rows (gdalrasterize.cpp). */
module Rasterize {
  import opened Basics
  import opened ScanFill
  import opened LineDraw

  datatype Kind = Points | Lines | Polygons

  /** A geometry in pixel and line coordinates, and the value to burn for it. */
  datatype Geometry = Geometry(kind: Kind, shape: Shape, burnValue: int) {
    ghost predicate Valid() {
      match kind
      case Points => shape.Complete() && |shape.partSizes| <= |shape.xs|
      case Lines => shape.Complete()
      case Polygons => shape.Valid()
    }
  }

  /** Whether a geometry covers a pixel of the whole raster. */
  ghost predicate Covered(g: Geometry, x: int, y: int)
    requires g.Valid()
  {
    match g.kind
    case Points => OnPoint(g.shape, Pixel(x, y))
    case Lines => OnLines(g.shape, Pixel(x, y))
    case Polygons => Inside(g.shape, x, y)
  }

  /** What covering means for each kind: a rounded point, a pixel near a line, or the even-odd rule. */
  lemma CoveredByKind(g: Geometry, x: int, y: int)
    requires g.Valid()
    ensures g.kind.Points? ==>
              (Covered(g, x, y) <==> exists i :: 0 <= i < |g.shape.partSizes| && x == (g.shape.xs[i] + 0.5).Floor && y == (g.shape.ys[i] + 0.5).Floor)
    ensures g.kind.Lines? ==> (Covered(g, x, y) <==> NearLines(g.shape, Pixel(x, y)))
    ensures g.kind.Polygons? ==> (Covered(g, x, y) <==> EvenOdd(g.shape, x, y))
  {
    match g.kind
    case Points =>
    case Lines => LinesAreNear(g.shape, Pixel(x, y));
    case Polygons => InsideEvenOdd(g.shape, x, y);
  }

  /** The value of a pixel after burning the first n geometries in turn: that of the last one that covers it. */
  ghost function Burned(gs: seq<Geometry>, n: nat, x: int, y: int, was: int): int
    requires n <= |gs| && forall k :: 0 <= k < |gs| ==> gs[k].Valid()
  {
    if n == 0 then was
    else if Covered(gs[n-1], x, y) then gs[n-1].burnValue
    else Burned(gs, n - 1, x, y, was)
  }

  lemma {:induction false} LastOneWins(gs: seq<Geometry>, n: nat, k: nat, x: int, y: int, was: int)
    requires k < n <= |gs| && forall k :: 0 <= k < |gs| ==> gs[k].Valid()
    requires Covered(gs[k], x, y) && forall j :: k < j < n ==> !Covered(gs[j], x, y)
    ensures Burned(gs, n, x, y, was) == gs[k].burnValue
  {
    if k < n - 1 { LastOneWins(gs, n - 1, k, x, y, was); }
  }

  lemma {:induction false} NoneCovers(gs: seq<Geometry>, n: nat, x: int, y: int, was: int)
    requires n <= |gs| && forall k :: 0 <= k < |gs| ==> gs[k].Valid()
    requires forall j :: 0 <= j < n ==> !Covered(gs[j], x, y)
    ensures Burned(gs, n, x, y, was) == was
  {
    if n > 0 { NoneCovers(gs, n - 1, x, y, was); }
  }

  // ---------------------------------------------------------------------
  //  Shifting by whole rows
  // ---------------------------------------------------------------------

  function Shifted(s: Shape, yOff: int): (r: Shape)
    ensures |r.ys| == |s.ys| && r.xs == s.xs && r.partSizes == s.partSizes
    ensures forall i :: 0 <= i < |s.ys| ==> r.ys[i] == s.ys[i] - yOff as real
  {
    s.(ys := seq(|s.ys|, i requires 0 <= i < |s.ys| => s.ys[i] - yOff as real))
  }

  lemma RoundShifted(y: real, yOff: int)
    ensures Round(y - yOff as real) == Round(y) - yOff
  {
  }

  lemma EdgeShifted(s: Shape, yOff: int, y: int, i: nat)
    requires s.Valid() && i < |s.xs|
    ensures var e, f := EdgeTo(s, i), EdgeTo(Shifted(s, yOff), i);
            && (f.Crosses(Centre(y)) <==> e.Crosses(Centre(y + yOff)))
            && (e.Crosses(Centre(y + yOff)) ==> f.CrossingAt(Centre(y)) == e.CrossingAt(Centre(y + yOff)))
            && forall x :: OnHorizontal(f, x, y) <==> OnHorizontal(e, x, y + yOff)
  {
  }

  lemma {:induction false} CrossingsShifted(s: Shape, yOff: int, y: int, x: real, n: nat)
    requires s.Valid() && n <= |s.xs|
    ensures CrossingsLeft(Shifted(s, yOff), y, x, n) == CrossingsLeft(s, y + yOff, x, n)
  {
    if n > 0 {
      CrossingsShifted(s, yOff, y, x, n - 1);
      EdgeShifted(s, yOff, y, n - 1);
    }
  }

  lemma InsideShifted(s: Shape, yOff: int, x: int, y: int)
    requires s.Valid()
    ensures Inside(Shifted(s, yOff), x, y) <==> Inside(s, x, y + yOff)
  {
    var t := Shifted(s, yOff);
    CrossingsShifted(s, yOff, y, Centre(x), |s.xs|);
    forall i | 0 <= i < |s.xs| ensures OnHorizontal(EdgeTo(t, i), x, y) <==> OnHorizontal(EdgeTo(s, i), x, y + yOff) {
      EdgeShifted(s, yOff, y, i);
    }
  }

  function Moved(p: Pixel, yOff: int): Pixel {
    Pixel(p.x, p.y - yOff)
  }

  lemma SegmentShifted(s: Shape, yOff: int, i: nat, x: int, y: int)
    requires s.Complete() && 0 < i < |s.xs|
    ensures OnSegment(Shifted(s, yOff), i, Pixel(x, y)) <==> OnSegment(s, i, Pixel(x, y + yOff))
  {
    var g, h := SegmentOf(s, i), SegmentOf(Shifted(s, yOff), i);
    RoundShifted(s.ys[i], yOff);
    RoundShifted(s.ys[i-1], yOff);
    assert h == Segment(Moved(g.start, yOff), Moved(g.end, yOff));
    var a, b := g.Pixels(g.Major() + 1), h.Pixels(h.Major() + 1);
    assert |a| == |b| && forall k :: 0 <= k < |a| ==> b[k] == Moved(a[k], yOff);
    if Pixel(x, y) in b {
      var k :| 0 <= k < |b| && b[k] == Pixel(x, y);
      assert a[k] == Pixel(x, y + yOff);
    }
    if Pixel(x, y + yOff) in a {
      var k :| 0 <= k < |a| && a[k] == Pixel(x, y + yOff);
      assert b[k] == Pixel(x, y);
    }
  }

  function ShiftedGeometry(g: Geometry, yOff: int): Geometry {
    g.(shape := Shifted(g.shape, yOff))
  }

  /** A geometry covers in its own chunk what it covers in the whole raster. */
  lemma CoveredShifted(g: Geometry, yOff: int, x: int, y: int)
    requires g.Valid()
    ensures ShiftedGeometry(g, yOff).Valid()
    ensures Covered(ShiftedGeometry(g, yOff), x, y) <==> Covered(g, x, y + yOff)
  {
    var s, t := g.shape, Shifted(g.shape, yOff);
    match g.kind
    case Points =>
      forall i | 0 <= i < |s.ys| ensures Round(t.ys[i]) == Round(s.ys[i]) - yOff {
        RoundShifted(s.ys[i], yOff);
      }
    case Lines =>
      forall i | 0 < i < |s.xs| ensures OnSegment(t, i, Pixel(x, y)) <==> OnSegment(s, i, Pixel(x, y + yOff)) {
        SegmentShifted(s, yOff, i, x, y);
      }
    case Polygons => InsideShifted(s, yOff, x, y);
  }

  // ---------------------------------------------------------------------
  //  Burning one geometry into a chunk
  // ---------------------------------------------------------------------

  /** Burns the part of a span that is in the buffer. */
  method BurnScanline(buf: array2<int>, ySize: nat, burnValue: int, span: Span)
    requires ySize <= buf.Length0 && Accepted(span, buf.Length1, ySize)
    modifies buf
    ensures forall y, x :: 0 <= y < buf.Length0 && 0 <= x < buf.Length1
                           ==> buf[y, x] == if y == span.y && span.x1 <= x <= span.x2 then burnValue else old(buf[y, x])
  {
    if span.x1 > span.x2 { return; }
    var start := if span.x1 < 0 then 0 else span.x1;
    var end := if span.x2 >= buf.Length1 then buf.Length1 - 1 else span.x2;
    for x := start to end + 1
      invariant forall j, i :: 0 <= j < buf.Length0 && 0 <= i < buf.Length1
                               ==> buf[j, i] == if j == span.y && start <= i < x then burnValue else old(buf[j, i])
    {
      buf[span.y, x] := burnValue;
    }
  }

  method BurnPoint(buf: array2<int>, ySize: nat, burnValue: int, p: Pixel)
    requires ySize <= buf.Length0 && p.InRaster(buf.Length1, ySize)
    modifies buf
    ensures forall y, x :: 0 <= y < buf.Length0 && 0 <= x < buf.Length1
                           ==> buf[y, x] == if Pixel(x, y) == p then burnValue else old(buf[y, x])
  {
    buf[p.y, p.x] := burnValue;
  }

  method BurnScanlines(buf: array2<int>, ySize: nat, burnValue: int, spans: seq<Span>)
    requires ySize <= buf.Length0 && AllAccepted(spans, buf.Length1, ySize)
    modifies buf
    ensures forall y, x :: 0 <= y < buf.Length0 && 0 <= x < buf.Length1
                           ==> buf[y, x] == if Covers(spans, x, y) then burnValue else old(buf[y, x])
  {
    for k := 0 to |spans|
      invariant forall y, x :: 0 <= y < buf.Length0 && 0 <= x < buf.Length1
                               ==> buf[y, x] == if Covers(spans[..k], x, y) then burnValue else old(buf[y, x])
    {
      assert spans[..k+1] == spans[..k] + [spans[k]];
      BurnScanline(buf, ySize, burnValue, spans[k]);
      forall y, x | 0 <= y < buf.Length0 && 0 <= x < buf.Length1
        ensures buf[y, x] == if Covers(spans[..k+1], x, y) then burnValue else old(buf[y, x])
      {
        CoversOneMore(spans[..k], spans[k], x, y);
      }
    }
    assert spans[..|spans|] == spans;
  }

  method BurnPoints(buf: array2<int>, ySize: nat, burnValue: int, points: seq<Pixel>)
    requires ySize <= buf.Length0 && forall p :: p in points ==> p.InRaster(buf.Length1, ySize)
    modifies buf
    ensures forall y, x :: 0 <= y < buf.Length0 && 0 <= x < buf.Length1
                           ==> buf[y, x] == if Pixel(x, y) in points then burnValue else old(buf[y, x])
  {
    for k := 0 to |points|
      invariant forall y, x :: 0 <= y < buf.Length0 && 0 <= x < buf.Length1
                               ==> buf[y, x] == if Pixel(x, y) in points[..k] then burnValue else old(buf[y, x])
    {
      assert points[..k+1] == points[..k] + [points[k]];
      BurnPoint(buf, ySize, burnValue, points[k]);
    }
    assert points[..|points|] == points;
  }

  /** The spans of a polygon in a chunk of ySize rows that starts at row yOff. */
  method PolygonSpans(xSize: nat, ySize: nat, yOff: int, g: Geometry) returns (spans: seq<Span>)
    requires g.Valid() && g.kind.Polygons?
    ensures AllAccepted(spans, xSize, ySize)
    ensures forall x, y :: 0 <= x < xSize && 0 <= y < ySize ==> (Covers(spans, x, y) <==> Covered(g, x, y + yOff))
  {
    var shape := Shifted(g.shape, yOff);
    spans := ImageFilledPolygon(xSize, ySize, shape);
    forall x, y | 0 <= x < xSize && 0 <= y < ySize ensures Covers(spans, x, y) <==> Covered(g, x, y + yOff) {
      InsideShifted(g.shape, yOff, x, y);
    }
  }

  /** The pixels of points or lines in a chunk. */
  method LinePixels(xSize: nat, ySize: nat, yOff: int, g: Geometry) returns (points: seq<Pixel>)
    requires g.Valid() && !g.kind.Polygons?
    ensures forall p :: p in points ==> p.InRaster(xSize, ySize)
    ensures forall x, y :: 0 <= x < xSize && 0 <= y < ySize ==> (Pixel(x, y) in points <==> Covered(g, x, y + yOff))
  {
    var shape := Shifted(g.shape, yOff);
    if g.kind.Points? {
      points := ImagePoint(xSize, ySize, shape);
    } else {
      points := ImageLine(xSize, ySize, shape);
    }
    forall x, y | 0 <= x < xSize && 0 <= y < ySize ensures Pixel(x, y) in points <==> Covered(g, x, y + yOff) {
      CoveredShifted(g, yOff, x, y);
      assert Pixel(x, y).InRaster(xSize, ySize);
    }
  }

  /** Burns one geometry into a chunk of ySize rows that starts at row yOff. */
  method RasterizeOneShape(buf: array2<int>, yOff: int, ySize: nat, g: Geometry)
    requires ySize <= buf.Length0 && g.Valid()
    modifies buf
    ensures forall y, x :: 0 <= y < ySize && 0 <= x < buf.Length1
                           ==> buf[y, x] == if Covered(g, x, y + yOff) then g.burnValue else old(buf[y, x])
  {
    if g.kind.Polygons? {
      var spans := PolygonSpans(buf.Length1, ySize, yOff, g);
      BurnScanlines(buf, ySize, g.burnValue, spans);
    } else {
      var points := LinePixels(buf.Length1, ySize, yOff, g);
      BurnPoints(buf, ySize, g.burnValue, points);
    }
  }

  // ---------------------------------------------------------------------
  //  The chunk loop
  // ---------------------------------------------------------------------

  /** The rows of a chunk that fit in ten million bytes. */
  function ChunkSize(scanlineBytes: nat, ySize: nat): (r: nat)
    requires scanlineBytes > 0
  {
    if 10000000 / scanlineBytes > ySize then ySize else 10000000 / scanlineBytes
  }

  /** The chunk loop gets on exactly when a scanline fits in ten million bytes. */
  lemma ChunkSizePositive(scanlineBytes: nat, ySize: nat)
    requires scanlineBytes > 0 && ySize > 0
    ensures ChunkSize(scanlineBytes, ySize) >= 1 <==> scanlineBytes <= 10000000
  {
  }

  /** The row at which a turn of the chunk loop starts. */
  function RowAfter(turns: nat, chunkSize: nat): nat {
    if turns == 0 then 0 else RowAfter(turns - 1, chunkSize) + chunkSize
  }

  lemma {:induction false} RowsGoBy(turns: nat, chunkSize: nat)
    ensures chunkSize == 0 ==> RowAfter(turns, chunkSize) == 0
    ensures chunkSize >= 1 ==> RowAfter(turns, chunkSize) >= turns
  {
    if turns > 0 { RowsGoBy(turns - 1, chunkSize); }
  }

  /** So it comes to the end of the raster exactly when a scanline fits. */
  lemma ChunkLoopEnds(scanlineBytes: nat, ySize: nat)
    requires scanlineBytes > 0 && ySize > 0
    ensures (exists turns: nat :: RowAfter(turns, ChunkSize(scanlineBytes, ySize)) >= ySize) <==> scanlineBytes <= 10000000
  {
    var chunkSize := ChunkSize(scanlineBytes, ySize);
    ChunkSizePositive(scanlineBytes, ySize);
    RowsGoBy(ySize, chunkSize);
    forall turns: nat ensures chunkSize == 0 ==> RowAfter(turns, chunkSize) == 0 {
      RowsGoBy(turns, chunkSize);
    }
  }

  class Dataset {
    const xSize: nat
    const ySize: nat
    var rows: seq<seq<int>>

    ghost predicate Valid()
      reads this
    {
      |rows| == ySize && forall y :: 0 <= y < ySize ==> |rows[y]| == xSize
    }

    constructor (xSize: nat, ySize: nat, rows: seq<seq<int>>)
      requires |rows| == ySize && forall y :: 0 <= y < ySize ==> |rows[y]| == xSize
      ensures Valid() && this.rows == rows && this.xSize == xSize && this.ySize == ySize
    {
      this.xSize, this.ySize, this.rows := xSize, ySize, rows;
    }

    method ReadRows(y0: nat, n: nat, buf: array2<int>)
      requires Valid() && y0 + n <= ySize && n <= buf.Length0 && buf.Length1 == xSize
      modifies buf
      ensures forall y, x :: 0 <= y < n && 0 <= x < xSize ==> buf[y, x] == rows[y0 + y][x]
    {
      forall y, x | 0 <= y < n && 0 <= x < xSize { buf[y, x] := rows[y0 + y][x]; }
    }

    method WriteRows(y0: nat, n: nat, buf: array2<int>)
      requires Valid() && y0 + n <= ySize && n <= buf.Length0 && buf.Length1 == xSize
      modifies this`rows
      ensures Valid()
      ensures forall y :: 0 <= y < y0 || y0 + n <= y < ySize ==> rows[y] == old(rows[y])
      ensures forall y, x :: 0 <= y < n && 0 <= x < xSize ==> rows[y0 + y][x] == buf[y, x]
    {
      for k := 0 to n
        invariant Valid()
        invariant forall y :: 0 <= y < y0 || y0 + k <= y < ySize ==> rows[y] == old(rows[y])
        invariant forall y, x :: 0 <= y < k && 0 <= x < xSize ==> rows[y0 + y][x] == buf[y, x]
      {
        rows := rows[y0 + k := seq(xSize, x requires 0 <= x < xSize reads buf => buf[k, x])];
      }
    }
  }

  /** The raster that burning all geometries makes of another one. */
  ghost predicate BurnedRows(gs: seq<Geometry>, before: seq<seq<int>>, after: seq<seq<int>>, low: int, high: int)
    requires forall k :: 0 <= k < |gs| ==> gs[k].Valid()
    requires |before| == |after| && forall y :: 0 <= y < |before| ==> |before[y]| == |after[y]|
  {
    forall y, x :: low <= y < high && 0 <= y < |before| && 0 <= x < |before[y]|
                   ==> after[y][x] == Burned(gs, |gs|, x, y, before[y][x])
  }

  /** A pixel of a burned raster holds the value of the last geometry that covers it, or what it held before. */
  lemma BurnedMeans(gs: seq<Geometry>, before: seq<seq<int>>, after: seq<seq<int>>, x: nat, y: nat)
    requires forall k :: 0 <= k < |gs| ==> gs[k].Valid()
    requires |before| == |after| && forall y :: 0 <= y < |before| ==> |before[y]| == |after[y]|
    requires y < |before| && x < |before[y]| && BurnedRows(gs, before, after, 0, |before|)
    ensures (forall k :: 0 <= k < |gs| ==> !Covered(gs[k], x, y)) ==> after[y][x] == before[y][x]
    ensures forall k :: 0 <= k < |gs| && Covered(gs[k], x, y) && (forall j :: k < j < |gs| ==> !Covered(gs[j], x, y))
                        ==> after[y][x] == gs[k].burnValue
  {
    if forall k :: 0 <= k < |gs| ==> !Covered(gs[k], x, y) {
      NoneCovers(gs, |gs|, x, y, before[y][x]);
    }
    forall k | 0 <= k < |gs| && Covered(gs[k], x, y) && forall j :: k < j < |gs| ==> !Covered(gs[j], x, y)
      ensures after[y][x] == gs[k].burnValue
    {
      LastOneWins(gs, |gs|, k, x, y, before[y][x]);
    }
  }

  /** Burns all geometries into the rows of one chunk. */
  method RasterizeChunk(ds: Dataset, gs: seq<Geometry>, y0: nat, n: nat, buf: array2<int>)
    requires ds.Valid() && y0 + n <= ds.ySize && n <= buf.Length0 && buf.Length1 == ds.xSize
    requires forall k :: 0 <= k < |gs| ==> gs[k].Valid()
    modifies ds`rows, buf
    ensures ds.Valid()
    ensures forall y :: 0 <= y < y0 || y0 + n <= y < ds.ySize ==> ds.rows[y] == old(ds.rows[y])
    ensures BurnedRows(gs, old(ds.rows), ds.rows, y0, y0 + n)
  {
    ghost var before := ds.rows;
    ds.ReadRows(y0, n, buf);
    for k := 0 to |gs|
      invariant forall y, x :: 0 <= y < n && 0 <= x < ds.xSize ==> buf[y, x] == Burned(gs, k, x, y + y0, before[y0 + y][x])
      modifies buf
    {
      RasterizeOneShape(buf, y0, n, gs[k]);
    }
    ds.WriteRows(y0, n, buf);
    forall y, x | y0 <= y < y0 + n && 0 <= x < ds.xSize ensures ds.rows[y][x] == Burned(gs, |gs|, x, y, before[y][x]) {
      assert ds.rows[y0 + (y - y0)][x] == buf[y - y0, x];
    }
  }

  /** Burns all geometries: every pixel ends up with the value of the last geometry that covers it, or as
      it was, however many rows a chunk has. */
  method RasterizeChunks(ds: Dataset, gs: seq<Geometry>, chunkSize: nat)
    requires ds.Valid() && (chunkSize >= 1 || ds.ySize == 0)
    requires forall k :: 0 <= k < |gs| ==> gs[k].Valid()
    modifies ds`rows
    ensures ds.Valid() && BurnedRows(gs, old(ds.rows), ds.rows, 0, ds.ySize)
  {
    var buf := new int[chunkSize, ds.xSize];
    var y := 0;
    while y < ds.ySize
      invariant ds.Valid()
      invariant forall j :: 0 <= y <= j < ds.ySize ==> ds.rows[j] == old(ds.rows[j])
      invariant BurnedRows(gs, old(ds.rows), ds.rows, 0, y)
    {
      var n := if chunkSize + y > ds.ySize then ds.ySize - y else chunkSize;
      RasterizeChunk(ds, gs, y, n, buf);
      y := y + chunkSize;
    }
  }

  /** With nothing to burn nothing changes; otherwise the rows go by in chunks. A scanline of more than ten
      million bytes would leave chunks without rows, which never come to the end of the raster. */
  method RasterizeGeometries(ds: Dataset, gs: seq<Geometry>, bandCount: nat, wordBytes: nat)
    requires ds.Valid() && forall k :: 0 <= k < |gs| ==> gs[k].Valid()
    requires bandCount == 0 || |gs| == 0 || 0 < bandCount * ds.xSize * wordBytes <= 10000000
    modifies ds`rows
    ensures ds.Valid() && (bandCount == 0 ==> ds.rows == old(ds.rows))
    ensures bandCount > 0 ==> BurnedRows(gs, old(ds.rows), ds.rows, 0, ds.ySize)
  {
    if bandCount == 0 || |gs| == 0 { return; }
    if ds.ySize > 0 { ChunkSizePositive(bandCount * ds.xSize * wordBytes, ds.ySize); }
    RasterizeChunks(ds, gs, ChunkSize(bandCount * ds.xSize * wordBytes, ds.ySize));
  }

  /** Two rasters burned from the same one are the same: the result does not depend on the chunks. */
  lemma ChunksDoNotMatter(gs: seq<Geometry>, before: seq<seq<int>>, a: seq<seq<int>>, b: seq<seq<int>>)
    requires |before| == |a| == |b|
    requires forall y :: 0 <= y < |before| ==> |before[y]| == |a[y]| == |b[y]|
    requires forall k :: 0 <= k < |gs| ==> gs[k].Valid()
    requires BurnedRows(gs, before, a, 0, |before|) && BurnedRows(gs, before, b, 0, |before|)
    ensures a == b
  {
    forall y | 0 <= y < |a| ensures a[y] == b[y] {
      assert forall x :: 0 <= x < |a[y]| ==> a[y][x] == b[y][x];
    }
  }
}
