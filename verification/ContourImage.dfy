/** The contours of a whole image (contour.cpp): what is fed line by line are the segments of its cells, inside
    and at the border, and every crossing is used.  With nodata a quadrant can have a crossing left over. */
module ContourImage {
  import opened Basics
  import opened ContourCells
  import opened ContourLines

  // ---------------------------------------------------------------------
  //  What is fed
  // ---------------------------------------------------------------------

  function FudgedRows(g: Setup, rows: seq<seq<real>>): (r: seq<seq<real>>)
    requires g.interval > 0.0
    ensures |r| == |rows| && forall j :: 0 <= j < |rows| ==> r[j] == FudgedLine(g, rows[j])
  {
    seq(|rows|, j requires 0 <= j < |rows| => FudgedLine(g, rows[j]))
  }

  /** The image that is contoured is a grid without pixels on a level. */
  lemma FudgedGrid(g: Setup, rows: seq<seq<real>>)
    requires g.Valid() && !g.noDataActive && forall j :: 0 <= j < |rows| ==> |rows[j]| == g.width
    ensures Grid(FudgedRows(g, rows), g.width, g.interval, g.offset)
  {
    var r := FudgedRows(g, rows);
    forall j, i | 0 <= j < |r| && 0 <= i < g.width ensures OffLevels(r[j][i], g.interval, g.offset) {
      PerturbedOffLevels(rows[j][i], g.interval, g.offset);
    }
  }

  /** A line that is off the levels stays as it is. */
  lemma FudgedTwice(g: Setup, line: seq<real>)
    requires g.interval > 0.0
    ensures FudgedLine(g, FudgedLine(g, line)) == FudgedLine(g, line)
  {
    var f := FudgedLine(g, line);
    forall i | 0 <= i < |line| ensures Fudged(g, f[i]) == f[i] {
      PerturbedOffLevels(line[i], g.interval, g.offset);
      PerturbedOffLevels(f[i], g.interval, g.offset);
    }
  }

  /** The line before line j, and line j: outside of the image the nearest one. */
  function Before(rows: seq<seq<real>>, j: nat): seq<real>
    requires j <= |rows| && |rows| > 0
  {
    rows[if j == 0 then 0 else j - 1]
  }

  function Here(rows: seq<seq<real>>, j: nat): seq<real>
    requires j <= |rows| && |rows| > 0
  {
    rows[if j == |rows| then j - 1 else j]
  }

  /** The segments of each line of cells, from the border above the image to the one below it. */
  function ImageParts(g: Setup, rows: seq<seq<real>>): (r: seq<seq<Segment>>)
    requires g.Valid() && |rows| > 0 && forall j :: 0 <= j < |rows| ==> |rows[j]| == g.width
    ensures |r| == |rows| + 1 && forall j :: 0 <= j <= |rows| ==> r[j] == LineAdded(g, Before(rows, j), Here(rows, j), j)
  {
    seq(|rows| + 1, j requires 0 <= j <= |rows| => LineAdded(g, Before(rows, j), Here(rows, j), j))
  }

  lemma NextFed(g: Setup, rows: seq<seq<real>>, r: seq<seq<real>>, n: nat)
    requires g.Valid() && n + 1 < |rows| == g.height && r == FudgedRows(g, rows) && forall j :: 0 <= j < |rows| ==> |rows[j]| == g.width
    ensures FedLines(g, rows, n + 1).added == FedLines(g, rows, n).added + LineAdded(g, Before(r, n), Here(r, n), n)
  {
    LineNumber(g, rows, n);
    OneLineFed(g, FedLines(g, rows, n), rows[n]);
  }

  lemma {:induction false} LinesFed(g: Setup, rows: seq<seq<real>>, r: seq<seq<real>>, parts: seq<seq<Segment>>, n: nat)
    requires g.Valid() && n < |rows| == g.height && r == FudgedRows(g, rows) && forall j :: 0 <= j < |rows| ==> |rows[j]| == g.width
    requires parts == ImageParts(g, r)
    ensures FedLines(g, rows, n).added == Joined(parts, n)
  {
    hide LineAdded;
    if n > 0 {
      LinesFed(g, rows, r, parts, n - 1);
      NextFed(g, rows, r, n - 1);
    }
  }

  /** The last line is fed twice, the second time as its own border. */
  lemma TwiceFed(g: Setup, f: Feed, scanline: seq<real>, curr: seq<real>)
    requires g.Valid() && |f.last| == |scanline| == g.width && Current(f.line) + 1 == g.height && curr == FudgedLine(g, scanline)
    ensures EndFed(g, LineFed(g, f, scanline)).added
            == f.added + LineAdded(g, if f.line == -1 then curr else f.last, curr, Current(f.line)) + LineAdded(g, curr, curr, g.height)
  {
    FudgedTwice(g, scanline);
  }

  lemma LastFed(g: Setup, rows: seq<seq<real>>, r: seq<seq<real>>, n: nat)
    requires g.Valid() && n + 1 == |rows| == g.height && r == FudgedRows(g, rows) && forall j :: 0 <= j < |rows| ==> |rows[j]| == g.width
    ensures FedLines(g, rows, n + 1).added
            == FedLines(g, rows, n).added + LineAdded(g, Before(r, n), r[n], n) + LineAdded(g, r[n], r[n], n + 1)
  {
    hide LineAdded;
    LineNumber(g, rows, n);
    TwiceFed(g, FedLines(g, rows, n), rows[n], r[n]);
  }

  /** What is added for an image are the segments of all its lines of cells, with the borders. */
  lemma ImageFed(g: Setup, rows: seq<seq<real>>)
    requires g.Valid() && 0 < |rows| == g.height && forall j :: 0 <= j < |rows| ==> |rows[j]| == g.width
    ensures FedLines(g, rows, |rows|).added == Joined(ImageParts(g, FudgedRows(g, rows)), |rows| + 1)
  {
    hide LineAdded;
    var n, r := |rows|, FudgedRows(g, rows);
    var parts := ImageParts(g, r);
    LinesFed(g, rows, r, parts, n - 1);
    LastFed(g, rows, r, n - 1);
    assert Joined(parts, n) == Joined(parts, n - 1) + parts[n-1];
  }

  // ---------------------------------------------------------------------
  //  The interior cells are among it
  // ---------------------------------------------------------------------

  /** Inside the image and without nodata, a pixel has its one cell processed. */
  lemma InteriorPixel(g: Setup, rows: seq<seq<real>>, i: nat, j: nat)
    requires g.width > 0 && 0 < i < g.width && 0 < j < g.height == |rows| && !g.noDataActive
    requires forall j :: 0 <= j < |rows| ==> |rows[j]| == g.width
    ensures PixelRects(g, rows[j-1], rows[j], j, i) == [CellRect(rows, i, j)]
  {
  }

  lemma InteriorAdded(g: Setup, rows: seq<seq<real>>, i: nat, j: nat)
    requires g.Valid() && 0 < i < g.width && 0 < j < g.height == |rows| && !g.noDataActive
    requires forall j :: 0 <= j < |rows| ==> |rows[j]| == g.width
    ensures PixelAdded(g, rows[j-1], rows[j], j, i) == CellSegments(CellRect(rows, i, j), g.interval, g.offset)
  {
    InteriorPixel(g, rows, i, j);
    JoinedOne(RectParts(g, [CellRect(rows, i, j)]));
  }

  lemma JoinedOne(parts: seq<seq<Segment>>)
    requires |parts| == 1
    ensures Joined(parts, 1) == parts[0]
  {
    assert Joined(parts, 0) == [];
  }

  /** No part has a segment more often than the next of some other parts; */
  ghost predicate PartsAtMost(a: seq<seq<Segment>>, b: seq<seq<Segment>>, t: Stretch) {
    |a| < |b| && forall i :: 0 <= i < |a| ==> Times(a[i], t) <= Times(b[i+1], t)
  }

  /** nor then has the whole. */
  lemma {:induction false} JoinedAtMost(a: seq<seq<Segment>>, b: seq<seq<Segment>>, n: nat, t: Stretch)
    requires n <= |a| && PartsAtMost(a, b, t)
    ensures Times(Joined(a, n), t) <= Times(Joined(b, n + 1), t)
  {
    if n > 0 {
      JoinedAtMost(a, b, n - 1, t);
      TimesConcat(Joined(a, n - 1), a[n-1], t);
      TimesConcat(Joined(b, n), b[n], t);
    } else {
      NoTimes(t);
    }
  }

  lemma NoTimes(t: Stretch)
    ensures Times([], t) == 0
  {
  }

  lemma PartMore(parts: seq<seq<Segment>>, n: nat, t: Stretch)
    requires n < |parts|
    ensures Times(Joined(parts, n), t) <= Times(Joined(parts, n + 1), t)
  {
    TimesConcat(Joined(parts, n), parts[n], t);
  }

  /** A line adds at least the segments of its interior cells. */
  lemma LineInside(g: Setup, rows: seq<seq<real>>, j: nat, t: Stretch)
    requires g.Valid() && !g.noDataActive && 0 < j < g.height == |rows|
    requires forall j :: 0 <= j < |rows| ==> |rows[j]| == g.width
    ensures Times(LineSegments(rows, g.width, j, g.interval, g.offset), t) <= Times(LineAdded(g, rows[j-1], rows[j], j), t)
  {
    hide Times, Joined;
    var cells, pixels := CellParts(rows, g.width, j, g.interval, g.offset), PixelParts(g, rows[j-1], rows[j], j);
    forall i | 0 <= i < |cells| ensures cells[i] == pixels[i+1] {
      InteriorAdded(g, rows, i + 1, j);
    }
    JoinedAtMost(cells, pixels, g.width - 1, t);
    PartMore(pixels, g.width, t);
  }

  lemma LinesInside(g: Setup, rows: seq<seq<real>>, t: Stretch)
    requires g.Valid() && !g.noDataActive && 0 < |rows| == g.height && forall j :: 0 <= j < |rows| ==> |rows[j]| == g.width
    ensures PartsAtMost(LineParts(rows, g.width, g.interval, g.offset), ImageParts(g, rows), t)
  {
    hide LineAdded, LineSegments;
    var lines, parts := LineParts(rows, g.width, g.interval, g.offset), ImageParts(g, rows);
    forall j | 0 <= j < |lines| ensures Times(lines[j], t) <= Times(parts[j+1], t) {
      LineInside(g, rows, j + 1, t);
    }
  }

  lemma GridAtMost(lines: seq<seq<Segment>>, parts: seq<seq<Segment>>, n: nat, t: Stretch)
    requires n > 0 && |lines| == n - 1 && |parts| == n + 1 && PartsAtMost(lines, parts, t)
    ensures Times(Joined(lines, n - 1), t) <= Times(Joined(parts, n + 1), t)
  {
    JoinedAtMost(lines, parts, n - 1, t);
    PartMore(parts, n, t);
  }

  /** Every segment of every interior cell is part of a line that is written. */
  lemma InteriorWritten(g: Setup, rows: seq<seq<real>>, out: seq<Contour>, t: Stretch)
    requires g.Valid() && !g.noDataActive && 0 < |rows| == g.height && forall j :: 0 <= j < |rows| ==> |rows[j]| == g.width
    requires forall t :: TimesAll(out, t) == Times(FedLines(g, rows, |rows|).added, t)
    ensures Times(GridSegments(FudgedRows(g, rows), g.width, g.interval, g.offset), t) <= TimesAll(out, t)
  {
    var n, r := |rows|, FudgedRows(g, rows);
    LinesInside(g, r, t);
    GridAtMost(LineParts(r, g.width, g.interval, g.offset), ImageParts(g, r), n, t);
    ImageFed(g, rows);
  }

  // ---------------------------------------------------------------------
  //  No crossing is lost
  // ---------------------------------------------------------------------

  /** The corners' values come in two equal pairs of neighbours, one of them off the level. */
  predicate Paired(r: Rect, level: real) {
    || (r.ul.value == r.ll.value && r.lr.value == r.ur.value && (r.ul.value != level || r.lr.value != level))
    || (r.ul.value == r.ur.value && r.ll.value == r.lr.value && (r.ul.value != level || r.ll.value != level))
  }

  /** Every crossing of the cell is the end of a segment, and there are none, two or four. */
  predicate AllUsed(r: Rect, level: real) {
    var n := |Points(r, level, 4)|;
    (n == 0 || n == 2 || n == 4) && 2 * |Segments(r, level)| == n
  }

  lemma PairedUsed(r: Rect, level: real)
    requires Paired(r, level)
    ensures AllUsed(r, level)
  {
    UnrollPoints(r, level);
    if r.Off(level) { NoneTwoOrFour(r, level); }
  }

  /** The four pixels a cell is made of, at the border of the image: two and two are the same pixel. */
  predicate Doubled(ul: real, ll: real, lr: real, ur: real) {
    (ul == ll && ur == lr) || (ul == ur && ll == lr)
  }

  /** Off the level, or of no value. */
  predicate OffOrNone(g: Setup, v: real, level: real) {
    v != level || (g.noDataActive && g.NoData(v))
  }

  /** The quadrants at the border are paired, even where their centre is on the level or a pixel has the nodata value. */
  lemma BorderPaired(g: Setup, i: nat, line: int, ul: real, ll: real, lr: real, ur: real, level: real, n: nat)
    requires OffOrNone(g, ul, level) && OffOrNone(g, ll, level) && OffOrNone(g, lr, level) && OffOrNone(g, ur, level)
    requires Doubled(ul, ll, lr, ur) && n < |Quadrants(g, i, line, ul, ll, lr, ur)|
    ensures Paired(Quadrants(g, i, line, ul, ll, lr, ur)[n], level)
  {
  }

  ghost predicate LineOff(g: Setup, line: seq<real>, level: real) {
    forall i :: 0 <= i < |line| ==> OffOrNone(g, line[i], level)
  }

  /** A cell inside the image that is cut into quadrants because of a nodata corner. */
  predicate NextToNoData(g: Setup, last: seq<real>, curr: seq<real>, line: int, i: nat)
    requires |last| == |curr| == g.width
  {
    && 0 < i < g.width && 0 < line < g.height && g.noDataActive
    && (g.NoData(last[i-1]) || g.NoData(curr[i-1]) || g.NoData(curr[i]) || g.NoData(last[i]))
  }

  /** Every other cell, and every quadrant at the border, uses all of its crossings. */
  lemma PixelUsed(g: Setup, last: seq<real>, curr: seq<real>, line: int, i: nat, n: nat, level: real)
    requires g.width > 0 && |last| == |curr| == g.width && i <= g.width && 0 <= line <= g.height
    requires LineOff(g, last, level) && LineOff(g, curr, level) && (line == 0 || line == g.height ==> last == curr)
    requires !NextToNoData(g, last, curr, line, i) && n < |PixelRects(g, last, curr, line, i)|
    ensures AllUsed(PixelRects(g, last, curr, line, i)[n], level)
  {
    var ul, ur := last[Greater(0, i - 1)], last[Lesser(g.width - 1, i)];
    var ll, lr := curr[Greater(0, i - 1)], curr[Lesser(g.width - 1, i)];
    if 0 < i < g.width && 0 < line < g.height {
      NoneTwoOrFour(PixelRects(g, last, curr, line, i)[n], level);
    } else {
      BorderPaired(g, i, line, ul, ll, lr, ur, level, n);
      PairedUsed(Quadrants(g, i, line, ul, ll, lr, ur)[n], level);
    }
  }

  lemma FudgedOff(g: Setup, line: seq<real>, k: int)
    requires g.interval > 0.0
    ensures LineOff(g, FudgedLine(g, line), LevelAt(k, g.interval, g.offset))
  {
    forall i | 0 <= i < |line| ensures OffOrNone(g, Fudged(g, line[i]), LevelAt(k, g.interval, g.offset)) {
      PerturbedOffLevels(line[i], g.interval, g.offset);
    }
  }

  /** In a whole image no crossing is lost at any level, inside or at the border, but next to nodata. */
  lemma EveryCrossingUsed(g: Setup, rows: seq<seq<real>>, j: nat, i: nat, n: nat, k: int)
    requires g.Valid() && j <= |rows| == g.height && |rows| > 0 && i <= g.width
    requires forall j :: 0 <= j < |rows| ==> |rows[j]| == g.width
    requires !NextToNoData(g, Before(FudgedRows(g, rows), j), Here(FudgedRows(g, rows), j), j, i)
    requires n < |PixelRects(g, Before(FudgedRows(g, rows), j), Here(FudgedRows(g, rows), j), j, i)|
    ensures AllUsed(PixelRects(g, Before(FudgedRows(g, rows), j), Here(FudgedRows(g, rows), j), j, i)[n],
                    LevelAt(k, g.interval, g.offset))
  {
    var r := FudgedRows(g, rows);
    FudgedOff(g, Before(rows, j), k);
    FudgedOff(g, Here(rows, j), k);
    PixelUsed(g, Before(r, j), Here(r, j), j, i, n, LevelAt(k, g.interval, g.offset));
  }

  /** With nodata a quadrant can touch a level at the mean of two corners: its one crossing makes no segment. */
  lemma NoDataLeavesOver()
    ensures var g := Setup(2, 2, 1.0, 0.0, true, -9.0);
            var rows := [[0.5, 1.5], [-9.0, 0.5]];
            FudgedRows(g, rows) == rows && NextToNoData(g, rows[0], rows[1], 1, 1) && |PixelRects(g, rows[0], rows[1], 1, 1)| > 0
            && var r := PixelRects(g, rows[0], rows[1], 1, 1)[0];
               |Points(r, LevelAt(1, 1.0, 0.0), 4)| == 1 && |Segments(r, LevelAt(1, 1.0, 0.0))| == 0
  {
    var g := Setup(2, 2, 1.0, 0.0, true, -9.0);
    var rows := [[0.5, 1.5], [-9.0, 0.5]];
    assert FudgedLine(g, rows[0]) == rows[0] && FudgedLine(g, rows[1]) == rows[1];
    var r := PixelRects(g, rows[0], rows[1], 1, 1)[0];
    assert r.ul.value == 0.5 && r.ll.value == 0.5 && r.ur.value == 1.0;
    assert 0.5 < r.lr.value < 1.0;
    UnrollPoints(r, 1.0);
  }

  // ---------------------------------------------------------------------
  //  Where the cells and quadrants lie
  // ---------------------------------------------------------------------

  /** The point is in a rectangle, its upper and left edges included. */
  predicate Covers(r: Rect, x: real, y: real) {
    r.ul.at.x <= x < r.lr.at.x && r.ul.at.y <= y < r.lr.at.y
  }

  /** The cell between pixel centres that a point is in. */
  predicate InCell(i: int, j: int, x: real, y: real) {
    (x + 0.5).Floor == i && (y + 0.5).Floor == j
  }

  predicate InsideImage(g: Setup, x: real, y: real) {
    0.0 <= x < g.width as real && 0.0 <= y < g.height as real
  }

  predicate AtBorder(g: Setup, line: int, i: int) {
    i <= 0 || i >= g.width || line <= 0 || line >= g.height
  }

  /** The value of the pixel that a point of the cell is in. */
  function PixelUnder(last: seq<real>, curr: seq<real>, line: int, x: real, y: real): real
    requires 0 <= x.Floor < |last| == |curr|
  {
    if y < line as real then last[x.Floor] else curr[x.Floor]
  }

  ghost predicate SomeCovers(rects: seq<Rect>, x: real, y: real) {
    exists n :: 0 <= n < |rects| && Covers(rects[n], x, y)
  }

  lemma SomeOfBoth(a: seq<Rect>, b: seq<Rect>, x: real, y: real)
    ensures SomeCovers(a + b, x, y) <==> SomeCovers(a, x, y) || SomeCovers(b, x, y)
  {
    hide Covers;
    if SomeCovers(a, x, y) {
      var n :| 0 <= n < |a| && Covers(a[n], x, y);
      assert (a + b)[n] == a[n];
    }
    if SomeCovers(b, x, y) {
      var n :| 0 <= n < |b| && Covers(b[n], x, y);
      assert (a + b)[|a| + n] == b[n];
    }
  }

  lemma SomeOfOne(r: Rect, x: real, y: real)
    ensures SomeCovers([r], x, y) <==> Covers(r, x, y)
  {
    hide Covers;
    if Covers(r, x, y) { assert Covers([r][0], x, y); }
  }

  function IfRect(b: bool, r: Rect): seq<Rect> { if b then [r] else [] }

  lemma SomeOfIf(b: bool, r: Rect, x: real, y: real)
    ensures SomeCovers(IfRect(b, r), x, y) <==> b && Covers(r, x, y)
  {
    hide Covers;
    if b { SomeOfOne(r, x, y); }
  }

  /** The pixel of the quadrant that a point is in has a value, and the quadrant is inside the image. */
  predicate QuadrantUsed(g: Setup, i: int, line: int, ul: real, ll: real, lr: real, ur: real, x: real, y: real) {
    if x < i as real then
      i > 0 && (if y < line as real then !g.NoData(ul) && line > 0 else !g.NoData(ll) && line < g.height)
    else
      i < g.width && (if y < line as real then !g.NoData(ur) && line > 0 else !g.NoData(lr) && line < g.height)
  }

  lemma QuadrantsCover(g: Setup, i: nat, line: int, ul: real, ll: real, lr: real, ur: real, x: real, y: real)
    ensures SomeCovers(Quadrants(g, i, line, ul, ll, lr, ur), x, y)
            <==> InCell(i, line, x, y) && QuadrantUsed(g, i, line, ul, ll, lr, ur, x, y)
  {
    hide SomeCovers;
    var q := Quadrants(g, i, line, ul, ll, lr, ur);
    if g.NoData(ul) && g.NoData(ll) && g.NoData(lr) && g.NoData(ur) {
      NoneCovers(x, y);
    } else {
      QuadrantsAre(g, i, line, ul, ll, lr, ur, x, y);
    }
  }

  lemma NoneCovers(x: real, y: real)
    ensures !SomeCovers([], x, y)
  {
  }

  lemma QuadrantsAre(g: Setup, i: nat, line: int, ul: real, ll: real, lr: real, ur: real, x: real, y: real)
    requires !(g.NoData(ul) && g.NoData(ll) && g.NoData(lr) && g.NoData(ur))
    ensures SomeCovers(Quadrants(g, i, line, ul, ll, lr, ur), x, y)
            <==> InCell(i, line, x, y) && QuadrantUsed(g, i, line, ul, ll, lr, ur, x, y)
  {
    hide SomeCovers, Mean;
    var count := Good(g, ul) + Good(g, ll) + Good(g, lr) + Good(g, ur);
    var centre := (Worth(g, ul) + Worth(g, ll) + Worth(g, lr) + Worth(g, ur)) / count as real;
    var top, left, right, bottom := Mean(g, ul, ur), Mean(g, ul, ll), Mean(g, lr, ur), Mean(g, lr, ll);
    var x0, xm, x1, y0, ym, y1 := Half(i, -0.5), i as real, Half(i, 0.5), Half(line, -0.5), line as real, Half(line, 0.5);
    var a := Rect(CornerAt(ul, x0, y0), CornerAt(left, x0, ym), CornerAt(centre, xm, ym), CornerAt(top, xm, y0));
    var b := Rect(CornerAt(left, x0, ym), CornerAt(ll, x0, y1), CornerAt(bottom, xm, y1), CornerAt(centre, xm, ym));
    var c := Rect(CornerAt(centre, xm, ym), CornerAt(bottom, xm, y1), CornerAt(lr, x1, y1), CornerAt(right, x1, ym));
    var d := Rect(CornerAt(top, xm, y0), CornerAt(centre, xm, ym), CornerAt(right, x1, ym), CornerAt(ur, x1, y0));
    var p, q := !g.NoData(ul) && i > 0 && line > 0, !g.NoData(ll) && i > 0 && line < g.height;
    var u, v := !g.NoData(lr) && i < g.width && line < g.height, !g.NoData(ur) && i < g.width && line > 0;
    assert Quadrants(g, i, line, ul, ll, lr, ur) == IfRect(p, a) + IfRect(q, b) + IfRect(u, c) + IfRect(v, d);
    FourCover(p, a, q, b, u, c, v, d, x, y);
  }

  lemma FourCover(p: bool, a: Rect, q: bool, b: Rect, u: bool, c: Rect, v: bool, d: Rect, x: real, y: real)
    ensures SomeCovers(IfRect(p, a) + IfRect(q, b) + IfRect(u, c) + IfRect(v, d), x, y)
            <==> (p && Covers(a, x, y)) || (q && Covers(b, x, y)) || (u && Covers(c, x, y)) || (v && Covers(d, x, y))
  {
    hide SomeCovers, Covers, IfRect;
    SomeOfBoth(IfRect(p, a), IfRect(q, b), x, y);
    SomeOfBoth(IfRect(p, a) + IfRect(q, b), IfRect(u, c), x, y);
    SomeOfBoth(IfRect(p, a) + IfRect(q, b) + IfRect(u, c), IfRect(v, d), x, y);
    SomeOfIf(p, a, x, y);
    SomeOfIf(q, b, x, y);
    SomeOfIf(u, c, x, y);
    SomeOfIf(v, d, x, y);
  }

  /** What a pixel has processed covers the part of its cell in the image, but for pixels without a value. */
  lemma CellCovered(g: Setup, last: seq<real>, curr: seq<real>, line: int, i: nat, x: real, y: real)
    requires g.width > 0 && |last| == |curr| == g.width && i <= g.width && 0 <= line <= g.height
    ensures SomeCovers(PixelRects(g, last, curr, line, i), x, y)
            <==> InCell(i, line, x, y) && InsideImage(g, x, y)
                 && !(g.NoData(PixelUnder(last, curr, line, x, y)) && (g.noDataActive || AtBorder(g, line, i)))
  {
    hide SomeCovers, Quadrants;
    var ul, ur := last[Greater(0, i - 1)], last[Lesser(g.width - 1, i)];
    var ll, lr := curr[Greater(0, i - 1)], curr[Lesser(g.width - 1, i)];
    QuadrantsCover(g, i, line, ul, ll, lr, ur, x, y);
    var rects := PixelRects(g, last, curr, line, i);
    if |rects| == 1 { SomeOfOne(rects[0], x, y); }
  }

  /** No two of its rectangles overlap. */
  lemma CellOnce(g: Setup, last: seq<real>, curr: seq<real>, line: int, i: nat, x: real, y: real, n: nat, m: nat)
    requires g.width > 0 && |last| == |curr| == g.width && i <= g.width && 0 <= line <= g.height
    requires n < m < |PixelRects(g, last, curr, line, i)|
    ensures !(Covers(PixelRects(g, last, curr, line, i)[n], x, y) && Covers(PixelRects(g, last, curr, line, i)[m], x, y))
  {
  }

  function Clamp(k: int, n: nat): nat
    requires n > 0
    ensures Clamp(k, n) < n
  {
    Lesser(n - 1, Greater(0, k))
  }

  /** The mean of the four pixels around a point; outside of the image the nearest pixel stands in. */
  function Sample(rows: seq<seq<real>>, width: nat, x: real, y: real): real
    requires width > 0 && |rows| > 0 && forall j :: 0 <= j < |rows| ==> |rows[j]| == width
  {
    var i0, i1 := Clamp((x - 0.5).Floor, width), Clamp(Ceil(x - 0.5), width);
    var j0, j1 := Clamp((y - 0.5).Floor, |rows|), Clamp(Ceil(y - 0.5), |rows|);
    (rows[j0][i0] + rows[j0][i1] + rows[j1][i0] + rows[j1][i1]) / 4.0
  }

  predicate Sampled(rows: seq<seq<real>>, width: nat, c: Corner)
    requires width > 0 && |rows| > 0 && forall j :: 0 <= j < |rows| ==> |rows[j]| == width
  {
    c.value == Sample(rows, width, c.at.x, c.at.y)
  }

  /** The lines above and below a line of cells, and the pixels left and right of a cell's middle. */
  lemma SampleIs(rows: seq<seq<real>>, width: nat, x: real, y: real, i0: int, i1: int, j0: int, j1: int)
    requires width > 0 && |rows| > 0 && forall j :: 0 <= j < |rows| ==> |rows[j]| == width
    requires (x - 0.5).Floor == i0 && Ceil(x - 0.5) == i1 && (y - 0.5).Floor == j0 && Ceil(y - 0.5) == j1
    ensures Sample(rows, width, x, y)
            == (rows[Clamp(j0, |rows|)][Clamp(i0, width)] + rows[Clamp(j0, |rows|)][Clamp(i1, width)]
                + rows[Clamp(j1, |rows|)][Clamp(i0, width)] + rows[Clamp(j1, |rows|)][Clamp(i1, width)]) / 4.0
  {
  }

  lemma HalfSteps(i: int)
    ensures (Half(i, -0.5) - 0.5).Floor == Ceil(Half(i, -0.5) - 0.5) == i - 1
    ensures (i as real - 0.5).Floor == i - 1 && Ceil(i as real - 0.5) == i
    ensures (Half(i, 0.5) - 0.5).Floor == Ceil(Half(i, 0.5) - 0.5) == i
  {
  }

  /** The samples at the nine places where a cell's rectangles have corners. */
  lemma CellSamples(rows: seq<seq<real>>, width: nat, j: nat, i: nat, ul: real, ll: real, lr: real, ur: real)
    requires width > 0 && 0 < |rows| && forall j :: 0 <= j < |rows| ==> |rows[j]| == width
    requires j <= |rows| && i <= width
    requires ul == Before(rows, j)[Clamp(i - 1, width)] && ur == Before(rows, j)[Clamp(i, width)]
    requires ll == Here(rows, j)[Clamp(i - 1, width)] && lr == Here(rows, j)[Clamp(i, width)]
    ensures Sample(rows, width, Half(i, -0.5), Half(j, -0.5)) == ul && Sample(rows, width, Half(i, 0.5), Half(j, -0.5)) == ur
    ensures Sample(rows, width, Half(i, -0.5), Half(j, 0.5)) == ll && Sample(rows, width, Half(i, 0.5), Half(j, 0.5)) == lr
    ensures Sample(rows, width, i as real, Half(j, -0.5)) == (ul + ur) / 2.0
    ensures Sample(rows, width, i as real, Half(j, 0.5)) == (lr + ll) / 2.0
    ensures Sample(rows, width, Half(i, -0.5), j as real) == (ul + ll) / 2.0
    ensures Sample(rows, width, Half(i, 0.5), j as real) == (lr + ur) / 2.0
    ensures Sample(rows, width, i as real, j as real) == (ul + ll + lr + ur) / 4.0
  {
    hide Sample, Half, Ceil;
    HalfSteps(i);
    HalfSteps(j);
    assert Before(rows, j) == rows[Clamp(j - 1, |rows|)] && Here(rows, j) == rows[Clamp(j, |rows|)];
    SampleIs(rows, width, Half(i, -0.5), Half(j, -0.5), i - 1, i - 1, j - 1, j - 1);
    SampleIs(rows, width, Half(i, 0.5), Half(j, -0.5), i, i, j - 1, j - 1);
    SampleIs(rows, width, Half(i, -0.5), Half(j, 0.5), i - 1, i - 1, j, j);
    SampleIs(rows, width, Half(i, 0.5), Half(j, 0.5), i, i, j, j);
    SampleIs(rows, width, i as real, Half(j, -0.5), i - 1, i, j - 1, j - 1);
    SampleIs(rows, width, i as real, Half(j, 0.5), i - 1, i, j, j);
    SampleIs(rows, width, Half(i, -0.5), j as real, i - 1, i - 1, j - 1, j);
    SampleIs(rows, width, Half(i, 0.5), j as real, i, i, j - 1, j);
    SampleIs(rows, width, i as real, j as real, i - 1, i, j - 1, j);
  }

  /** Where no pixel is without a value, every corner has the mean of the pixels around it. */
  lemma CornersSampled(g: Setup, rows: seq<seq<real>>, j: nat, i: nat, n: nat)
    requires g.width > 0 && 0 < |rows| == g.height && forall j :: 0 <= j < |rows| ==> |rows[j]| == g.width
    requires j <= |rows| && i <= g.width && n < |PixelRects(g, Before(rows, j), Here(rows, j), j, i)|
    requires forall y, x :: 0 <= y < |rows| && 0 <= x < g.width ==> !g.NoData(rows[y][x])
    ensures var r := PixelRects(g, Before(rows, j), Here(rows, j), j, i)[n];
            Sampled(rows, g.width, r.ul) && Sampled(rows, g.width, r.ll) && Sampled(rows, g.width, r.lr) && Sampled(rows, g.width, r.ur)
  {
    hide Sample, Half;
    var last, curr, w := Before(rows, j), Here(rows, j), g.width;
    CellSamples(rows, w, j, i, last[Clamp(i - 1, w)], curr[Clamp(i - 1, w)], curr[Clamp(i, w)], last[Clamp(i, w)]);
  }

  // ---------------------------------------------------------------------
  //  Where the lines run
  // ---------------------------------------------------------------------

  lemma {:induction false} JoinedFrom(parts: seq<seq<Segment>>, n: nat, s: Segment) returns (i: nat)
    requires n <= |parts| && s in Joined(parts, n)
    ensures i < n && s in parts[i]
  {
    if s in parts[n-1] { i := n - 1; } else { i := JoinedFrom(parts, n - 1, s); }
  }

  /** A segment at one of the levels, between two places where edges of a cell or quadrant of the image reach it. */
  ghost predicate Traced(g: Setup, r: seq<seq<real>>, s: Segment)
    requires g.Valid() && |r| > 0 && forall j :: 0 <= j < |r| ==> |r[j]| == g.width
  {
    IsLevel(s.level, g.interval, g.offset)
    && exists j: nat, i: nat, n: nat ::
         j <= |r| && i <= g.width && n < |PixelRects(g, Before(r, j), Here(r, j), j, i)|
         && Interpolates(PixelRects(g, Before(r, j), Here(r, j), j, i)[n], s)
  }

  lemma PixelTraced(g: Setup, r: seq<seq<real>>, j: nat, i: nat, s: Segment)
    requires g.Valid() && |r| > 0 && forall j :: 0 <= j < |r| ==> |r[j]| == g.width
    requires j <= |r| && i <= g.width && s in PixelAdded(g, Before(r, j), Here(r, j), j, i)
    ensures Traced(g, r, s)
  {
    hide PixelRects, CellSegments, Interpolates;
    var rects := PixelRects(g, Before(r, j), Here(r, j), j, i);
    var n := JoinedFrom(RectParts(g, rects), |rects|, s);
    CellReaches(rects[n], g.interval, g.offset, s);
  }

  /** Every segment of an image is such a segment. */
  lemma AddedTraced(g: Setup, rows: seq<seq<real>>, s: Segment)
    requires g.Valid() && 0 < |rows| == g.height && forall j :: 0 <= j < |rows| ==> |rows[j]| == g.width
    requires s in FedLines(g, rows, |rows|).added
    ensures Traced(g, FudgedRows(g, rows), s)
  {
    hide PixelAdded, Traced, FedLines;
    var r := FudgedRows(g, rows);
    ImageFed(g, rows);
    var j := JoinedFrom(ImageParts(g, r), |rows| + 1, s);
    var i := JoinedFrom(PixelParts(g, Before(r, j), Here(r, j), j), g.width + 1, s);
    PixelTraced(g, r, j, i, s);
  }

  lemma TimesOf(segs: seq<Segment>, t: Stretch) returns (i: nat)
    requires Times(segs, t) > 0
    ensures i < |segs| && Undirected(segs[i]) == t
  {
    assert t in Stretches(segs);
    i :| 0 <= i < |segs| && Stretches(segs)[i] == t;
  }

  lemma TimesOfMember(segs: seq<Segment>, i: nat)
    requires i < |segs|
    ensures Times(segs, Undirected(segs[i])) > 0
  {
    assert Stretches(segs)[i] == Undirected(segs[i]);
  }

  lemma {:induction false} TimesOfContour(out: seq<Contour>, n: nat, c: nat, t: Stretch)
    requires c < n <= |out| && Times(out[c].segs, t) > 0
    ensures TimesIn(out, n, t) > 0
  {
    hide Times;
    if c < n - 1 { TimesOfContour(out, n - 1, c, t); }
  }

  lemma FlippedTraced(g: Setup, r: seq<seq<real>>, s: Segment, t: Segment)
    requires g.Valid() && |r| > 0 && forall j :: 0 <= j < |r| ==> |r[j]| == g.width
    requires Traced(g, r, t) && Undirected(s) == Undirected(t)
    ensures Traced(g, r, s)
  {
    hide OnEdge, PixelRects, IsLevel;
    assert s == t || s == Flipped(t) by {
      assert s.a in {t.a, t.b} && s.b in {t.a, t.b} && t.a in {s.a, s.b} && t.b in {s.a, s.b};
    }
  }

  /** So is every segment of the contours that are written. */
  lemma WrittenTraced(g: Setup, rows: seq<seq<real>>, out: seq<Contour>, c: nat, k: nat)
    requires g.Valid() && 0 < |rows| == g.height && forall j :: 0 <= j < |rows| ==> |rows[j]| == g.width
    requires forall t :: TimesAll(out, t) == Times(FedLines(g, rows, |rows|).added, t)
    requires c < |out| && k < |out[c].segs|
    ensures Traced(g, FudgedRows(g, rows), out[c].segs[k])
  {
    hide Traced, Times, Undirected, FedLines;
    var added, s := FedLines(g, rows, |rows|).added, out[c].segs[k];
    TimesOfMember(out[c].segs, k);
    TimesOfContour(out, |out|, c, Undirected(s));
    var i := TimesOf(added, Undirected(s));
    AddedTraced(g, rows, added[i]);
    FlippedTraced(g, FudgedRows(g, rows), s, added[i]);
  }

  /** Within a ten-thousandth of each other, in x and in y. */
  predicate Beside(p: Point, q: Point) {
    -0.0001 < p.x - q.x < 0.0001 && -0.0001 < p.y - q.y < 0.0001
  }

  lemma NearIsBeside(p: Point, q: Point)
    ensures Near(p, q) <==> Beside(p, q)
  {
  }

  /** Every edge of a line runs along such a segment of its level. */
  ghost predicate LineTraced(g: Setup, r: seq<seq<real>>, line: Polyline)
    requires g.Valid() && |r| > 0 && forall j :: 0 <= j < |r| ==> |r[j]| == g.width
  {
    forall k :: 0 <= k < |line.points| - 1 ==>
      exists s :: Traced(g, r, s) && s.level == line.level && Beside(line.points[k], s.a) && Beside(line.points[k+1], s.b)
  }

  lemma LinesTraced(g: Setup, rows: seq<seq<real>>, lines: seq<Polyline>, out: seq<Contour>)
    requires g.Valid() && 0 < |rows| == g.height && forall j :: 0 <= j < |rows| ==> |rows[j]| == g.width
    requires Written(lines, out) && forall t :: TimesAll(out, t) == Times(FedLines(g, rows, |rows|).added, t)
    ensures forall i :: 0 <= i < |lines| ==> LineTraced(g, FudgedRows(g, rows), lines[i])
  {
    hide Traced, Near, Beside, FedLines;
    forall i, k | 0 <= i < |lines| && 0 <= k < |lines[i].points| - 1
      ensures exists s :: Traced(g, FudgedRows(g, rows), s) && s.level == lines[i].level
                          && Beside(lines[i].points[k], s.a) && Beside(lines[i].points[k+1], s.b)
    {
      assert Sound(out[i]);
      var s := out[i].segs[k];
      assert RunsAlong(lines[i].points[k], lines[i].points[k+1], s);
      NearIsBeside(lines[i].points[k], s.a);
      NearIsBeside(lines[i].points[k+1], s.b);
      WrittenTraced(g, rows, out, i, k);
    }
  }

  /** The contours of an image: sound lines that run, all together, once along every segment, and nowhere else. */
  method ContourGenerate(g: Setup, rows: seq<seq<real>>) returns (lines: seq<Polyline>, ghost out: seq<Contour>)
    requires g.Valid() && |rows| == g.height && forall j :: 0 <= j < |rows| ==> |rows[j]| == g.width
    ensures Written(lines, out) && forall t :: TimesAll(out, t) == Times(FedLines(g, rows, |rows|).added, t)
    ensures EdgeCount(lines, |lines|) == |FedLines(g, rows, |rows|).added|
    ensures |rows| > 0 ==> forall i :: 0 <= i < |lines| ==> LineTraced(g, FudgedRows(g, rows), lines[i])
  {
    var generator := new ContourGenerator(g);
    FeedAll(generator, rows);
    lines, out := generator.written, generator.out;
    AllWritten(generator);
    EdgesAddUp(lines, out, generator.added);
    if |rows| > 0 { LinesTraced(g, rows, lines, out); }
  }
}
