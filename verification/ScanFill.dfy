/** Scanline conversion of polygons (llrasterize.cpp): rounded edge crossings of a row are sorted and
    paired, which comes to the even-odd rule at the pixel centres. */
module ScanFill {
  /** Rings one after another; neither of them has to be closed explicitly. */
  datatype Shape = Shape(partSizes: seq<nat>, xs: seq<real>, ys: seq<real>) {
    ghost predicate Complete() {
      |xs| == |ys| == Sum(partSizes)
    }

    ghost predicate Valid() {
      Complete() && forall k :: 0 <= k < |partSizes| ==> partSizes[k] >= 1
    }
  }

  /** A scanline chunk, ends included. */
  datatype Span = Span(y: int, x1: int, x2: int)

  function Round(x: real): int {
    (x + 0.5).Floor
  }

  /** Conversion to an integer drops the fraction. */
  function Trunc(x: real): int {
    if x >= 0.0 then x.Floor else -((-x).Floor)
  }

  function Centre(k: int): real {
    k as real + 0.5
  }

  /** A rounded position is at or before a pixel exactly when it lies left of the pixel's centre. */
  lemma RoundedLeft(c: real, x: int)
    ensures Round(c) <= x <==> c < Centre(x)
  {
  }

  // ---------------------------------------------------------------------
  //  Rings
  // ---------------------------------------------------------------------

  function Sum(sizes: seq<nat>): nat {
    if |sizes| == 0 then 0 else Sum(sizes[..|sizes|-1]) + sizes[|sizes|-1]
  }

  function PartStart(sizes: seq<nat>, k: nat): nat
    requires k <= |sizes|
  {
    Sum(sizes[..k])
  }

  lemma PartStartNext(sizes: seq<nat>, k: nat)
    requires k < |sizes|
    ensures PartStart(sizes, k + 1) == PartStart(sizes, k) + sizes[k]
  {
    assert sizes[..k+1][..k] == sizes[..k];
  }

  /** The vertex before vertex i in its ring. */
  ghost function Before(sizes: seq<nat>, i: nat): (j: nat)
    requires i < Sum(sizes)
    ensures j < Sum(sizes)
  {
    var rest, last := sizes[..|sizes|-1], sizes[|sizes|-1];
    if i < Sum(rest) then Before(rest, i)
    else if i == Sum(rest) then Sum(rest) + last - 1 else i - 1
  }

  lemma {:induction false} BeforeInPart(sizes: seq<nat>, k: nat, i: nat)
    requires k < |sizes| && PartStart(sizes, k) <= i < PartStart(sizes, k) + sizes[k]
    ensures i < Sum(sizes)
    ensures Before(sizes, i) == if i == PartStart(sizes, k) then PartStart(sizes, k) + sizes[k] - 1 else i - 1
  {
    var n := |sizes| - 1;
    if k < n {
      assert sizes[..n][..k] == sizes[..k];
      BeforeInPart(sizes[..n], k, i);
    }
  }

  lemma {:induction false} PartStartInside(sizes: seq<nat>, k: nat)
    requires k <= |sizes|
    ensures PartStart(sizes, k) <= Sum(sizes)
  {
    if k == |sizes| {
      assert sizes[..k] == sizes;
    } else {
      var n := |sizes| - 1;
      assert sizes[..n][..k] == sizes[..k];
      PartStartInside(sizes[..n], k);
    }
  }

  // ---------------------------------------------------------------------
  //  Crossings of a row
  // ---------------------------------------------------------------------

  /** The ends of the edge that leads to vertex i. */
  datatype Edge = Edge(x1: real, y1: real, x2: real, y2: real) {
    /** The edge meets the height d, its lower end included and its upper end not. */
    predicate Crosses(d: real) {
      y1 <= d < y2 || y2 <= d < y1
    }

    function CrossingAt(d: real): real
      requires y1 != y2
    {
      if y1 < y2 then Along(d - y1, x2 - x1, y2 - y1) + x1 else Along(d - y2, x1 - x2, y1 - y2) + x2
    }

    /** A horizontal edge that runs right to left at height d. */
    predicate RightToLeft(d: real) {
      y1 == y2 == d && x1 > x2
    }
  }

  function Along(t: real, dx: real, dy: real): real
    requires dy != 0.0
  {
    t * dx / dy
  }

  /** A crossing lies on its edge. */
  lemma CrossingOnEdge(e: Edge, d: real)
    requires e.Crosses(d)
    ensures (e.CrossingAt(d) - e.x1) * (e.y2 - e.y1) == (d - e.y1) * (e.x2 - e.x1)
  {
  }

  ghost function EdgeTo(s: Shape, i: nat): Edge
    requires s.Valid() && i < |s.xs|
  {
    var j := Before(s.partSizes, i);
    Edge(s.xs[j], s.ys[j], s.xs[i], s.ys[i])
  }

  /** The crossings of row y with the first n edges that lie strictly left of x. */
  ghost function CrossingsLeft(s: Shape, y: int, x: real, n: nat): nat
    requires s.Valid() && n <= |s.xs|
  {
    if n == 0 then 0
    else CrossingsLeft(s, y, x, n - 1)
         + (if EdgeTo(s, n - 1).Crosses(Centre(y)) && EdgeTo(s, n - 1).CrossingAt(Centre(y)) < x then 1 else 0)
  }

  /** The rounded crossings, in the order of the edges. */
  ghost function RoundedCrossings(s: Shape, y: int, n: nat): (r: seq<int>)
    requires s.Valid() && n <= |s.xs|
    ensures |r| <= n
  {
    if n == 0 then []
    else if EdgeTo(s, n - 1).Crosses(Centre(y)) then
      RoundedCrossings(s, y, n - 1) + [Round(EdgeTo(s, n - 1).CrossingAt(Centre(y)))]
    else RoundedCrossings(s, y, n - 1)
  }

  /** Whether the pixel is in the rounded span of a right-to-left edge at its row's centre. */
  ghost predicate InHorizontal(s: Shape, x: int, y: int, n: nat)
    requires s.Valid() && n <= |s.xs|
  {
    exists i :: 0 <= i < n && OnHorizontal(EdgeTo(s, i), x, y)
  }

  predicate OnHorizontal(e: Edge, x: int, y: int) {
    e.RightToLeft(Centre(y)) && Round(e.x2) <= x < Round(e.x1)
  }

  /** What the fill has to cover: the even-odd rule at the pixel's centre, and the horizontal edges. */
  ghost predicate Inside(s: Shape, x: int, y: int)
    requires s.Valid()
  {
    CrossingsLeft(s, y, Centre(x), |s.xs|) % 2 == 1 || InHorizontal(s, x, y, |s.xs|)
  }

  // ---------------------------------------------------------------------
  //  The same by products
  // ---------------------------------------------------------------------

  /** The edge meets the height y, its upper end left out, strictly left of x. */
  ghost predicate LeftOf(e: Edge, x: real, y: real) {
    || (e.y1 <= y < e.y2 && (y - e.y1) * (e.x2 - e.x1) < (x - e.x1) * (e.y2 - e.y1))
    || (e.y2 <= y < e.y1 && (y - e.y1) * (e.x2 - e.x1) > (x - e.x1) * (e.y2 - e.y1))
  }

  /** How many of the first n edges meet the row of a pixel's centre left of that centre. */
  ghost function LeftCount(s: Shape, x: int, y: int, n: nat): nat
    requires s.Valid() && n <= |s.xs|
  {
    if n == 0 then 0
    else LeftCount(s, x, y, n - 1) + (if LeftOf(EdgeTo(s, n - 1), x as real + 0.5, y as real + 0.5) then 1 else 0)
  }

  /** The pixel is between the rounded ends of an edge that runs right to left through its row's centre. */
  ghost predicate OnFlatEdge(s: Shape, x: int, y: int)
    requires s.Valid()
  {
    exists i {:trigger EdgeTo(s, i)} :: 0 <= i < |s.xs|
      && s.ys[i] == EdgeTo(s, i).y1 == y as real + 0.5 && (s.xs[i] + 0.5).Floor <= x < (EdgeTo(s, i).x1 + 0.5).Floor && EdgeTo(s, i).x1 > s.xs[i]
  }

  ghost predicate EvenOdd(s: Shape, x: int, y: int)
    requires s.Valid()
  {
    LeftCount(s, x, y, |s.xs|) % 2 == 1 || OnFlatEdge(s, x, y)
  }

  lemma OrderTimes(a: real, b: real, c: real)
    ensures c > 0.0 ==> (a < b <==> a * c < b * c)
    ensures c < 0.0 ==> (a < b <==> a * c > b * c)
  {
  }

  lemma CrossingLeftOf(e: Edge, x: real, y: real)
    ensures e.Crosses(y) && e.CrossingAt(y) < x <==> LeftOf(e, x, y)
  {
    hide Edge.CrossingAt;
    if e.Crosses(y) {
      CrossingOnEdge(e, y);
      OrderTimes(e.CrossingAt(y) - e.x1, x - e.x1, e.y2 - e.y1);
    }
  }

  lemma {:induction false} LeftCounts(s: Shape, x: int, y: int, n: nat)
    requires s.Valid() && n <= |s.xs|
    ensures CrossingsLeft(s, y, Centre(x), n) == LeftCount(s, x, y, n)
  {
    hide LeftOf, Edge.Crosses, Edge.CrossingAt, EdgeTo;
    if n > 0 {
      LeftCounts(s, x, y, n - 1);
      CrossingLeftOf(EdgeTo(s, n - 1), x as real + 0.5, y as real + 0.5);
    }
  }

  lemma InsideEvenOdd(s: Shape, x: int, y: int)
    requires s.Valid()
    ensures Inside(s, x, y) <==> EvenOdd(s, x, y)
  {
    LeftCounts(s, x, y, |s.xs|);
    FlatEdges(s, x, y);
  }

  lemma FlatEdges(s: Shape, x: int, y: int)
    requires s.Valid()
    ensures InHorizontal(s, x, y, |s.xs|) <==> OnFlatEdge(s, x, y)
  {
    forall i | 0 <= i < |s.xs|
      ensures OnHorizontal(EdgeTo(s, i), x, y)
              <==> s.ys[i] == EdgeTo(s, i).y1 == y as real + 0.5 && (s.xs[i] + 0.5).Floor <= x < (EdgeTo(s, i).x1 + 0.5).Floor
                   && EdgeTo(s, i).x1 > s.xs[i]
    {
    }
  }

  // ---------------------------------------------------------------------
  //  A row has an even number of crossings
  // ---------------------------------------------------------------------

  predicate Below(s: Shape, i: int, y: int) {
    0 <= i < |s.ys| && s.ys[i] <= Centre(y)
  }

  /** One edge changes the parity exactly when its ends are on different sides of the row's centre. */
  lemma ParityOfEdge(s: Shape, y: int, i: nat)
    requires s.Valid() && i < |s.xs|
    ensures OddCount(s, y, i + 1) == (OddCount(s, y, i) != (Below(s, Before(s.partSizes, i), y) != Below(s, i, y)))
  {
    var j := Before(s.partSizes, i);
    CrossesBetweenSides(EdgeTo(s, i), Centre(y));
    assert EdgeTo(s, i).Crosses(Centre(y)) <==> Below(s, j, y) != Below(s, i, y);
    var n := |RoundedCrossings(s, y, i)|;
    assert |RoundedCrossings(s, y, i + 1)| == if EdgeTo(s, i).Crosses(Centre(y)) then n + 1 else n;
    OneMoreIsOdd(n);
  }

  lemma CrossesBetweenSides(e: Edge, d: real)
    ensures e.Crosses(d) <==> (e.y1 <= d) != (e.y2 <= d)
  {
  }

  lemma OneMoreIsOdd(n: nat)
    ensures (n + 1) % 2 == 1 <==> !(n % 2 == 1)
  {
  }

  /** Whether the first n edges cross the row an odd number of times. */
  ghost predicate OddCount(s: Shape, y: int, n: nat)
    requires s.Valid() && n <= |s.xs|
  {
    |RoundedCrossings(s, y, n)| % 2 == 1
  }

  lemma {:induction false} ParityInPart(s: Shape, y: int, k: nat, i: nat)
    requires s.Valid() && k < |s.partSizes| && i < s.partSizes[k]
    requires PartStart(s.partSizes, k) + s.partSizes[k] <= |s.xs|
    ensures var start := PartStart(s.partSizes, k);
            OddCount(s, y, start + i + 1)
            == (OddCount(s, y, start) != (Below(s, start + s.partSizes[k] - 1, y) != Below(s, start + i, y)))
  {
    hide EdgeTo, OddCount;
    var start := PartStart(s.partSizes, k);
    BeforeInPart(s.partSizes, k, start + i);
    ParityOfEdge(s, y, start + i);
    if i > 0 {
      ParityInPart(s, y, k, i - 1);
    }
  }

  lemma {:induction false} EvenUpTo(s: Shape, y: int, k: nat)
    requires s.Valid() && k <= |s.partSizes|
    ensures PartStart(s.partSizes, k) <= |s.xs| && !OddCount(s, y, PartStart(s.partSizes, k))
  {
    PartStartInside(s.partSizes, k);
    if k > 0 {
      var last := s.partSizes[k-1] - 1;
      PartStartNext(s.partSizes, k - 1);
      EvenUpTo(s, y, k - 1);
      ParityInPart(s, y, k - 1, last);
      assert PartStart(s.partSizes, k - 1) + last + 1 == PartStart(s.partSizes, k);
    }
  }

  /** Over all rings, every row is crossed an even number of times. */
  lemma EvenCrossings(s: Shape, y: int)
    requires s.Valid()
    ensures |RoundedCrossings(s, y, |s.xs|)| % 2 == 0
  {
    EvenUpTo(s, y, |s.partSizes|);
    assert s.partSizes[..|s.partSizes|] == s.partSizes;
  }

  // ---------------------------------------------------------------------
  //  Sorting and pairing
  // ---------------------------------------------------------------------

  function AtMost(a: seq<int>, x: int): nat {
    if |a| == 0 then 0 else AtMost(a[..|a|-1], x) + (if a[|a|-1] <= x then 1 else 0)
  }

  predicate Ascending(a: seq<int>) {
    forall i, j :: 0 <= i < j < |a| ==> a[i] <= a[j]
  }

  function Inserted(a: seq<int>, v: int): (r: seq<int>)
    requires Ascending(a)
    ensures Ascending(r) && |r| == |a| + 1 && forall x :: AtMost(r, x) == AtMost(a, x) + (if v <= x then 1 else 0)
    ensures forall k :: 0 <= k < |r| ==> r[k] == v || r[k] in a
  {
    var n := |a| - 1;
    if |a| == 0 || a[n] <= v then
      assert (a + [v])[..|a|] == a;
      a + [v]
    else
      var r := Inserted(a[..n], v) + [a[n]];
      assert r[..|r|-1] == Inserted(a[..n], v);
      r
  }

  /** The same numbers in ascending order. */
  function Sorted(a: seq<int>): (r: seq<int>)
    ensures Ascending(r) && |r| == |a| && forall x :: AtMost(r, x) == AtMost(a, x)
  {
    if |a| == 0 then [] else Inserted(Sorted(a[..|a|-1]), a[|a|-1])
  }

  lemma {:induction false} AscendingSplit(a: seq<int>, x: int, k: nat)
    requires Ascending(a) && k < |a|
    ensures a[k] <= x <==> k < AtMost(a, x)
  {
    var n := |a| - 1;
    AtMostLength(a, x);
    AtMostLength(a[..n], x);
    if k < n {
      AscendingSplit(a[..n], x, k);
      if a[n] <= x && n > 0 { AscendingSplit(a[..n], x, n - 1); }
    } else if n > 0 {
      AscendingSplit(a[..n], x, n - 1);
    }
  }

  lemma {:induction false} AtMostLength(a: seq<int>, x: int)
    ensures AtMost(a, x) <= |a|
  {
    if |a| > 0 { AtMostLength(a[..|a|-1], x); }
  }

  /** The pixel is in one of the pairs up to position n. */
  ghost predicate InPair(a: seq<int>, x: int, n: nat)
    requires n % 2 == 0 && n <= |a|
  {
    exists k: nat :: 2 * k < n && a[2 * k] <= x < a[2 * k + 1]
  }

  /** A pixel is in a pair of sorted crossings exactly when an odd number of them is at or before it. */
  lemma PairsAreOdd(a: seq<int>, x: int)
    requires Ascending(a) && |a| % 2 == 0
    ensures InPair(a, x, |a|) <==> AtMost(a, x) % 2 == 1
  {
    hide Ascending;
    AtMostLength(a, x);
    if InPair(a, x, |a|) {
      var k: nat :| 2 * k < |a| && a[2 * k] <= x < a[2 * k + 1];
      AscendingSplit(a, x, 2 * k);
      AscendingSplit(a, x, 2 * k + 1);
    }
    if AtMost(a, x) % 2 == 1 {
      var k := AtMost(a, x) / 2;
      AscendingSplit(a, x, 2 * k);
      AscendingSplit(a, x, 2 * k + 1);
      assert 2 * k < |a| && a[2 * k] <= x < a[2 * k + 1];
    }
  }

  lemma {:induction false} RoundedCount(s: Shape, y: int, x: int, n: nat)
    requires s.Valid() && n <= |s.xs|
    ensures AtMost(RoundedCrossings(s, y, n), x) == CrossingsLeft(s, y, Centre(x), n)
  {
    if n > 0 {
      RoundedCount(s, y, x, n - 1);
      if EdgeTo(s, n - 1).Crosses(Centre(y)) {
        var r, prev := RoundedCrossings(s, y, n), RoundedCrossings(s, y, n - 1);
        assert r[..|r|-1] == prev;
        RoundedLeft(EdgeTo(s, n - 1).CrossingAt(Centre(y)), x);
      }
    }
  }

  // ---------------------------------------------------------------------
  //  The fill
  // ---------------------------------------------------------------------

  ghost predicate Covers(spans: seq<Span>, x: int, y: int) {
    exists k :: 0 <= k < |spans| && spans[k].y == y && spans[k].x1 <= x <= spans[k].x2
  }

  /** A span that the scanline function accepts: empty, or reaching into the raster. */
  predicate Accepted(span: Span, xSize: int, ySize: int) {
    0 <= span.y < ySize && (span.x1 <= span.x2 ==> span.x1 < xSize && span.x2 >= 0)
  }

  ghost predicate AllAccepted(spans: seq<Span>, xSize: int, ySize: int) {
    forall k :: 0 <= k < |spans| ==> Accepted(spans[k], xSize, ySize)
  }

  lemma CoversOneMore(spans: seq<Span>, span: Span, x: int, y: int)
    ensures Covers(spans + [span], x, y) <==> Covers(spans, x, y) || (span.y == y && span.x1 <= x <= span.x2)
  {
    var more := spans + [span];
    if Covers(spans, x, y) {
      var k :| 0 <= k < |spans| && spans[k].y == y && spans[k].x1 <= x <= spans[k].x2;
      assert more[k] == spans[k];
    }
    if span.y == y && span.x1 <= x <= span.x2 {
      assert more[|spans|] == span;
    }
  }

  /** The vertical extent of a shape. */
  method Extent(s: Shape) returns (dminy: real, dmaxy: real)
    requires s.Valid() && |s.ys| > 0
    ensures forall i :: 0 <= i < |s.ys| ==> dminy <= s.ys[i] <= dmaxy
  {
    dminy, dmaxy := s.ys[0], s.ys[0];
    for i := 1 to |s.ys|
      invariant forall k :: 0 <= k < i ==> dminy <= s.ys[k] <= dmaxy
    {
      if s.ys[i] < dminy { dminy := s.ys[i]; }
      if s.ys[i] > dmaxy { dmaxy := s.ys[i]; }
    }
  }

  /** Rows that lie outside the truncated extent are not crossed, whatever the signs. */
  lemma OutsideExtent(s: Shape, x: int, y: int, dminy: real, dmaxy: real)
    requires s.Valid() && forall i :: 0 <= i < |s.ys| ==> dminy <= s.ys[i] <= dmaxy
    requires y >= 0 && (y < Trunc(dminy) || y > Trunc(dmaxy))
    ensures !Inside(s, x, y)
  {
    NoCrossings(s, x, y, |s.xs|);
  }

  lemma {:induction false} NoCrossings(s: Shape, x: int, y: int, n: nat)
    requires s.Valid() && n <= |s.xs|
    requires forall i :: 0 <= i < |s.ys| ==> (s.ys[i] > Centre(y)) || (forall j :: 0 <= j < |s.ys| ==> s.ys[j] < Centre(y))
    ensures CrossingsLeft(s, y, Centre(x), n) == 0 && !InHorizontal(s, x, y, n)
  {
    if n > 0 {
      NoCrossings(s, x, y, n - 1);
    }
  }

  /** The spans of a row that come from its first n edges: they reach into the raster, and cover the
      horizontal edges. */
  ghost predicate Fills(s: Shape, y: int, maxx: int, spans: seq<Span>, n: nat)
    requires s.Valid() && n <= |s.xs|
  {
    && (forall k :: 0 <= k < |spans| ==> spans[k].y == y && spans[k].x1 <= maxx && spans[k].x2 >= 0)
    && (forall x :: 0 <= x <= maxx ==> (Covers(spans, x, y) <==> InHorizontal(s, x, y, n)))
  }

  lemma NextHorizontal(s: Shape, x: int, y: int, n: nat)
    requires s.Valid() && n < |s.xs|
    ensures InHorizontal(s, x, y, n + 1) <==> InHorizontal(s, x, y, n) || OnHorizontal(EdgeTo(s, n), x, y)
  {
  }

  lemma NothingToFill(s: Shape, y: int, maxx: int, spans: seq<Span>, n: nat)
    requires s.Valid() && n < |s.xs| && Fills(s, y, maxx, spans, n)
    requires forall x :: 0 <= x <= maxx ==> !OnHorizontal(EdgeTo(s, n), x, y)
    ensures Fills(s, y, maxx, spans, n + 1)
  {
  }

  lemma OneToFill(s: Shape, y: int, maxx: int, spans: seq<Span>, n: nat)
    requires s.Valid() && n < |s.xs| && Fills(s, y, maxx, spans, n) && EdgeTo(s, n).RightToLeft(Centre(y))
    requires Round(EdgeTo(s, n).x2) <= maxx && Round(EdgeTo(s, n).x1) > 0
    ensures Fills(s, y, maxx, spans + [Span(y, Round(EdgeTo(s, n).x2), Round(EdgeTo(s, n).x1) - 1)], n + 1)
  {
    var span := Span(y, Round(EdgeTo(s, n).x2), Round(EdgeTo(s, n).x1) - 1);
    forall x | 0 <= x <= maxx ensures Covers(spans + [span], x, y) <==> InHorizontal(s, x, y, n + 1) {
      NextHorizontal(s, x, y, n);
      CoversOneMore(spans, span, x, y);
    }
  }

  /** The part that a vertex belongs to, when the vertices are visited in turn. */
  method NextPart(sizes: seq<nat>, i: nat, part: nat, partoffset: nat) returns (part': nat, partoffset': nat)
    requires i < Sum(sizes) && part < |sizes| && partoffset == PartStart(sizes, part)
    requires partoffset <= i <= partoffset + sizes[part] && forall k :: 0 <= k < |sizes| ==> sizes[k] >= 1
    ensures part' < |sizes| && partoffset' == PartStart(sizes, part') && partoffset' <= i < partoffset' + sizes[part']
  {
    part', partoffset' := part, partoffset;
    if i == partoffset + sizes[part] {
      PartStartNext(sizes, part);
      assert sizes[..|sizes|] == sizes;
      partoffset' := partoffset + sizes[part];
      part' := part + 1;
    }
  }

  /** Fills the edge to vertex i if it is horizontal at the row's centre and runs right to left. */
  method FillEdge(s: Shape, y: int, maxx: int, before: seq<Span>, i: nat, e: Edge) returns (spans: seq<Span>)
    requires s.Valid() && i < |s.xs| && e == EdgeTo(s, i) && Fills(s, y, maxx, before, i)
    ensures Fills(s, y, maxx, spans, i + 1)
  {
    var dy := Centre(y);
    spans := before;
    if !((e.y1 < dy && e.y2 < dy) || (e.y1 > dy && e.y2 > dy)) && e.y1 == e.y2 && e.x1 > e.x2
       && !(Round(e.x2) > maxx || Round(e.x1) <= 0)
    {
      OneToFill(s, y, maxx, spans, i);
      spans := spans + [Span(y, Round(e.x2), Round(e.x1) - 1)];
    } else {
      NothingToFill(s, y, maxx, spans, i);
    }
  }

  /** Appends the rounded crossing of an edge, if it has one. */
  method KeepCrossing(e: Edge, dy: real, polyInts: array<int>, ints: nat) returns (ints': nat)
    requires ints < polyInts.Length
    modifies polyInts
    ensures ints <= ints' <= ints + 1
    ensures polyInts[..ints'] == old(polyInts[..ints]) + (if e.Crosses(dy) then [Round(e.CrossingAt(dy))] else [])
  {
    ints' := ints;
    if !((e.y1 < dy && e.y2 < dy) || (e.y1 > dy && e.y2 > dy)) && e.y1 != e.y2 && e.Crosses(dy) {
      polyInts[ints] := Round(e.CrossingAt(dy));
      ints' := ints + 1;
    }
  }

  lemma NothingFilled(s: Shape, y: int, maxx: int)
    requires s.Valid()
    ensures Fills(s, y, maxx, [], 0)
  {
  }

  /** Collects the rounded crossings of a row, and fills its right-to-left horizontal edges. */
  method CollectRow(s: Shape, y: int, maxx: int, polyInts: array<int>) returns (ints: nat, spans: seq<Span>)
    requires s.Valid() && polyInts.Length == |s.xs| && |s.partSizes| > 0
    modifies polyInts
    ensures ints <= |s.xs| && polyInts[..ints] == RoundedCrossings(s, y, |s.xs|)
    ensures Fills(s, y, maxx, spans, |s.xs|)
  {
    hide Edge.CrossingAt, Along, Round, Edge.Crosses;
    var dy := Centre(y);
    var partoffset: nat, part: nat := 0, 0;
    ints, spans := 0, [];
    NothingFilled(s, y, maxx);
    for i := 0 to |s.xs|
      invariant part < |s.partSizes| && partoffset == PartStart(s.partSizes, part)
      invariant partoffset <= i <= partoffset + s.partSizes[part]
      invariant ints <= i && polyInts[..ints] == RoundedCrossings(s, y, i)
      invariant Fills(s, y, maxx, spans, i)
    {
      part, partoffset := NextPart(s.partSizes, i, part, partoffset);
      BeforeInPart(s.partSizes, part, i);
      var ind1 := if i == partoffset then partoffset + s.partSizes[part] - 1 else i - 1;
      var e := Edge(s.xs[ind1], s.ys[ind1], s.xs[i], s.ys[i]);
      assert e == EdgeTo(s, i);
      spans := FillEdge(s, y, maxx, spans, i, e);
      ints := KeepCrossing(e, dy, polyInts, ints);
    }
  }

  /** Sorts the first numbers of an array. */
  method SortInts(a: array<int>, n: nat)
    requires n <= a.Length
    modifies a
    ensures a[..n] == Sorted(old(a[..n]))
  {
    var sorted := Sorted(a[..n]);
    for i := 0 to n
      invariant a[..i] == sorted[..i]
    {
      a[i] := sorted[i];
    }
  }

  /** The spans of a row that come from the first n crossings: empty or reaching into the raster, they cover the pairs. */
  ghost predicate PairsFilled(y: int, maxx: int, spans: seq<Span>, a: seq<int>, n: nat)
    requires n % 2 == 0 && n <= |a|
  {
    && (forall k :: 0 <= k < |spans| ==> spans[k].y == y && (spans[k].x1 <= spans[k].x2 ==> spans[k].x1 <= maxx && spans[k].x2 >= 0))
    && (forall x :: 0 <= x <= maxx ==> (Covers(spans, x, y) <==> InPair(a, x, n)))
  }

  lemma NextPairFilled(y: int, maxx: int, spans: seq<Span>, a: seq<int>, n: nat)
    requires n % 2 == 0 && n + 2 <= |a| && PairsFilled(y, maxx, spans, a, n)
    ensures a[n] <= maxx && a[n + 1] > 0 ==> PairsFilled(y, maxx, spans + [Span(y, a[n], a[n + 1] - 1)], a, n + 2)
    ensures !(a[n] <= maxx && a[n + 1] > 0) ==> PairsFilled(y, maxx, spans, a, n + 2)
  {
    var span := Span(y, a[n], a[n + 1] - 1);
    forall x | 0 <= x <= maxx
      ensures InPair(a, x, n + 2) <==> Covers(spans + [span], x, y)
      ensures Covers(spans + [span], x, y) <==> Covers(spans, x, y) || a[n] <= x < a[n + 1]
    {
      CoversOneMore(spans, span, x, y);
      OneMorePair(a, x, n);
    }
  }

  /** Fills between the pairs of crossings. */
  method FillPairs(polyInts: array<int>, ints: nat, y: int, maxx: int) returns (spans: seq<Span>)
    requires ints % 2 == 0 && ints <= polyInts.Length
    ensures PairsFilled(y, maxx, spans, polyInts[..ints], ints)
  {
    spans := [];
    var i := 0;
    while i < ints
      invariant i <= ints && i % 2 == 0 && PairsFilled(y, maxx, spans, polyInts[..ints], i)
    {
      NextPairFilled(y, maxx, spans, polyInts[..ints], i);
      if polyInts[i] <= maxx && polyInts[i+1] > 0 {
        spans := spans + [Span(y, polyInts[i], polyInts[i+1] - 1)];
      }
      i := i + 2;
    }
  }

  lemma OneMorePair(a: seq<int>, x: int, n: nat)
    requires n % 2 == 0 && n + 2 <= |a|
    ensures InPair(a, x, n + 2) <==> InPair(a, x, n) || a[n] <= x < a[n + 1]
  {
    if a[n] <= x < a[n + 1] {
      assert 2 * (n / 2) == n;
    }
  }

  /** What a fill of rows from low to high covers. */
  ghost predicate Filled(s: Shape, xSize: int, low: int, high: int, spans: seq<Span>)
    requires s.Valid()
  {
    && (forall x, y :: 0 <= x < xSize && low <= y < high ==> (Covers(spans, x, y) <==> Inside(s, x, y)))
    && (forall x, y :: !(low <= y < high) ==> !Covers(spans, x, y))
    && AllAccepted(spans, xSize, high)
  }

  /** The spans of one row. */
  method FillRow(s: Shape, y: int, xSize: int, polyInts: array<int>) returns (spans: seq<Span>)
    requires s.Valid() && polyInts.Length == |s.xs| && |s.partSizes| > 0 && y >= 0
    modifies polyInts
    ensures Filled(s, xSize, y, y + 1, spans)
  {
    var ints, horizontal := CollectRow(s, y, xSize - 1, polyInts);
    EvenCrossings(s, y);
    SortInts(polyInts, ints);
    var pairs := FillPairs(polyInts, ints, y, xSize - 1);
    RowFilled(s, y, xSize, horizontal, pairs, RoundedCrossings(s, y, |s.xs|));
    spans := horizontal + pairs;
  }

  lemma RowFilled(s: Shape, y: int, xSize: int, horizontal: seq<Span>, pairs: seq<Span>, crossings: seq<int>)
    requires s.Valid() && y >= 0 && crossings == RoundedCrossings(s, y, |s.xs|) && |crossings| % 2 == 0
    requires Fills(s, y, xSize - 1, horizontal, |s.xs|) && PairsFilled(y, xSize - 1, pairs, Sorted(crossings), |crossings|)
    ensures Filled(s, xSize, y, y + 1, horizontal + pairs)
  {
    forall x | 0 <= x < xSize ensures Covers(horizontal + pairs, x, y) <==> Inside(s, x, y) {
      PairsAreOdd(Sorted(crossings), x);
      assert AtMost(Sorted(crossings), x) == AtMost(crossings, x);
      RoundedCount(s, y, x, |s.xs|);
      CoversConcat(horizontal, pairs, x, y);
    }
  }

  lemma CoversConcat(a: seq<Span>, b: seq<Span>, x: int, y: int)
    ensures Covers(a + b, x, y) <==> Covers(a, x, y) || Covers(b, x, y)
  {
    var c := a + b;
    if Covers(a, x, y) {
      var k :| 0 <= k < |a| && a[k].y == y && a[k].x1 <= x <= a[k].x2;
      assert c[k] == a[k];
    }
    if Covers(b, x, y) {
      var k :| 0 <= k < |b| && b[k].y == y && b[k].x1 <= x <= b[k].x2;
      assert c[|a| + k] == b[k];
    }
  }

  /** Fills a shape: a pixel is covered exactly when the even-odd rule or a horizontal edge says so, and
      every span can be handed to the scanline function. */
  method ImageFilledPolygon(xSize: int, ySize: int, s: Shape) returns (spans: seq<Span>)
    requires s.Valid()
    ensures forall x, y :: 0 <= x < xSize && 0 <= y < ySize ==> (Covers(spans, x, y) <==> Inside(s, x, y))
    ensures forall x, y :: 0 <= x < xSize && 0 <= y < ySize ==> (Covers(spans, x, y) <==> EvenOdd(s, x, y))
    ensures AllAccepted(spans, xSize, ySize)
  {
    hide EvenOdd;
    forall x, y ensures Inside(s, x, y) <==> EvenOdd(s, x, y) {
      InsideEvenOdd(s, x, y);
    }
    spans := [];
    if |s.partSizes| == 0 {
      return;
    }
    var polyInts := new int[|s.xs|];
    assert s.partSizes[0] >= 1 && Sum(s.partSizes) > 0;
    var dminy, dmaxy := Extent(s);
    var miny, maxy := Trunc(dminy), Trunc(dmaxy);
    if miny < 0 { miny := 0; }
    if maxy >= ySize { maxy := ySize - 1; }
    var y := miny;
    while y <= maxy
      invariant miny <= y && (y <= maxy + 1 || y == miny)
      invariant Filled(s, xSize, miny, y, spans) && (y == miny ==> spans == [])
    {
      var row := FillRow(s, y, xSize, polyInts);
      spans := OneMoreRow(s, xSize, miny, y, spans, row);
      y := y + 1;
    }
    forall x, y' | 0 <= x < xSize && 0 <= y' < ySize ensures Covers(spans, x, y') <==> Inside(s, x, y') {
      if !(miny <= y' < y) { OutsideExtent(s, x, y', dminy, dmaxy); }
    }
  }

  method OneMoreRow(s: Shape, xSize: int, low: int, y: int, before: seq<Span>, row: seq<Span>) returns (spans: seq<Span>)
    requires s.Valid() && low <= y && Filled(s, xSize, low, y, before) && Filled(s, xSize, y, y + 1, row)
    ensures spans == before + row && Filled(s, xSize, low, y + 1, spans)
  {
    spans := before + row;
    forall x, y' {:trigger Covers(spans, x, y')}
      ensures Covers(spans, x, y') <==> Covers(before, x, y') || Covers(row, x, y')
    {
      CoversConcat(before, row, x, y');
    }
  }
}
