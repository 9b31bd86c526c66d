/** The sieve filter (gdalsievefilter.cpp): three passes over the raster that replace the
    polygons smaller than a threshold by their largest neighbour. */
module SieveFilter {
  import opened Basics
  import opened Raster
  import opened PolygonEnumerator
  import opened Labelling

  /** The value that stands for pixels the mask excludes. */
  const NODATA_MARKER := -51502112

  // ---------------------------------------------------------------------
  //  What the filter promises, in terms of connected components
  // ---------------------------------------------------------------------

  ghost predicate Meets(p: Pixel, q: Pixel, conn: int) {
    SharesSide(p, q) || (conn == 8 && SharesCorner(p, q))
  }

  ghost function PolygonSize(img: Image, conn: int, p: Pixel): nat {
    |Component(img, LinksOf(conn), p)|
  }

  /** q lies in another valid polygon that meets p's polygon. */
  ghost predicate NeighbourOf(img: Image, conn: int, p: Pixel, q: Pixel) {
    && InImage(img, p) && InImage(img, q)
    && At(img, p) != NODATA_MARKER && At(img, q) != NODATA_MARKER
    && !Connected(img, LinksOf(conn), p, q)
    && exists a, b :: Contact(img, conn, p, q, a, b)
  }

  /** The polygons of p and q meet at a and b. */
  ghost predicate Contact(img: Image, conn: int, p: Pixel, q: Pixel, a: Pixel, b: Pixel) {
    Connected(img, LinksOf(conn), p, a) && Connected(img, LinksOf(conn), q, b) && Meets(a, b, conn)
  }

  ghost predicate Earlier(q: Pixel, p: Pixel) {
    q.y < p.y || (q.y == p.y && q.x < p.x)
  }

  /** Where v comes among the earlier neighbours of u: above, above left, above right, left. */
  ghost function Rank(u: Pixel, v: Pixel): nat {
    if v.y == u.y then 3 else if v.x == u.x then 0 else if v.x < u.x then 1 else 2
  }

  /** In scan order u is compared with v before w is compared with x. */
  ghost predicate Sooner(u: Pixel, v: Pixel, w: Pixel, x: Pixel) {
    Earlier(u, w) || (u == w && Rank(u, v) < Rank(w, x))
  }

  /** The polygons of p and q meet at u and at v, a pixel before it. */
  ghost predicate Encounter(img: Image, conn: int, p: Pixel, q: Pixel, u: Pixel, v: Pixel) {
    Earlier(v, u) && (Contact(img, conn, p, q, u, v) || Contact(img, conn, p, q, v, u))
  }

  /** The scan meets q's polygon at p's before any other of its size. */
  ghost predicate FirstEncounter(img: Image, conn: int, p: Pixel, q: Pixel, u: Pixel, v: Pixel) {
    && Encounter(img, conn, p, q, u, v)
    && forall r, w, x :: NeighbourOf(img, conn, p, r) && Encounter(img, conn, p, r, w, x) && PolygonSize(img, conn, r) == PolygonSize(img, conn, q)
         ==> Connected(img, LinksOf(conn), q, r) || Sooner(u, v, w, x)
  }

  /** The first of the largest neighbours. */
  ghost predicate LargestNeighbour(img: Image, conn: int, p: Pixel, q: Pixel) {
    && NeighbourOf(img, conn, p, q)
    && (forall r :: NeighbourOf(img, conn, p, r) ==> PolygonSize(img, conn, r) <= PolygonSize(img, conn, q))
    && exists u, v :: FirstEncounter(img, conn, p, q, u, v)
  }

  /** p's polygon is small and has a neighbour that is not. */
  ghost predicate Sieved(img: Image, conn: int, threshold: int, p: Pixel) {
    && PolygonSize(img, conn, p) < threshold
    && exists q :: NeighbourOf(img, conn, p, q) && PolygonSize(img, conn, q) >= threshold
  }

  /** img is the masked source the polygons are formed from. */
  ghost predicate SieveResult(src: Image, img: Image, conn: int, threshold: int, dst: Image) {
    && (forall p :: InImage(src, p) ==> InImage(dst, p) && InImage(img, p))
    && (forall p :: InImage(src, p) && !Sieved(img, conn, threshold, p) ==> At(dst, p) == At(src, p))
    && (forall p :: InImage(src, p) && Sieved(img, conn, threshold, p) ==>
          exists q :: LargestNeighbour(img, conn, p, q) && At(dst, p) == At(img, q))
    && (forall p, q :: InImage(src, p) && Connected(img, LinksOf(conn), p, q) && Sieved(img, conn, threshold, p) ==>
          InImage(dst, q) && At(dst, p) == At(dst, q))
  }

  /** Only one polygon is the first of the largest. */
  lemma LargestIsOne(img: Image, conn: int, p: Pixel, q: Pixel, r: Pixel)
    requires LargestNeighbour(img, conn, p, q) && LargestNeighbour(img, conn, p, r)
    ensures At(img, q) == At(img, r)
  {
    hide Connected, PolygonSize, Contact;
    var u, v :| FirstEncounter(img, conn, p, q, u, v);
    var w, x :| FirstEncounter(img, conn, p, r, w, x);
    assert !(Sooner(u, v, w, x) && Sooner(w, x, u, v));
    if Connected(img, LinksOf(conn), q, r) {
      ConnectedSameValue(img, LinksOf(conn), q, r);
    } else {
      ConnectedSameValue(img, LinksOf(conn), r, q);
    }
  }

  /** So the source and the polygons leave only one result. */
  lemma OneResult(src: Image, img: Image, conn: int, threshold: int, a: Image, b: Image, p: Pixel)
    requires SieveResult(src, img, conn, threshold, a) && SieveResult(src, img, conn, threshold, b) && InImage(src, p)
    ensures InImage(a, p) && InImage(b, p) && At(a, p) == At(b, p)
  {
    hide Sieved, FirstEncounter, Contact, Connected;
    if Sieved(img, conn, threshold, p) {
      var q :| LargestNeighbour(img, conn, p, q) && At(a, p) == At(img, q);
      var r :| LargestNeighbour(img, conn, p, r) && At(b, p) == At(img, r);
      LargestIsOne(img, conn, p, q, r);
    }
  }

  /** img is the image that the polygons are formed from: the source, with the marker wherever a mask is zero. */
  ghost predicate TakesPart(src: Image, mask: Option<Image>, img: Image) {
    && |img| == |src| && (mask.Some? ==> |mask.value| == |src|)
    && forall y :: 0 <= y < |src| ==>
         && |img[y]| == |src[y]| && (mask.Some? ==> |mask.value[y]| == |src[y]|)
         && forall x :: 0 <= x < |src[y]| ==>
              img[y][x] == if mask.Some? && mask.value[y][x] == 0 then -51502112 else src[y][x]
  }

  // ---------------------------------------------------------------------
  //  Bands and masking
  // ---------------------------------------------------------------------

  class RasterBand {
    const xSize: nat
    var rows: Image

    ghost predicate Valid()
      reads this
    {
      Rectangular(rows, xSize)
    }

    method ReadLine(y: int, line: array<int>)
      requires 0 <= y < |rows| && line.Length == |rows[y]|
      modifies line
      ensures line[..] == rows[y]
    {
      var row := rows[y];
      for i := 0 to line.Length
        invariant line[..i] == row[..i]
      {
        line[i] := row[i];
      }
      assert line[..] == line[..line.Length];
    }

    method WriteLine(y: int, line: array<int>)
      requires 0 <= y < |rows|
      modifies this
      ensures rows == old(rows)[y := line[..]]
    {
      rows := rows[y := line[..]];
    }
  }

  ghost function MaskedLine(line: seq<int>, mask: seq<int>): (r: seq<int>)
    requires |mask| == |line|
    ensures |r| == |line|
  {
    seq(|line|, i requires 0 <= i < |line| => if mask[i] == 0 then NODATA_MARKER else line[i])
  }

  /** Excluded pixels get the marker; a pixel that already has the marker's value keeps it. */
  method MaskImageData(mask: RasterBand, y: int, line: array<int>)
    requires 0 <= y < |mask.rows| && |mask.rows[y]| == line.Length
    modifies line
    ensures forall i :: 0 <= i < line.Length ==> line[i] == if mask.rows[y][i] == 0 then NODATA_MARKER else old(line[i])
    ensures line[..] == MaskedLine(old(line[..]), mask.rows[y])
  {
    var maskLine := mask.rows[y];
    for i := 0 to line.Length
      invariant forall k :: 0 <= k < i ==> line[k] == (if maskLine[k] == 0 then NODATA_MARKER else old(line[k]))
      invariant forall k :: i <= k < line.Length ==> line[k] == old(line[k])
    {
      if maskLine[i] == 0 {
        line[i] := NODATA_MARKER;
      }
    }
  }

  // ---------------------------------------------------------------------
  //  Polygon sizes
  // ---------------------------------------------------------------------

  ghost function IdPixels(ids: Image, a: int): set<Pixel> {
    set p | p in Pixels(ids) && At(ids, p) == a
  }

  ghost predicate SizesOf(ids: Image, sizes: seq<int>) {
    forall a :: 0 <= a < |sizes| ==> sizes[a] == |IdPixels(ids, a)|
  }

  lemma IdPixelsGrow(ids: Image, ids': Image, p: Pixel, a: int)
    requires Grows(ids, ids', p)
    ensures p !in IdPixels(ids, a) && IdPixels(ids', a) == IdPixels(ids, a) + (if a == ids'[p.y][p.x] then {p} else {})
  {
    GrownPixels(ids, ids', p);
  }

  /** Counting one more pixel. */
  lemma CountPixel(ids: Image, ids': Image, p: Pixel, sizes: seq<int>)
    requires Grows(ids, ids', p) && SizesOf(ids, sizes) && 0 <= ids'[p.y][p.x] < |sizes|
    ensures var id := ids'[p.y][p.x]; SizesOf(ids', sizes[id := sizes[id] + 1])
  {
    hide IdPixels;
    var id := ids'[p.y][p.x];
    forall a | 0 <= a < |sizes|
      ensures |IdPixels(ids', a)| == |IdPixels(ids, a)| + (if a == id then 1 else 0)
    {
      IdPixelsGrow(ids, ids', p, a);
    }
  }

  /** The pixels that count for polygon a when the first k ids have been folded into their roots. */
  ghost function FoldedPixels(s: Labels, k: int, a: int): set<Pixel>
    requires forall p :: InImage(s.ids, p) ==> 0 <= At(s.ids, p) < |s.root|
  {
    set p | p in Pixels(s.ids) && (if At(s.ids, p) < k then s.Final(p) else At(s.ids, p)) == a
  }

  ghost predicate FoldedSizes(s: Labels, k: int, sizes: seq<int>)
    requires forall p :: InImage(s.ids, p) ==> 0 <= At(s.ids, p) < |s.root|
  {
    forall a :: 0 <= a < |sizes| ==> sizes[a] == |FoldedPixels(s, k, a)|
  }

  ghost predicate RootsFixed(root: seq<int>) {
    forall a :: 0 <= a < |root| ==> 0 <= root[a] < |root| && root[root[a]] == root[a]
  }

  lemma FoldedFixpoint(s: Labels, k: int, a: int)
    requires forall p :: InImage(s.ids, p) ==> 0 <= At(s.ids, p) < |s.root|
    requires 0 <= k < |s.root| && (s.root[k] == k || (a != s.root[k] && a != k))
    ensures FoldedPixels(s, k + 1, a) == FoldedPixels(s, k, a)
  {
  }

  lemma FoldedAway(s: Labels, k: int)
    requires forall p :: InImage(s.ids, p) ==> 0 <= At(s.ids, p) < |s.root|
    requires RootsFixed(s.root) && 0 <= k < |s.root| && s.root[k] != k
    ensures FoldedPixels(s, k + 1, k) == {}
    ensures FoldedPixels(s, k, k) == IdPixels(s.ids, k)
  {
  }

  lemma FoldedInto(s: Labels, k: int)
    requires forall p :: InImage(s.ids, p) ==> 0 <= At(s.ids, p) < |s.root|
    requires RootsFixed(s.root) && 0 <= k < |s.root| && s.root[k] != k
    ensures FoldedPixels(s, k + 1, s.root[k]) == FoldedPixels(s, k, s.root[k]) + FoldedPixels(s, k, k)
  {
  }

  lemma FoldStep(s: Labels, k: int, sizes: seq<int>)
    requires forall p :: InImage(s.ids, p) ==> 0 <= At(s.ids, p) < |s.root|
    requires RootsFixed(s.root) && 0 <= k < |sizes| == |s.root| && FoldedSizes(s, k, sizes)
    ensures var r := s.root[k];
            FoldedSizes(s, k + 1, if r == k then sizes else sizes[r := sizes[r] + sizes[k]][k := 0])
  {
    var r := s.root[k];
    var sizes' := if r == k then sizes else sizes[r := sizes[r] + sizes[k]][k := 0];
    forall a | 0 <= a < |sizes'|
      ensures sizes'[a] == |FoldedPixels(s, k + 1, a)|
    {
      if r == k || (a != r && a != k) {
        FoldedFixpoint(s, k, a);
      } else if a == k {
        FoldedAway(s, k);
      } else {
        FoldedInto(s, k);
        assert FoldedPixels(s, k, r) !! FoldedPixels(s, k, k);
      }
    }
  }

  /** Pushes the sizes of merged fragments into the sizes of their final polygons. */
  method FoldSizes(idMap: seq<int>, sizes0: seq<int>, ghost s: Labels) returns (sizes: seq<int>)
    requires idMap == s.root && |sizes0| == |idMap| && RootsFixed(s.root)
    requires forall p :: InImage(s.ids, p) ==> 0 <= At(s.ids, p) < |s.root|
    requires SizesOf(s.ids, sizes0)
    ensures |sizes| == |sizes0|
    ensures forall a :: 0 <= a < |sizes| ==> sizes[a] == |set p | p in Pixels(s.ids) && s.Final(p) == a|
  {
    hide SizesOf, FoldedSizes;
    sizes := sizes0;
    NothingFolded(s, sizes);
    for iPoly := 0 to |idMap|
      invariant |sizes| == |idMap| && FoldedSizes(s, iPoly, sizes)
    {
      FoldStep(s, iPoly, sizes);
      if idMap[iPoly] != iPoly {
        sizes := sizes[idMap[iPoly] := sizes[idMap[iPoly]] + sizes[iPoly]];
        sizes := sizes[iPoly := 0];
      }
    }
    EverythingFolded(s, sizes);
  }

  lemma NothingFolded(s: Labels, sizes: seq<int>)
    requires forall p :: InImage(s.ids, p) ==> 0 <= At(s.ids, p) < |s.root|
    requires SizesOf(s.ids, sizes)
    ensures FoldedSizes(s, 0, sizes)
  {
    forall a | 0 <= a < |sizes| ensures sizes[a] == |FoldedPixels(s, 0, a)| {
      assert FoldedPixels(s, 0, a) == IdPixels(s.ids, a);
    }
  }

  lemma EverythingFolded(s: Labels, sizes: seq<int>)
    requires forall p :: InImage(s.ids, p) ==> 0 <= At(s.ids, p) < |s.root|
    requires FoldedSizes(s, |s.root|, sizes)
    ensures forall a :: 0 <= a < |sizes| ==> sizes[a] == |set p | p in Pixels(s.ids) && s.Final(p) == a|
  {
    forall a | 0 <= a < |sizes| ensures sizes[a] == |set p | p in Pixels(s.ids) && s.Final(p) == a| {
      assert FoldedPixels(s, |s.root|, a) == set p | p in Pixels(s.ids) && s.Final(p) == a;
    }
  }

  // ---------------------------------------------------------------------
  //  Biggest neighbours
  // ---------------------------------------------------------------------

  ghost function Raised(big: seq<int>, sizes: seq<int>, a: int, b: int): (r: seq<int>)
    requires |big| == |sizes| && 0 <= a < |big| && 0 <= b < |big|
    requires big[a] == -1 || 0 <= big[a] < |big|
    ensures |r| == |big|
  {
    if big[a] == -1 || sizes[big[a]] < sizes[b] then big[a := b] else big
  }

  ghost predicate Linked(values: seq<int>, a: int, b: int)
    requires 0 <= a < |values| && 0 <= b < |values|
  {
    a != b && values[a] != NODATA_MARKER && values[b] != NODATA_MARKER
  }

  ghost function Compared(big: seq<int>, sizes: seq<int>, values: seq<int>, a: int, b: int): (r: seq<int>)
    requires |big| == |sizes| == |values| && 0 <= a < |big| && 0 <= b < |big|
    requires forall k :: 0 <= k < |big| ==> -1 <= big[k] < |big|
    ensures |r| == |big|
    ensures forall k :: 0 <= k < |r| ==> -1 <= r[k] < |r|
  {
    if !Linked(values, a, b) then big else Raised(Raised(big, sizes, a, b), sizes, b, a)
  }

  /** Compares two neighbouring polygons and raises the biggest neighbour of each. */
  method CompareNeighbour(id1: int, id2: int, idMap: seq<int>, values: seq<int>, sizes: seq<int>, big: array<int>)
    requires |idMap| == |values| == |sizes| == big.Length && 0 <= id1 < big.Length && 0 <= id2 < big.Length
    requires forall a :: 0 <= a < |idMap| ==> 0 <= idMap[a] < |idMap|
    requires forall k :: 0 <= k < big.Length ==> -1 <= big[k] < big.Length
    modifies big
    ensures big[..] == Compared(old(big[..]), sizes, values, idMap[id1], idMap[id2])
  {
    var p1, p2 := idMap[id1], idMap[id2];
    if p1 == p2 {
      return;
    }
    if values[p1] == NODATA_MARKER || values[p2] == NODATA_MARKER {
      return;
    }
    if big[p1] == -1 || sizes[big[p1]] < sizes[p2] {
      big[p1] := p2;
    }
    if big[p2] == -1 || sizes[big[p2]] < sizes[p1] {
      big[p2] := p1;
    }
  }

  /** A comparison of a and b raises each to the other, or neither. */
  lemma ComparedRaises(values: seq<int>, sizes: seq<int>, big: seq<int>, a: int, b: int, k: int)
    requires |big| == |sizes| == |values| && 0 <= a < |big| && 0 <= b < |big| && 0 <= k < |big|
    requires forall k :: 0 <= k < |big| ==> -1 <= big[k] < |big|
    ensures Compared(big, sizes, values, a, b)[k] ==
            if !Linked(values, a, b) || (k != a && k != b) then big[k]
            else var other := if k == a then b else a; if big[k] == -1 || sizes[big[k]] < sizes[other] then other else big[k]
  {
  }

  /** Polygons without a large enough neighbour, and large ones, forget their neighbour. */
  ghost function Targets(big: seq<int>, sizes: seq<int>, threshold: int): (r: seq<int>)
    requires |big| == |sizes| && forall k :: 0 <= k < |big| ==> -1 <= big[k] < |big|
    ensures |r| == |big|
  {
    seq(|big|, a requires 0 <= a < |big| =>
      if big[a] != -1 && sizes[a] < threshold && sizes[big[a]] >= threshold then big[a] else -1)
  }

  method SelectTargets(idMap: seq<int>, values: seq<int>, sizes: seq<int>, threshold: int, big: array<int>)
    requires |idMap| == |values| == |sizes| == big.Length
    requires forall k :: 0 <= k < big.Length ==> -1 <= big[k] < big.Length
    requires forall k :: 0 <= k < big.Length && (idMap[k] != k || values[k] == NODATA_MARKER) ==> big[k] == -1
    modifies big
    ensures big[..] == Targets(old(big[..]), sizes, threshold)
  {
    ghost var big0 := big[..];
    for iPoly := 0 to |sizes|
      invariant forall k :: 0 <= k < iPoly ==> big[k] == Targets(big0, sizes, threshold)[k]
      invariant forall k :: iPoly <= k < big.Length ==> big[k] == big0[k]
    {
      if idMap[iPoly] != iPoly || values[iPoly] == NODATA_MARKER {
        // merged fragments and nodata polygons never got a neighbour
      } else if sizes[iPoly] >= threshold {
        big[iPoly] := -1;
      } else if big[iPoly] == -1 {
        // small and isolated
      } else if sizes[big[iPoly]] < threshold {
        big[iPoly] := -1;
      }
    }
  }

  // ---------------------------------------------------------------------
  //  One line of a pass: read, mask, label
  // ---------------------------------------------------------------------

  datatype Mask = NoMask | Masked(rows: Image)

  ghost function MaskOf(mask: RasterBand?): Mask
    reads mask
  {
    if mask == null then NoMask else Masked(mask.rows)
  }

  ghost function SourceLine(src: Image, mask: Mask, y: int): seq<int>
    requires 0 <= y < |src|
    requires mask.Masked? ==> y < |mask.rows| && |mask.rows[y]| == |src[y]|
  {
    if mask.NoMask? then src[y] else MaskedLine(src[y], mask.rows[y])
  }

  /** Where a pass stands before line y: the enumerator and the buffers of the line above. */
  ghost predicate AtLine(img: Image, conn: int, width: int, y: nat, e: RasterPolygonEnumerator,
                         lastVal: array<int>, lastId: array<int>)
    requires Rectangular(img, width) && 0 <= width && y <= |img|
    reads e, lastVal, lastId
  {
    var s := Scan(img, conn, width, y);
    && e.Valid() && e.connectedness == conn
    && e.root == s.root && e.polyValue == s.values
    && lastVal.Length == lastId.Length == width
    && (y > 0 ==> lastVal[..] == img[y-1] && lastId[..] == s.ids[y-1])
  }

  /** Line y, masked, is that of img. */
  ghost predicate ReadsLine(src: Image, mask: Mask, img: Image, width: int, y: nat) {
    && y < |img| && |src| == |img| && (mask.Masked? ==> |mask.rows| == |img|)
    && |src[y]| == width && (mask.Masked? ==> |mask.rows[y]| == width)
    && SourceLine(src, mask, y) == img[y]
  }

  /** The lines from y on, masked, are those of img. */
  ghost predicate ReadsAs(src: Image, mask: Mask, img: Image, width: int, y: nat) {
    && 0 <= width && Rectangular(img, width) && |src| == |img|
    && (forall k {:trigger ReadsLine(src, mask, img, width, k)} :: y <= k < |img| ==> ReadsLine(src, mask, img, width, k))
  }

  /** The four line buffers of a pass. */
  ghost predicate Buffers(lastVal: array<int>, thisVal: array<int>, lastId: array<int>, thisId: array<int>, width: int) {
    && lastVal.Length == thisVal.Length == lastId.Length == thisId.Length == width
    && lastVal != thisVal && lastVal != lastId && lastVal != thisId
    && thisVal != lastId && thisVal != thisId && lastId != thisId
  }

  method ReadMasked(src: RasterBand, mask: RasterBand?, y: nat, line: array<int>)
    requires y < |src.rows| && |src.rows[y]| == line.Length
    requires mask != null ==> y < |mask.rows| && |mask.rows[y]| == |src.rows[y]|
    modifies line
    ensures line[..] == SourceLine(src.rows, MaskOf(mask), y)
  {
    src.ReadLine(y, line);
    if mask != null {
      MaskImageData(mask, y, line);
    }
  }

  lemma ScanNext(img: Image, conn: int, width: int, y: nat)
    requires Rectangular(img, width) && 0 <= width && y < |img|
    ensures var s, s' := Scan(img, conn, width, y), Scan(img, conn, width, y + 1);
            var l := LineAt(img, conn, s.ids, y);
            && l.WellFormed(|s.root|) && |img[y]| == width && (y > 0 ==> |img[y-1]| == width && |s.ids[y-1]| == width)
            && s'.ids[y] == LineIds(l, |s.root|, width)
            && s'.root == LineRoots(l, s.root, width)
            && s'.values == LineValues(l, s.values, width)
  {
  }

  method LabelLine(src: RasterBand, mask: RasterBand?, y: nat, e: RasterPolygonEnumerator,
                   lastVal: array<int>, thisVal: array<int>, lastId: array<int>, thisId: array<int>,
                   ghost img: Image, ghost conn: int, ghost width: int)
    requires Rectangular(img, width) && 0 <= width && ReadsLine(src.rows, MaskOf(mask), img, width, y)
    requires AtLine(img, conn, width, y, e, lastVal, lastId)
    requires Buffers(lastVal, thisVal, lastId, thisId, width)
    modifies e, thisVal, thisId
    ensures AtLine(img, conn, width, y + 1, e, thisVal, thisId)
  {
    ScanNext(img, conn, width, y);
    ReadMasked(src, mask, y, thisVal);
    ghost var s := Scan(img, conn, width, y);
    ghost var l := LineAt(img, conn, s.ids, y);
    if y == 0 {
      e.ProcessLine(null, thisVal, null, thisId, l);
    } else {
      e.ProcessLine(lastVal, thisVal, lastId, thisId, l);
    }
  }

  lemma {:induction false} ScanPrefix(img: Image, conn: int, width: int, k: nat, y: nat)
    requires Rectangular(img, width) && 0 <= width && k <= y <= |img|
    ensures Scan(img, conn, width, k).ids == Scan(img, conn, width, y).ids[..k]
    ensures |Scan(img, conn, width, k).root| <= |Scan(img, conn, width, y).root|
  {
    hide LineIds, LineRoots, LineValues, LineAt;
    if k < y {
      ScanPrefix(img, conn, width, k, y - 1);
      ScanNext(img, conn, width, y - 1);
    }
  }

  method StartPass(conn: int, width: nat)
    returns (e: RasterPolygonEnumerator, lastVal: array<int>, thisVal: array<int>, lastId: array<int>, thisId: array<int>)
    ensures Buffers(lastVal, thisVal, lastId, thisId, width)
    ensures fresh(lastVal) && fresh(thisVal) && fresh(lastId) && fresh(thisId) && fresh(e)
    ensures e.Valid() && e.connectedness == conn && e.nextPolygonId == 0 && e.root == [] && e.polyValue == []
  {
    lastVal, thisVal, lastId, thisId := new int[width], new int[width], new int[width], new int[width];
    e := new RasterPolygonEnumerator(conn);
  }

  // ---------------------------------------------------------------------
  //  First pass: the polygon map and the sizes of the fragments
  // ---------------------------------------------------------------------

  method CountLine(sizes0: seq<int>, thisId: array<int>, ghost ids: Image) returns (sizes: seq<int>)
    requires SizesOf(ids, sizes0)
    requires forall i :: 0 <= i < thisId.Length ==> 0 <= thisId[i] < |sizes0|
    ensures |sizes| == |sizes0| && SizesOf(ids + [thisId[..]], sizes)
  {
    sizes := sizes0;
    assert forall a :: IdPixels(ids + [[]], a) == IdPixels(ids, a) by {
      assert forall p :: InImage(ids + [[]], p) <==> InImage(ids, p);
    }
    for iX := 0 to thisId.Length
      invariant |sizes| == |sizes0| && SizesOf(ids + [thisId[..iX]], sizes)
    {
      var iPoly := thisId[iX];
      assert thisId[..iX+1][..iX] == thisId[..iX];
      CountPixel(ids + [thisId[..iX]], ids + [thisId[..iX+1]], Pixel(iX, |ids|), sizes);
      sizes := sizes[iPoly := sizes[iPoly] + 1];
    }
    assert thisId[..thisId.Length] == thisId[..];
  }

  /** Grows the vector with zeroes for the ids that are new. */
  method Resize(sizes0: seq<int>, n: int, ghost s: Labels) returns (sizes: seq<int>)
    requires SizesOf(s.ids, sizes0) && |sizes0| == |s.root| <= n
    requires forall p :: InImage(s.ids, p) ==> 0 <= At(s.ids, p) < |s.root|
    ensures |sizes| == n && SizesOf(s.ids, sizes)
  {
    sizes := sizes0;
    if n > |sizes| {
      sizes := sizes + seq(n - |sizes|, _ => 0);
    }
    forall a | |sizes0| <= a < n
      ensures IdPixels(s.ids, a) == {}
    {
    }
  }

  lemma ScanSnoc(img: Image, conn: int, width: int, y: nat)
    requires Rectangular(img, width) && 0 <= width && y < |img|
    ensures var s, s' := Scan(img, conn, width, y), Scan(img, conn, width, y + 1);
            && s'.ids == s.ids + [s'.ids[y]] && |s'.ids[y]| == width && |s.root| <= |s'.root|
            && forall i :: 0 <= i < width ==> 0 <= s'.ids[y][i] < |s'.root|
  {
  }

  method AddLine(sizes0: seq<int>, thisId: array<int>, next: int, ghost img: Image, ghost conn: int, ghost width: int, ghost y: nat)
    returns (sizes: seq<int>)
    requires Rectangular(img, width) && 0 <= width && y < |img|
    requires |sizes0| == |Scan(img, conn, width, y).root| && SizesOf(Scan(img, conn, width, y).ids, sizes0)
    requires thisId[..] == Scan(img, conn, width, y + 1).ids[y] && next == |Scan(img, conn, width, y + 1).root|
    ensures |sizes| == next && SizesOf(Scan(img, conn, width, y + 1).ids, sizes)
  {
    ScanSnoc(img, conn, width, y);
    ghost var s := Scan(img, conn, width, y);
    sizes := Resize(sizes0, next, s);
    assert forall i :: 0 <= i < thisId.Length ==> thisId[i] == thisId[..][i];
    sizes := CountLine(sizes, thisId, s.ids);
  }

  /** Where the first pass stands before line y. */
  ghost predicate CountedTo(img: Image, conn: int, width: int, y: nat, sizes: seq<int>)
    requires Rectangular(img, width) && 0 <= width && y <= |img|
  {
    var s := Scan(img, conn, width, y);
    |sizes| == |s.root| && SizesOf(s.ids, sizes)
  }

  method CountedLine(src: RasterBand, mask: RasterBand?, y: nat, e: RasterPolygonEnumerator,
                     lastVal: array<int>, thisVal: array<int>, lastId: array<int>, thisId: array<int>, sizes0: seq<int>,
                     ghost img: Image, ghost conn: int, ghost width: int) returns (sizes: seq<int>)
    requires Rectangular(img, width) && 0 <= width && ReadsLine(src.rows, MaskOf(mask), img, width, y)
    requires AtLine(img, conn, width, y, e, lastVal, lastId)
    requires Buffers(lastVal, thisVal, lastId, thisId, width)
    requires CountedTo(img, conn, width, y, sizes0)
    modifies e, thisVal, thisId
    ensures AtLine(img, conn, width, y + 1, e, thisVal, thisId)
    ensures CountedTo(img, conn, width, y + 1, sizes)
  {
    LabelLine(src, mask, y, e, lastVal, thisVal, lastId, thisId, img, conn, width);
    sizes := AddLine(sizes0, thisId, e.nextPolygonId, img, conn, width, y);
  }

  method FirstPass(src: RasterBand, mask: RasterBand?, conn: int, width: nat, ghost img: Image)
    returns (e: RasterPolygonEnumerator, sizes: seq<int>)
    requires ReadsAs(src.rows, MaskOf(mask), img, width, 0)
    ensures fresh(e) && e.Valid() && e.connectedness == conn
    ensures e.root == LabelImage(img, conn, width).root && e.polyValue == LabelImage(img, conn, width).values
    ensures CountedTo(img, conn, width, |img|, sizes)
  {
    var lastVal, thisVal, lastId, thisId;
    e, lastVal, thisVal, lastId, thisId := StartPass(conn, width);
    sizes := [];
    var height := |src.rows|;
    for iY := 0 to height
      invariant Buffers(lastVal, thisVal, lastId, thisId, width)
      invariant fresh(lastVal) && fresh(thisVal) && fresh(lastId) && fresh(thisId) && fresh(e)
      invariant AtLine(img, conn, width, iY, e, lastVal, lastId)
      invariant CountedTo(img, conn, width, iY, sizes)
    {
      sizes := CountedLine(src, mask, iY, e, lastVal, thisVal, lastId, thisId, sizes, img, conn, width);
      lastVal, thisVal := thisVal, lastVal;
      lastId, thisId := thisId, lastId;
    }
  }

  // ---------------------------------------------------------------------
  //  Second pass: the largest neighbour of every polygon
  // ---------------------------------------------------------------------

  /** The outcome of the first pass, as the later passes use it. */
  ghost predicate LabelsKnown(s: Labels, idMap: seq<int>, values: seq<int>, sizes: seq<int>) {
    && (forall p :: InImage(s.ids, p) ==> 0 <= At(s.ids, p) < |s.root|)
    && RootsFixed(s.root) && |s.root| == |s.values| == |sizes|
    && idMap == s.root && values == s.values
  }

  /** Polygons a and b are compared at u with v, a pixel before it. */
  ghost predicate ComparedAt(s: Labels, conn: int, a: int, b: int, u: Pixel, v: Pixel)
    requires forall p :: InImage(s.ids, p) ==> 0 <= At(s.ids, p) < |s.root|
  {
    && InImage(s.ids, u) && InImage(s.ids, v) && Meets(u, v, conn) && Earlier(v, u)
    && ((s.Final(u) == a && s.Final(v) == b) || (s.Final(v) == a && s.Final(u) == b))
    && 0 <= a < |s.values| && 0 <= b < |s.values| && Linked(s.values, a, b)
  }

  /** u has been compared with v when p has been with its first r neighbours. */
  ghost predicate Past(u: Pixel, v: Pixel, p: Pixel, r: nat) {
    Earlier(u, p) || (u == p && Rank(u, v) < r)
  }

  /** Of the polygons that a has been compared with, t is a largest one, and of these the first. */
  ghost predicate FirstMet(s: Labels, conn: int, sizes: seq<int>, a: int, t: int, u: Pixel, v: Pixel, p: Pixel, r: nat)
    requires |sizes| == |s.values| && forall p :: InImage(s.ids, p) ==> 0 <= At(s.ids, p) < |s.root|
  {
    && ComparedAt(s, conn, a, t, u, v) && Past(u, v, p, r)
    && forall b, w, x :: ComparedAt(s, conn, a, b, w, x) && Past(w, x, p, r) ==>
         b == t || sizes[b] < sizes[t] || (sizes[b] == sizes[t] && Sooner(u, v, w, x))
  }

  ghost predicate Unmet(s: Labels, conn: int, a: int, p: Pixel, r: nat)
    requires forall p :: InImage(s.ids, p) ==> 0 <= At(s.ids, p) < |s.root|
  {
    forall b, w, x :: ComparedAt(s, conn, a, b, w, x) ==> !Past(w, x, p, r)
  }

  /** a's biggest neighbour is right for the comparisons made so far. */
  ghost predicate BigAt(s: Labels, conn: int, sizes: seq<int>, a: int, t: int, p: Pixel, r: nat)
    requires |sizes| == |s.values| && forall p :: InImage(s.ids, p) ==> 0 <= At(s.ids, p) < |s.root|
  {
    if t == -1 then Unmet(s, conn, a, p, r) else exists u, v :: FirstMet(s, conn, sizes, a, t, u, v, p, r)
  }

  ghost predicate BigFor(s: Labels, conn: int, sizes: seq<int>, big: seq<int>, p: Pixel, r: nat)
    requires forall p :: InImage(s.ids, p) ==> 0 <= At(s.ids, p) < |s.root|
  {
    && |big| == |sizes| == |s.values|
    && forall a :: 0 <= a < |big| ==> -1 <= big[a] < |big| && BigAt(s, conn, sizes, a, big[a], p, r)
  }

  /** Where the second pass stands before line y. */
  ghost predicate ComparedTo(s: Labels, conn: int, sizes: seq<int>, big: seq<int>, y: int)
    requires forall p :: InImage(s.ids, p) ==> 0 <= At(s.ids, p) < |s.root|
  {
    BigFor(s, conn, sizes, big, Pixel(0, y), 0)
  }

  lemma RankTells(p: Pixel, q: Pixel, conn: int)
    requires Meets(p, q, conn) && Earlier(q, p)
    ensures q == match Rank(p, q) case 0 => Pixel(p.x, p.y - 1) case 1 => Pixel(p.x - 1, p.y - 1)
                                  case 2 => Pixel(p.x + 1, p.y - 1) case _ => Pixel(p.x - 1, p.y)
    ensures Rank(p, q) == 1 || Rank(p, q) == 2 ==> conn == 8
  {
  }

  /** A neighbour that cannot be compared changes nothing. */
  lemma NoneToCompare(s: Labels, conn: int, sizes: seq<int>, big: seq<int>, p: Pixel, r: nat, p': Pixel, r': nat)
    requires forall p :: InImage(s.ids, p) ==> 0 <= At(s.ids, p) < |s.root|
    requires BigFor(s, conn, sizes, big, p, r)
    requires forall u, v :: InImage(s.ids, u) && InImage(s.ids, v) && Meets(u, v, conn) && Earlier(v, u) ==> (Past(u, v, p, r) <==> Past(u, v, p', r'))
    ensures BigFor(s, conn, sizes, big, p', r')
  {
    forall a | 0 <= a < |big| ensures BigAt(s, conn, sizes, a, big[a], p', r') {
      assert BigAt(s, conn, sizes, a, big[a], p, r);
      if big[a] != -1 {
        var u, v :| FirstMet(s, conn, sizes, a, big[a], u, v, p, r);
        assert FirstMet(s, conn, sizes, a, big[a], u, v, p', r');
      }
    }
  }

  /** The comparison of p with q comes next after those before it. */
  lemma NextIs(p: Pixel, q: Pixel, conn: int, u: Pixel, v: Pixel)
    requires Meets(p, q, conn) && Earlier(q, p) && Meets(u, v, conn) && Earlier(v, u)
    ensures Past(u, v, p, Rank(p, q) + 1) <==> Past(u, v, p, Rank(p, q)) || (u == p && v == q)
    ensures Past(u, v, p, Rank(p, q)) ==> Sooner(u, v, p, q)
  {
    RankTells(p, q, conn);
    RankTells(u, v, conn);
  }

  /** One comparison, for the polygon of one of the two pixels. */
  lemma BigRaised(s: Labels, conn: int, sizes: seq<int>, a: int, b: int, t: int, p: Pixel, q: Pixel)
    requires |sizes| == |s.values| && forall p :: InImage(s.ids, p) ==> 0 <= At(s.ids, p) < |s.root|
    requires BigAt(s, conn, sizes, a, t, p, Rank(p, q)) && -1 <= t < |sizes| && ComparedAt(s, conn, a, b, p, q)
    ensures BigAt(s, conn, sizes, a, if t == -1 || sizes[t] < sizes[b] then b else t, p, Rank(p, q) + 1)
  {
    hide Past, Rank, Sooner, Linked, InImage, Meets;
    var r := Rank(p, q);
    forall c, w, x | ComparedAt(s, conn, a, c, w, x)
      ensures (Past(w, x, p, r + 1) <==> Past(w, x, p, r) || (w == p && x == q)) && (Past(w, x, p, r) ==> Sooner(w, x, p, q))
    {
      NextIs(p, q, conn, w, x);
    }
    if t == -1 {
      assert FirstMet(s, conn, sizes, a, b, p, q, p, r + 1);
    } else {
      var u, v :| FirstMet(s, conn, sizes, a, t, u, v, p, r);
      assert if sizes[t] < sizes[b] then FirstMet(s, conn, sizes, a, b, p, q, p, r + 1) else FirstMet(s, conn, sizes, a, t, u, v, p, r + 1);
    }
  }

  /** One comparison, for a polygon that it does not concern. */
  lemma BigStays(s: Labels, conn: int, sizes: seq<int>, a: int, t: int, p: Pixel, q: Pixel)
    requires |sizes| == |s.values| && forall p :: InImage(s.ids, p) ==> 0 <= At(s.ids, p) < |s.root|
    requires BigAt(s, conn, sizes, a, t, p, Rank(p, q)) && Meets(p, q, conn) && Earlier(q, p)
    requires forall b :: !ComparedAt(s, conn, a, b, p, q)
    ensures BigAt(s, conn, sizes, a, t, p, Rank(p, q) + 1)
  {
    var r := Rank(p, q);
    forall c, w, x | ComparedAt(s, conn, a, c, w, x) && Past(w, x, p, r + 1) ensures Past(w, x, p, r) {
      NextIs(p, q, conn, w, x);
    }
    if t != -1 {
      var u, v :| FirstMet(s, conn, sizes, a, t, u, v, p, r);
      assert FirstMet(s, conn, sizes, a, t, u, v, p, r + 1);
    }
  }

  lemma ComparedKeepsBig(s: Labels, conn: int, sizes: seq<int>, big: seq<int>, p: Pixel, q: Pixel)
    requires (forall p :: InImage(s.ids, p) ==> 0 <= At(s.ids, p) < |s.root|) && |s.root| == |s.values| && RootsFixed(s.root)
    requires BigFor(s, conn, sizes, big, p, Rank(p, q))
    requires InImage(s.ids, p) && InImage(s.ids, q) && Meets(p, q, conn) && Earlier(q, p)
    ensures BigFor(s, conn, sizes, Compared(big, sizes, s.values, s.Final(p), s.Final(q)), p, Rank(p, q) + 1)
  {
    hide Compared, BigAt;
    var c, d := s.Final(p), s.Final(q);
    forall a | 0 <= a < |big| ensures BigAt(s, conn, sizes, a, Compared(big, sizes, s.values, c, d)[a], p, Rank(p, q) + 1) {
      ComparedRaises(s.values, sizes, big, c, d, a);
      if Linked(s.values, c, d) && (a == c || a == d) {
        BigRaised(s, conn, sizes, a, if a == c then d else c, big[a], p, q);
      } else {
        BigStays(s, conn, sizes, a, big[a], p, q);
      }
    }
  }

  /** One comparison: p with its neighbour q. */
  method Compare(p: Pixel, q: Pixel, idP: int, idQ: int, idMap: seq<int>, values: seq<int>, sizes: seq<int>, big: array<int>,
                 ghost conn: int, ghost s: Labels)
    requires LabelsKnown(s, idMap, values, sizes)
    requires InImage(s.ids, p) && InImage(s.ids, q) && Meets(p, q, conn) && Earlier(q, p)
    requires idP == At(s.ids, p) && idQ == At(s.ids, q)
    requires BigFor(s, conn, sizes, big[..], p, Rank(p, q))
    modifies big
    ensures BigFor(s, conn, sizes, big[..], p, Rank(p, q) + 1)
  {
    ComparedKeepsBig(s, conn, sizes, big[..], p, q);
    assert forall k :: 0 <= k < big.Length ==> big[k] == big[..][k];
    CompareNeighbour(idP, idQ, idMap, values, sizes, big);
  }

  /** Compares one pixel with the pixels before it. */
  method ComparePixel(iX: nat, iY: nat, lastId: array<int>, thisId: array<int>, idMap: seq<int>, values: seq<int>,
                      sizes: seq<int>, big: array<int>, conn: int, ghost s: Labels)
    requires LabelsKnown(s, idMap, values, sizes)
    requires iY < |s.ids| && iX < thisId.Length == lastId.Length && big != thisId && big != lastId
    requires thisId[..] == s.ids[iY] && (iY > 0 ==> lastId[..] == s.ids[iY-1])
    requires BigFor(s, conn, sizes, big[..], Pixel(iX, iY), 0)
    modifies big
    ensures BigFor(s, conn, sizes, big[..], Pixel(iX + 1, iY), 0)
  {
    if iY > 0 {
      CompareAbove(iX, iY, lastId, thisId, idMap, values, sizes, big, conn, s);
    } else {
      NoneToCompare(s, conn, sizes, big[..], Pixel(iX, iY), 0, Pixel(iX, iY), 3);
    }
    if iX > 0 {
      assert thisId[iX] == s.ids[iY][iX] && thisId[iX-1] == s.ids[iY][iX-1];
      Compare(Pixel(iX, iY), Pixel(iX - 1, iY), thisId[iX], thisId[iX-1], idMap, values, sizes, big, conn, s);
    } else {
      NoneToCompare(s, conn, sizes, big[..], Pixel(iX, iY), 3, Pixel(iX, iY), 4);
    }
    NoneToCompare(s, conn, sizes, big[..], Pixel(iX, iY), 4, Pixel(iX + 1, iY), 0);
  }

  /** Compares one pixel with those of the line above. */
  method CompareAbove(iX: nat, iY: nat, lastId: array<int>, thisId: array<int>, idMap: seq<int>, values: seq<int>,
                      sizes: seq<int>, big: array<int>, conn: int, ghost s: Labels)
    requires LabelsKnown(s, idMap, values, sizes)
    requires 0 < iY < |s.ids| && iX < thisId.Length == lastId.Length && big != thisId && big != lastId
    requires thisId[..] == s.ids[iY] && lastId[..] == s.ids[iY-1]
    requires BigFor(s, conn, sizes, big[..], Pixel(iX, iY), 0)
    modifies big
    ensures BigFor(s, conn, sizes, big[..], Pixel(iX, iY), 3)
  {
    hide BigFor;
    var p := Pixel(iX, iY);
    var n := thisId.Length;
    assert |s.ids[iY-1]| == n && lastId[iX] == s.ids[iY-1][iX] && thisId[iX] == s.ids[iY][iX];
    Compare(p, Pixel(iX, iY - 1), thisId[iX], lastId[iX], idMap, values, sizes, big, conn, s);
    if iX > 0 && conn == 8 {
      assert lastId[iX-1] == s.ids[iY-1][iX-1];
      Compare(p, Pixel(iX - 1, iY - 1), thisId[iX], lastId[iX-1], idMap, values, sizes, big, conn, s);
    } else {
      NoneToCompare(s, conn, sizes, big[..], p, 1, p, 2);
    }
    if iX < n - 1 && conn == 8 {
      assert lastId[iX+1] == s.ids[iY-1][iX+1];
      Compare(p, Pixel(iX + 1, iY - 1), thisId[iX], lastId[iX+1], idMap, values, sizes, big, conn, s);
    } else {
      NoneToCompare(s, conn, sizes, big[..], p, 2, p, 3);
    }
  }

  method CompareLine(iY: nat, lastId: array<int>, thisId: array<int>, idMap: seq<int>, values: seq<int>,
                     sizes: seq<int>, big: array<int>, conn: int, ghost s: Labels)
    requires LabelsKnown(s, idMap, values, sizes)
    requires iY < |s.ids| && thisId.Length == lastId.Length && big != thisId && big != lastId
    requires thisId[..] == s.ids[iY] && (iY > 0 ==> lastId[..] == s.ids[iY-1])
    requires ComparedTo(s, conn, sizes, big[..], iY)
    modifies big
    ensures ComparedTo(s, conn, sizes, big[..], iY + 1)
  {
    hide BigFor;
    for iX := 0 to thisId.Length
      invariant BigFor(s, conn, sizes, big[..], Pixel(iX, iY), 0)
    {
      ComparePixel(iX, iY, lastId, thisId, idMap, values, sizes, big, conn, s);
    }
    NoneToCompare(s, conn, sizes, big[..], Pixel(thisId.Length, iY), 0, Pixel(0, iY + 1), 0);
  }

  lemma LabelFacts(img: Image, conn: int, width: int)
    requires Rectangular(img, width) && 0 <= width
    ensures var s := LabelImage(img, conn, width);
            && RootsFixed(s.root) && |s.root| == |s.values| && |s.ids| == |img|
            && (forall p :: InImage(s.ids, p) <==> InImage(img, p))
            && (forall p :: InImage(s.ids, p) ==> 0 <= At(s.ids, p) < |s.root|)
            && (forall p :: InImage(img, p) ==> s.values[s.Final(p)] == At(img, p))
  {
    ScanGood(img, conn, width, |img|);
  }

  method ComparedLine(src: RasterBand, mask: RasterBand?, y: nat, second: RasterPolygonEnumerator,
                      lastVal: array<int>, thisVal: array<int>, lastId: array<int>, thisId: array<int>,
                      idMap: seq<int>, values: seq<int>, sizes: seq<int>, big: array<int>,
                      ghost img: Image, conn: int, ghost width: int, ghost s: Labels)
    requires Rectangular(img, width) && 0 <= width && ReadsLine(src.rows, MaskOf(mask), img, width, y)
    requires AtLine(img, conn, width, y, second, lastVal, lastId) && Buffers(lastVal, thisVal, lastId, thisId, width)
    requires s == LabelImage(img, conn, width) && LabelsKnown(s, idMap, values, sizes)
    requires big != lastVal && big != thisVal && big != lastId && big != thisId
    requires ComparedTo(s, conn, sizes, big[..], y)
    modifies second, thisVal, thisId, big
    ensures AtLine(img, conn, width, y + 1, second, thisVal, thisId)
    ensures ComparedTo(s, conn, sizes, big[..], y + 1)
  {
    hide ComparedTo;
    ScanPrefix(img, conn, width, y, |img|);
    ScanPrefix(img, conn, width, y + 1, |img|);
    LabelLine(src, mask, y, second, lastVal, thisVal, lastId, thisId, img, conn, width);
    assert thisId[..] == s.ids[y] && (y > 0 ==> lastId[..] == s.ids[y-1]);
    CompareLine(y, lastId, thisId, idMap, values, sizes, big, conn, s);
  }

  method StartSecondPass(conn: int, width: nat, n: nat)
    returns (e: RasterPolygonEnumerator, lastVal: array<int>, thisVal: array<int>, lastId: array<int>, thisId: array<int>,
             big: array<int>)
    ensures Buffers(lastVal, thisVal, lastId, thisId, width)
    ensures fresh(lastVal) && fresh(thisVal) && fresh(lastId) && fresh(thisId) && fresh(e) && fresh(big)
    ensures big != lastVal && big != thisVal && big != lastId && big != thisId
    ensures e.Valid() && e.connectedness == conn && e.nextPolygonId == 0 && e.root == [] && e.polyValue == []
    ensures big[..] == seq(n, _ => -1)
  {
    e, lastVal, thisVal, lastId, thisId := StartPass(conn, width);
    big := new int[n](_ => -1);
  }

  lemma NothingCompared(s: Labels, conn: int, sizes: seq<int>, big: seq<int>)
    requires forall p :: InImage(s.ids, p) ==> 0 <= At(s.ids, p) < |s.root|
    requires |big| == |sizes| == |s.values| && big == seq(|big|, _ => -1)
    ensures ComparedTo(s, conn, sizes, big, 0)
  {
  }

  method SecondPass(src: RasterBand, mask: RasterBand?, idMap: seq<int>, values: seq<int>, sizes: seq<int>,
                    conn: int, width: nat, ghost img: Image, ghost s: Labels)
    returns (second: RasterPolygonEnumerator, big: array<int>)
    requires ReadsAs(src.rows, MaskOf(mask), img, width, 0)
    requires s == LabelImage(img, conn, width) && LabelsKnown(s, idMap, values, sizes)
    ensures fresh(second) && second.connectedness == conn && fresh(big)
    ensures ComparedTo(s, conn, sizes, big[..], |img|)
  {
    var lastVal, thisVal, lastId, thisId;
    second, lastVal, thisVal, lastId, thisId, big := StartSecondPass(conn, width, |sizes|);
    NothingCompared(s, conn, sizes, big[..]);
    var height := |src.rows|;
    for iY := 0 to height
      invariant Buffers(lastVal, thisVal, lastId, thisId, width)
      invariant big != lastVal && big != thisVal && big != lastId && big != thisId
      invariant fresh(lastVal) && fresh(thisVal) && fresh(lastId) && fresh(thisId) && fresh(second) && fresh(big)
      invariant AtLine(img, conn, width, iY, second, lastVal, lastId)
      invariant ComparedTo(s, conn, sizes, big[..], iY)
    {
      ComparedLine(src, mask, iY, second, lastVal, thisVal, lastId, thisId, idMap, values, sizes, big, img, conn, width, s);
      lastVal, thisVal := thisVal, lastVal;
      lastId, thisId := thisId, lastId;
    }
  }

  // ---------------------------------------------------------------------
  //  Third pass: rewriting the pixels
  // ---------------------------------------------------------------------

  ghost function NewValue(src: Image, s: Labels, big: seq<int>, p: Pixel): int
    requires InImage(src, p) && InImage(s.ids, p) && 0 <= At(s.ids, p) < |s.root|
    requires 0 <= s.Final(p) < |big| && -1 <= big[s.Final(p)] < |s.values|
  {
    var t := big[s.Final(p)];
    if t != -1 then s.values[t] else At(src, p)
  }

  method RewriteLine(thisId: array<int>, idMap: seq<int>, values: seq<int>, big: array<int>, line: array<int>)
    requires thisId.Length == line.Length && thisId != line && big != line && |idMap| == |values| == big.Length
    requires forall i :: 0 <= i < thisId.Length ==> 0 <= thisId[i] < |idMap|
    requires forall a :: 0 <= a < |idMap| ==> 0 <= idMap[a] < |idMap|
    requires forall k :: 0 <= k < big.Length ==> -1 <= big[k] < big.Length
    modifies line
    ensures forall i :: 0 <= i < line.Length ==>
              line[i] == (var t := big[idMap[thisId[i]]]; if t != -1 then values[t] else old(line[i]))
  {
    for iX := 0 to line.Length
      invariant forall i :: 0 <= i < iX ==>
                  line[i] == (var t := big[idMap[thisId[i]]]; if t != -1 then values[t] else old(line[i]))
      invariant forall i :: iX <= i < line.Length ==> line[i] == old(line[i])
    {
      var iThisPoly := idMap[thisId[iX]];
      if big[iThisPoly] != -1 {
        line[iX] := values[big[iThisPoly]];
      }
    }
  }

  /** The targets the third pass works with. */
  ghost predicate TargetsKnown(s: Labels, idMap: seq<int>, values: seq<int>, big: seq<int>) {
    && (forall p :: InImage(s.ids, p) ==> 0 <= At(s.ids, p) < |s.root|)
    && RootsFixed(s.root) && |s.root| == |s.values| == |big|
    && idMap == s.root && values == s.values
    && (forall k :: 0 <= k < |big| ==> -1 <= big[k] < |big|)
  }

  ghost predicate PixelRewritten(src: Image, s: Labels, big: seq<int>, p: Pixel, value: int) {
    && InImage(src, p) && InImage(s.ids, p) && 0 <= At(s.ids, p) < |s.root|
    && 0 <= s.Final(p) < |big| && -1 <= big[s.Final(p)] < |s.values|
    && value == NewValue(src, s, big, p)
  }

  ghost predicate RowRewritten(src: Image, s: Labels, big: seq<int>, y: int, row: seq<int>) {
    && 0 <= y < |src| && |row| == |src[y]|
    && forall x :: 0 <= x < |row| ==> PixelRewritten(src, s, big, Pixel(x, y), row[x])
  }

  /** Labels a line once more, with the ids of the finished labelling. */
  method LabelLineAgain(src: RasterBand, mask: RasterBand?, y: nat, second: RasterPolygonEnumerator,
                        lastVal: array<int>, thisVal: array<int>, lastId: array<int>, thisId: array<int>,
                        ghost img: Image, ghost conn: int, ghost width: int, ghost s: Labels)
    requires Rectangular(img, width) && 0 <= width && ReadsLine(src.rows, MaskOf(mask), img, width, y)
    requires AtLine(img, conn, width, y, second, lastVal, lastId) && Buffers(lastVal, thisVal, lastId, thisId, width)
    requires s == LabelImage(img, conn, width)
    modifies second, thisVal, thisId
    ensures AtLine(img, conn, width, y + 1, second, thisVal, thisId)
    ensures y < |s.ids| && thisId[..] == s.ids[y]
  {
    hide AtLine;
    ScanPrefix(img, conn, width, y + 1, |img|);
    LabelLine(src, mask, y, second, lastVal, thisVal, lastId, thisId, img, conn, width);
  }

  method RewrittenLine(src: RasterBand, mask: RasterBand?, y: nat, second: RasterPolygonEnumerator,
                       lastVal: array<int>, thisVal: array<int>, lastId: array<int>, thisId: array<int>,
                       idMap: seq<int>, values: seq<int>, big: array<int>, line: array<int>,
                       ghost img: Image, ghost conn: int, ghost width: int, ghost s: Labels, ghost src0: Image, ghost targets: seq<int>)
    requires Rectangular(img, width) && 0 <= width && ReadsLine(src.rows, MaskOf(mask), img, width, y)
    requires |src0| == |img| && src.rows[y] == src0[y]
    requires AtLine(img, conn, width, y, second, lastVal, lastId) && Buffers(lastVal, thisVal, lastId, thisId, width)
    requires s == LabelImage(img, conn, width) && TargetsKnown(s, idMap, values, targets) && big[..] == targets
    requires big != lastVal && big != thisVal && big != lastId && big != thisId && big != line
    requires line != lastVal && line != thisVal && line != lastId && line != thisId && line.Length == width
    modifies second, thisVal, thisId, line
    ensures AtLine(img, conn, width, y + 1, second, thisVal, thisId)
    ensures RowRewritten(src0, s, targets, y, line[..])
  {
    hide LabelImage, AtLine;
    LabelLineAgain(src, mask, y, second, lastVal, thisVal, lastId, thisId, img, conn, width, s);
    ReadAndRewrite(src, thisId, idMap, values, big, line, src0, s, targets, y);
  }

  method ReadAndRewrite(src: RasterBand, thisId: array<int>, idMap: seq<int>, values: seq<int>, big: array<int>,
                        line: array<int>, ghost src0: Image, ghost s: Labels, ghost targets: seq<int>, y: nat)
    requires TargetsKnown(s, idMap, values, targets) && big[..] == targets
    requires y < |src.rows| == |src0| == |s.ids| && src.rows[y] == src0[y] && |s.ids[y]| == |src0[y]| == line.Length
    requires thisId[..] == s.ids[y] && thisId != line && big != line
    modifies line
    ensures RowRewritten(src0, s, targets, y, line[..])
  {
    src.ReadLine(y, line);
    RewriteAsLabelled(thisId, idMap, values, big, line, src0, s, targets, y);
  }

  method RewriteAsLabelled(thisId: array<int>, idMap: seq<int>, values: seq<int>, big: array<int>, line: array<int>,
                           ghost src0: Image, ghost s: Labels, ghost targets: seq<int>, ghost y: nat)
    requires TargetsKnown(s, idMap, values, targets) && big[..] == targets
    requires y < |src0| == |s.ids| && |s.ids[y]| == |src0[y]|
    requires thisId[..] == s.ids[y] && line[..] == src0[y] && thisId != line && big != line
    modifies line
    ensures RowRewritten(src0, s, targets, y, line[..])
  {
    assert forall k :: 0 <= k < big.Length ==> big[k] == big[..][k];
    assert forall i :: 0 <= i < thisId.Length ==> thisId[i] == At(s.ids, Pixel(i, y));
    assert forall i :: 0 <= i < line.Length ==> line[i] == At(src0, Pixel(i, y));
    assert forall a :: 0 <= a < |s.root| ==> 0 <= s.root[a] < |targets|;
    RewriteLine(thisId, idMap, values, big, line);
  }

  /** The lines not rewritten yet still read as the source, masked. */
  ghost predicate Unwritten(src: Image, mask: Mask, img: Image, width: int, src0: Image, y: nat) {
    && |src| == |src0| == |img|
    && forall k {:trigger ReadsLine(src, mask, img, width, k)} :: y <= k < |img| ==>
         ReadsLine(src, mask, img, width, k) && src[k] == src0[k]
  }

  /** Writing line y, to the source, the mask or elsewhere, leaves the later lines alone. */
  lemma WriteKeepsUnwritten(src: Image, src': Image, mask: Mask, mask': Mask, img: Image, width: int, src0: Image, y: nat, row: seq<int>)
    requires Unwritten(src, mask, img, width, src0, y) && y < |img|
    requires src' == src || src' == src[y := row]
    requires mask' == mask || (mask.Masked? && y < |mask.rows| && mask' == Masked(mask.rows[y := row]))
    ensures Unwritten(src', mask', img, width, src0, y + 1)
  {
    forall k | y + 1 <= k < |img|
      ensures ReadsLine(src', mask', img, width, k) && src'[k] == src0[k]
    {
      assert ReadsLine(src, mask, img, width, k);
    }
  }

  ghost predicate Rewritten(src: Image, s: Labels, big: seq<int>, dst: Image, y: int) {
    && |dst| == |src| && y <= |src|
    && forall k :: 0 <= k < y ==> RowRewritten(src, s, big, k, dst[k])
  }

  lemma RewrittenNext(src: Image, s: Labels, big: seq<int>, dst: Image, y: nat, row: seq<int>)
    requires Rewritten(src, s, big, dst, y) && RowRewritten(src, s, big, y, row)
    ensures Rewritten(src, s, big, dst[y := row], y + 1)
  {
  }

  method WrittenLine(src: RasterBand, mask: RasterBand?, dst: RasterBand, y: nat, second: RasterPolygonEnumerator,
                     lastVal: array<int>, thisVal: array<int>, lastId: array<int>, thisId: array<int>,
                     idMap: seq<int>, values: seq<int>, big: array<int>, line: array<int>,
                     ghost img: Image, ghost conn: int, ghost width: int, ghost s: Labels, ghost src0: Image, ghost targets: seq<int>)
    requires Rectangular(img, width) && 0 <= width && y < |img| == |dst.rows|
    requires Unwritten(src.rows, MaskOf(mask), img, width, src0, y) && Rewritten(src0, s, targets, dst.rows, y)
    requires AtLine(img, conn, width, y, second, lastVal, lastId) && Buffers(lastVal, thisVal, lastId, thisId, width)
    requires s == LabelImage(img, conn, width) && TargetsKnown(s, idMap, values, targets) && big[..] == targets
    requires big != lastVal && big != thisVal && big != lastId && big != thisId && big != line
    requires line != lastVal && line != thisVal && line != lastId && line != thisId && line.Length == width
    modifies second, thisVal, thisId, line, dst
    ensures AtLine(img, conn, width, y + 1, second, thisVal, thisId)
    ensures Rewritten(src0, s, targets, dst.rows, y + 1)
    ensures Unwritten(src.rows, MaskOf(mask), img, width, src0, y + 1)
  {
    hide LabelImage, AtLine;
    assert ReadsLine(src.rows, MaskOf(mask), img, width, y);
    RewrittenLine(src, mask, y, second, lastVal, thisVal, lastId, thisId, idMap, values, big, line, img, conn, width, s, src0, targets);
    RewrittenNext(src0, s, targets, dst.rows, y, line[..]);
    WriteRow(src, mask, dst, y, line, img, width, src0);
  }

  method WriteRow(src: RasterBand, mask: RasterBand?, dst: RasterBand, y: nat, line: array<int>,
                  ghost img: Image, ghost width: int, ghost src0: Image)
    requires y < |img| == |dst.rows| && Unwritten(src.rows, MaskOf(mask), img, width, src0, y)
    modifies dst
    ensures dst.rows == old(dst.rows)[y := line[..]]
    ensures Unwritten(src.rows, MaskOf(mask), img, width, src0, y + 1)
  {
    assert ReadsLine(src.rows, MaskOf(mask), img, width, y);
    dst.WriteLine(y, line);
    WriteKeepsUnwritten(old(src.rows), src.rows, old(MaskOf(mask)), MaskOf(mask), img, width, src0, y, line[..]);
  }

  method StartThirdPass(second: RasterPolygonEnumerator, ghost img: Image, ghost conn: int, width: nat)
    returns (lastVal: array<int>, thisVal: array<int>, lastId: array<int>, thisId: array<int>, line: array<int>)
    requires Rectangular(img, width) && second.connectedness == conn
    modifies second
    ensures Buffers(lastVal, thisVal, lastId, thisId, width)
    ensures fresh(lastVal) && fresh(thisVal) && fresh(lastId) && fresh(thisId) && fresh(line)
    ensures line != lastVal && line != thisVal && line != lastId && line != thisId && line.Length == width
    ensures AtLine(img, conn, width, 0, second, lastVal, lastId)
  {
    second.Clear();
    lastVal, thisVal, lastId, thisId := new int[width], new int[width], new int[width], new int[width];
    line := new int[width];
  }

  method ThirdPass(src: RasterBand, mask: RasterBand?, dst: RasterBand, second: RasterPolygonEnumerator,
                   idMap: seq<int>, values: seq<int>, big: array<int>,
                   width: nat, ghost img: Image, ghost conn: int, ghost s: Labels, ghost src0: Image, ghost targets: seq<int>)
    requires Rectangular(img, width) && Rectangular(src0, width) && |img| == |dst.rows|
    requires Unwritten(src.rows, MaskOf(mask), img, width, src0, 0) && second.connectedness == conn
    requires s == LabelImage(img, conn, width) && TargetsKnown(s, idMap, values, targets) && big[..] == targets
    modifies second, dst
    ensures |dst.rows| == |src0| && Rewritten(src0, s, targets, dst.rows, |src0|)
  {
    hide AtLine, LabelImage;
    var lastVal, thisVal, lastId, thisId, line := StartThirdPass(second, img, conn, width);
    var height := |src.rows|;
    for iY := 0 to height
      invariant Buffers(lastVal, thisVal, lastId, thisId, width)
      invariant fresh(lastVal) && fresh(thisVal) && fresh(lastId) && fresh(thisId) && fresh(line)
      invariant line != lastVal && line != thisVal && line != lastId && line != thisId && line.Length == width
      invariant AtLine(img, conn, width, iY, second, lastVal, lastId)
      invariant Unwritten(src.rows, MaskOf(mask), img, width, src0, iY)
      invariant Rewritten(src0, s, targets, dst.rows, iY)
    {
      WrittenLine(src, mask, dst, iY, second, lastVal, thisVal, lastId, thisId,
                  idMap, values, big, line, img, conn, width, s, src0, targets);
      lastVal, thisVal := thisVal, lastVal;
      lastId, thisId := thisId, lastId;
    }
  }

  // ---------------------------------------------------------------------
  //  The three passes together
  // ---------------------------------------------------------------------

  ghost function MaskedImage(src: Image, mask: Mask): (img: Image)
    requires mask.Masked? ==> |mask.rows| == |src| && forall y :: 0 <= y < |src| ==> |mask.rows[y]| == |src[y]|
    ensures |img| == |src| && forall y :: 0 <= y < |src| ==> img[y] == SourceLine(src, mask, y)
  {
    seq(|src|, y requires 0 <= y < |src| && (mask.Masked? ==> y < |mask.rows| && |mask.rows[y]| == |src[y]|) =>
      SourceLine(src, mask, y))
  }

  ghost predicate FinalSizes(s: Labels, sizes: seq<int>)
    requires forall p :: InImage(s.ids, p) ==> 0 <= At(s.ids, p) < |s.root|
  {
    forall a :: 0 <= a < |sizes| ==> sizes[a] == |set p | p in Pixels(s.ids) && s.Final(p) == a|
  }

  lemma PolygonSizeIs(img: Image, conn: int, width: int, s: Labels, sizes: seq<int>, p: Pixel)
    requires Rectangular(img, width) && 0 <= width && s == LabelImage(img, conn, width) && InImage(img, p)
    requires |sizes| == |s.root| && FinalSizes(s, sizes)
    ensures 0 <= s.Final(p) < |sizes| && PolygonSize(img, conn, p) == sizes[s.Final(p)]
  {
    LabelFacts(img, conn, width);
    var same := set q | q in Pixels(s.ids) && s.Final(q) == s.Final(p);
    forall q
      ensures q in same <==> q in Component(img, LinksOf(conn), p)
    {
      if InImage(img, q) { LabellingExact(img, conn, width, p, q); }
    }
    assert same == Component(img, LinksOf(conn), p);
  }

  /** Everything the passes establish about the final polygons. */
  ghost predicate Analysed(img: Image, conn: int, width: int, s: Labels, sizes: seq<int>, big: seq<int>) {
    && Rectangular(img, width) && 0 <= width && s == LabelImage(img, conn, width)
    && |sizes| == |s.root| == |s.values|
    && (forall p :: InImage(s.ids, p) ==> 0 <= At(s.ids, p) < |s.root|)
    && FinalSizes(s, sizes) && ComparedTo(s, conn, sizes, big, |img|)
  }

  lemma MeetEitherWay(a: Pixel, b: Pixel, conn: int)
    requires Meets(a, b, conn)
    ensures Meets(b, a, conn) && (Earlier(a, b) || Earlier(b, a))
  {
  }

  lemma NeighboursLinked(img: Image, conn: int, width: int, s: Labels, p: Pixel, q: Pixel)
    requires Rectangular(img, width) && 0 <= width && s == LabelImage(img, conn, width) && NeighbourOf(img, conn, p, q)
    ensures InImage(s.ids, p) && InImage(s.ids, q) && 0 <= s.Final(p) < |s.values| && 0 <= s.Final(q) < |s.values|
    ensures Linked(s.values, s.Final(p), s.Final(q))
  {
    hide LabelImage, Connected;
    LabelFacts(img, conn, width);
    LabellingExact(img, conn, width, p, q);
  }

  /** Where two polygons meet, they have been compared. */
  lemma EncounterCompared(img: Image, conn: int, width: int, s: Labels, p: Pixel, q: Pixel, u: Pixel, v: Pixel)
    requires Rectangular(img, width) && 0 <= width && s == LabelImage(img, conn, width)
    requires forall p :: InImage(s.ids, p) ==> 0 <= At(s.ids, p) < |s.root|
    requires NeighbourOf(img, conn, p, q) && Encounter(img, conn, p, q, u, v)
    ensures InImage(s.ids, p) && InImage(s.ids, q) && ComparedAt(s, conn, s.Final(p), s.Final(q), u, v)
    ensures Past(u, v, Pixel(0, |img|), 0)
  {
    hide LabelImage, Connected;
    LabelFacts(img, conn, width);
    NeighboursLinked(img, conn, width, s, p, q);
    var a, b := if Contact(img, conn, p, q, u, v) then u else v, if Contact(img, conn, p, q, u, v) then v else u;
    ConnectedInImage(img, LinksOf(conn), p, a);
    ConnectedInImage(img, LinksOf(conn), q, b);
    LabellingExact(img, conn, width, p, a);
    LabellingExact(img, conn, width, q, b);
    MeetEitherWay(a, b, conn);
  }

  /** Polygons that have been compared are neighbours, and meet there. */
  lemma ComparedEncounter(img: Image, conn: int, width: int, s: Labels, p: Pixel, b: int, u: Pixel, v: Pixel) returns (q: Pixel)
    requires Rectangular(img, width) && 0 <= width && s == LabelImage(img, conn, width)
    requires forall p :: InImage(s.ids, p) ==> 0 <= At(s.ids, p) < |s.root|
    requires InImage(img, p) && InImage(s.ids, p) && ComparedAt(s, conn, s.Final(p), b, u, v)
    ensures NeighbourOf(img, conn, p, q) && InImage(s.ids, q) && s.Final(q) == b && Encounter(img, conn, p, q, u, v)
  {
    hide LabelImage, Connected;
    LabelFacts(img, conn, width);
    q := if s.Final(u) == b then u else v;
    var o := if s.Final(u) == b then v else u;
    MeetEitherWay(u, v, conn);
    LabellingExact(img, conn, width, p, o);
    LabellingExact(img, conn, width, p, q);
    ConnectedRefl(img, LinksOf(conn), q);
    assert Contact(img, conn, p, q, o, q);
  }

  /** Who has a neighbour has a biggest one; */
  lemma NeighbourKnown(img: Image, conn: int, width: int, s: Labels, sizes: seq<int>, big: seq<int>, p: Pixel, r: Pixel)
    requires Analysed(img, conn, width, s, sizes, big) && NeighbourOf(img, conn, p, r)
    ensures InImage(s.ids, p) && 0 <= s.Final(p) < |big| && big[s.Final(p)] != -1
  {
    hide LabelImage, Connected, PolygonSize;
    LabelFacts(img, conn, width);
    NeighboursLinked(img, conn, width, s, p, r);
    var a, b :| Contact(img, conn, p, r, a, b);
    MeetEitherWay(a, b, conn);
    EncounterCompared(img, conn, width, s, p, r, if Earlier(b, a) then a else b, if Earlier(b, a) then b else a);
    assert BigAt(s, conn, sizes, s.Final(p), big[s.Final(p)], Pixel(0, |img|), 0);
  }

  /** and that is a largest one, and the first of these. */
  lemma BigIsLargest(img: Image, conn: int, width: int, s: Labels, sizes: seq<int>, big: seq<int>, p: Pixel) returns (q: Pixel)
    requires Analysed(img, conn, width, s, sizes, big) && InImage(img, p)
    requires InImage(s.ids, p) && 0 <= s.Final(p) < |big| && big[s.Final(p)] != -1
    ensures LargestNeighbour(img, conn, p, q) && InImage(s.ids, q) && s.Final(q) == big[s.Final(p)]
  {
    hide LabelImage, Connected, PolygonSize, NeighbourOf, Encounter, ComparedAt, FinalSizes;
    LabelFacts(img, conn, width);
    var a, end := s.Final(p), Pixel(0, |img|);
    assert BigAt(s, conn, sizes, a, big[a], end, 0);
    var u, v :| FirstMet(s, conn, sizes, a, big[a], u, v, end, 0);
    q := ComparedEncounter(img, conn, width, s, p, big[a], u, v);
    PolygonSizeIs(img, conn, width, s, sizes, q);
    forall r, w, x | NeighbourOf(img, conn, p, r) && Encounter(img, conn, p, r, w, x)
      ensures PolygonSize(img, conn, r) <= PolygonSize(img, conn, q)
      ensures PolygonSize(img, conn, r) == PolygonSize(img, conn, q) ==> Connected(img, LinksOf(conn), q, r) || Sooner(u, v, w, x)
    {
      InReach(img, conn, p, q);
      InReach(img, conn, p, r);
      EncounterCompared(img, conn, width, s, p, r, w, x);
      PolygonSizeIs(img, conn, width, s, sizes, r);
      LabellingExact(img, conn, width, q, r);
    }
    forall r | NeighbourOf(img, conn, p, r) ensures PolygonSize(img, conn, r) <= PolygonSize(img, conn, q) {
      var w, x := SomeEncounter(img, conn, p, r);
    }
    assert FirstEncounter(img, conn, p, q, u, v);
  }

  lemma InReach(img: Image, conn: int, p: Pixel, q: Pixel)
    requires NeighbourOf(img, conn, p, q)
    ensures InImage(img, p) && InImage(img, q)
  {
  }

  lemma SomeEncounter(img: Image, conn: int, p: Pixel, q: Pixel) returns (u: Pixel, v: Pixel)
    requires NeighbourOf(img, conn, p, q)
    ensures Encounter(img, conn, p, q, u, v)
  {
    var a, b :| Contact(img, conn, p, q, a, b);
    MeetEitherWay(a, b, conn);
    u, v := if Earlier(b, a) then a else b, if Earlier(b, a) then b else a;
  }

  /** The target of a polygon is the first of its largest neighbours, and it has one exactly when it is sieved. */
  lemma TargetIsLargest(img: Image, conn: int, width: int, s: Labels, sizes: seq<int>, big: seq<int>, threshold: int, p: Pixel)
    requires Analysed(img, conn, width, s, sizes, big) && InImage(img, p)
    ensures InImage(s.ids, p) && 0 <= s.Final(p) < |big|
    ensures var t := Targets(big, sizes, threshold)[s.Final(p)];
            && (t != -1 <==> Sieved(img, conn, threshold, p))
            && (t != -1 ==> 0 <= t < |s.values| && exists q :: LargestNeighbour(img, conn, p, q) && s.values[t] == At(img, q))
  {
    hide LabelImage, Connected, PolygonSize, NeighbourOf, FirstEncounter;
    LabelFacts(img, conn, width);
    var a := s.Final(p);
    PolygonSizeIs(img, conn, width, s, sizes, p);
    if r :| NeighbourOf(img, conn, p, r) && PolygonSize(img, conn, r) >= threshold {
      NeighbourKnown(img, conn, width, s, sizes, big, p, r);
    }
    if big[a] != -1 {
      var q := BigIsLargest(img, conn, width, s, sizes, big, p);
      InReach(img, conn, p, q);
      PolygonSizeIs(img, conn, width, s, sizes, q);
    }
  }

  lemma SieveCorrect(src: Image, img: Image, conn: int, width: int, s: Labels, sizes: seq<int>, big: seq<int>,
                     threshold: int, dst: Image)
    requires Analysed(img, conn, width, s, sizes, big) && Rectangular(src, width) && |src| == |img|
    requires Rewritten(src, s, Targets(big, sizes, threshold), dst, |src|)
    ensures SieveResult(src, img, conn, threshold, dst)
  {
    var targets := Targets(big, sizes, threshold);
    forall p | InImage(src, p)
      ensures InImage(img, p) && InImage(dst, p) && PixelRewritten(src, s, targets, p, At(dst, p))
    {
      assert RowRewritten(src, s, targets, p.y, dst[p.y]);
      assert p == Pixel(p.x, p.y);
    }
    forall p | InImage(src, p)
      ensures Sieved(img, conn, threshold, p) <==> targets[s.Final(p)] != -1
      ensures !Sieved(img, conn, threshold, p) ==> At(dst, p) == At(src, p)
      ensures Sieved(img, conn, threshold, p) ==> exists q :: LargestNeighbour(img, conn, p, q) && At(dst, p) == At(img, q)
    {
      TargetIsLargest(img, conn, width, s, sizes, big, threshold, p);
    }
    forall p, q | InImage(src, p) && Connected(img, LinksOf(conn), p, q) && Sieved(img, conn, threshold, p)
      ensures InImage(dst, q) && At(dst, p) == At(dst, q)
    {
      ConnectedInImage(img, LinksOf(conn), p, q);
      assert InImage(src, q);
      LabellingExact(img, conn, width, p, q);
    }
  }

  /** The polygons of the masked source: the finished id map, the values and the sizes. */
  method Analyse(src: RasterBand, mask: RasterBand?, conn: int, width: nat, ghost img: Image)
    returns (idMap: seq<int>, values: seq<int>, sizes: seq<int>)
    requires ReadsAs(src.rows, MaskOf(mask), img, width, 0)
    ensures LabelsKnown(LabelImage(img, conn, width), idMap, values, sizes)
    ensures FinalSizes(LabelImage(img, conn, width), sizes)
  {
    LabelFacts(img, conn, width);
    var first, sizes0 := FirstPass(src, mask, conn, width, img);
    first.CompleteMerges();
    idMap, values := first.polyIdMap, first.polyValue;
    sizes := FoldSizes(idMap, sizes0, LabelImage(img, conn, width));
  }

  lemma MaskedImageReads(src: Image, mask: Mask, width: int)
    requires 0 <= width && Rectangular(src, width)
    requires mask.Masked? ==> |mask.rows| == |src| && Rectangular(mask.rows, width)
    ensures ReadsAs(src, mask, MaskedImage(src, mask), width, 0)
    ensures Unwritten(src, mask, MaskedImage(src, mask), width, src, 0)
  {
  }

  lemma TargetsReady(img: Image, conn: int, width: int, s: Labels, idMap: seq<int>, values: seq<int>, sizes: seq<int>,
                     big: seq<int>, threshold: int)
    requires Analysed(img, conn, width, s, sizes, big) && LabelsKnown(s, idMap, values, sizes)
    ensures forall k :: 0 <= k < |big| && (idMap[k] != k || values[k] == NODATA_MARKER) ==> big[k] == -1
    ensures TargetsKnown(s, idMap, values, Targets(big, sizes, threshold))
  {
  }

  lemma MaskedTakesPart(src: Image, mask: Mask)
    requires mask.Masked? ==> |mask.rows| == |src| && forall y :: 0 <= y < |src| ==> |mask.rows[y]| == |src[y]|
    ensures TakesPart(src, if mask.Masked? then Some(mask.rows) else None, MaskedImage(src, mask))
  {
    var img := MaskedImage(src, mask);
    forall y | 0 <= y < |src| ensures |img[y]| == |src[y]|
      && forall x :: 0 <= x < |src[y]| ==> img[y][x] == if mask.Masked? && mask.rows[y][x] == 0 then NODATA_MARKER else src[y][x]
    {
      assert img[y] == SourceLine(src, mask, y);
    }
  }

  ghost predicate MaskedOutKept(src: Image, mask: Image, dst: Image) {
    |dst| == |src| == |mask|
    && forall y :: 0 <= y < |src| ==>
         && |dst[y]| >= |src[y]| == |mask[y]|
         && forall x :: 0 <= x < |src[y]| && mask[y][x] == 0 ==> dst[y][x] == src[y][x]
  }

  /** A pixel whose mask is zero belongs to no valid polygon, and is copied. */
  lemma MaskedOutCopied(src: Image, mask: Image, img: Image, conn: int, threshold: int, dst: Image)
    requires TakesPart(src, Some(mask), img) && SieveResult(src, img, conn, threshold, dst)
    requires |dst| == |src| && forall y :: 0 <= y < |src| ==> |dst[y]| >= |src[y]|
    ensures MaskedOutKept(src, mask, dst)
  {
    forall y, x | 0 <= y < |src| && 0 <= x < |src[y]| && mask[y][x] == 0 ensures dst[y][x] == src[y][x] {
      var p := Pixel(x, y);
      assert InImage(src, p) && At(img, p) == NODATA_MARKER && !Sieved(img, conn, threshold, p);
      assert At(dst, p) == At(src, p);
    }
  }

  /** The whole filter, on the polygons of the image that its source and mask make. */
  method SieveFilter(src: RasterBand, mask: RasterBand?, dst: RasterBand, threshold: int, conn: int)
    requires src.Valid() && |dst.rows| == |src.rows|
    requires mask != null ==> mask.Valid() && mask.xSize == src.xSize && |mask.rows| == |src.rows|
    modifies dst
    ensures exists img :: TakesPart(old(src.rows), if mask == null then None else Some(old(mask.rows)), img)
                          && SieveResult(old(src.rows), img, conn, threshold, dst.rows)
    ensures mask != null ==> MaskedOutKept(old(src.rows), old(mask.rows), dst.rows)
  {
    var width := src.xSize;
    ghost var src0, mask0, img := src.rows, MaskOf(mask), MaskedImage(src.rows, MaskOf(mask));
    MaskedTakesPart(src0, mask0);
    MaskedImageReads(src.rows, MaskOf(mask), width);
    LabelFacts(img, conn, width);
    ghost var s := LabelImage(img, conn, width);
    var idMap, values, sizes := Analyse(src, mask, conn, width, img);
    var second, big := SecondPass(src, mask, idMap, values, sizes, conn, width, img, s);
    ghost var big0 := big[..];
    TargetsReady(img, conn, width, s, idMap, values, sizes, big0, threshold);
    assert forall k :: 0 <= k < big.Length ==> big[k] == big0[k];
    SelectTargets(idMap, values, sizes, threshold, big);
    ThirdPass(src, mask, dst, second, idMap, values, big, width, img, conn, s, src0, Targets(big0, sizes, threshold));
    SieveCorrect(src0, img, conn, width, s, sizes, big0, threshold, dst.rows);
    if mask0.Masked? { MaskedOutCopied(src0, mask0.rows, img, conn, threshold, dst.rows); }
  }
}
