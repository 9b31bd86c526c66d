/** What the polygon enumerator computes over a whole raster: with connectedness 4 the
    final ids are exactly the connected components; with 8 they refine them. */
module Labelling {
  import opened Basics
  import opened Raster
  import opened PolygonEnumerator

  /** The provisional id of every pixel, and the root and value of every id. */
  datatype Labels = Labels(ids: Image, root: seq<int>, values: seq<int>) {
    ghost predicate WellFormed(width: int) {
      && |root| == |values|
      && Rectangular(ids, width)
      && (forall p :: InImage(ids, p) ==> 0 <= At(ids, p) < |root|)
    }

    /** The final polygon of a pixel. */
    ghost function Final(p: Pixel): int
      requires InImage(ids, p) && 0 <= At(ids, p) < |root|
    {
      root[At(ids, p)]
    }
  }

  ghost function LineAt(img: Image, conn: int, ids: Image, y: nat): LinePair
    requires |ids| == y < |img|
  {
    LinePair(if y == 0 then [] else img[y-1], if y == 0 then [] else ids[y-1], img[y], conn)
  }

  lemma LineAtWellFormed(img: Image, conn: int, s: Labels, y: nat, width: int)
    requires Rectangular(img, width) && s.WellFormed(width) && |s.ids| == y < |img|
    ensures LineAt(img, conn, s.ids, y).WellFormed(|s.root|)
  {
    if y > 0 {
      var above := s.ids[y-1];
      forall x | 0 <= x < |above|
        ensures 0 <= above[x] < |s.root|
      {
        assert At(s.ids, Pixel(x, y - 1)) == above[x];
      }
    }
  }

  /** The first y lines and the first n pixels of line y. */
  ghost function ScanLine(img: Image, conn: int, s: Labels, y: nat, width: int, n: nat): (r: Labels)
    requires Rectangular(img, width) && s.WellFormed(width) && |s.ids| == y < |img| && n <= width
  {
    LineAtWellFormed(img, conn, s, y, width);
    var l := LineAt(img, conn, s.ids, y);
    Labels(s.ids + [LineIds(l, |s.root|, n)], LineRoots(l, s.root, n), LineValues(l, s.values, n))
  }

  lemma ScanLineWellFormed(img: Image, conn: int, s: Labels, y: nat, width: int, n: nat)
    requires Rectangular(img, width) && s.WellFormed(width) && |s.ids| == y < |img| && n <= width
    ensures var r := ScanLine(img, conn, s, y, width, n);
            && |r.ids| == y + 1 && |r.ids[y]| == n && |r.root| == |r.values|
            && (forall p :: InImage(r.ids, p) ==> 0 <= At(r.ids, p) < |r.root|)
  {
    LineAtWellFormed(img, conn, s, y, width);
    var l := LineAt(img, conn, s.ids, y);
    var r := ScanLine(img, conn, s, y, width, n);
    forall p | InImage(r.ids, p)
      ensures 0 <= At(r.ids, p) < |r.root|
    {
      if p.y < y {
        assert At(r.ids, p) == At(s.ids, p);
      } else {
        assert At(r.ids, p) == LineIds(l, |s.root|, n)[p.x];
      }
    }
  }

  /** The labels after the first y lines. */
  ghost function Scan(img: Image, conn: int, width: int, y: nat): (s: Labels)
    requires Rectangular(img, width) && 0 <= width && y <= |img|
    ensures s.WellFormed(width) && |s.ids| == y
  {
    if y == 0 then Labels([], [], []) else
      var s := Scan(img, conn, width, y - 1);
      ScanLineWellFormed(img, conn, s, y - 1, width, width);
      ScanLine(img, conn, s, y - 1, width, width)
  }

  ghost function LabelImage(img: Image, conn: int, width: int): (s: Labels)
    requires Rectangular(img, width) && 0 <= width
    ensures s.WellFormed(width) && |s.ids| == |img|
  {
    Scan(img, conn, width, |img|)
  }

  // ---------------------------------------------------------------------
  //  The invariants of the scan
  // ---------------------------------------------------------------------

  /** Roots are fixed points, trees carry one value, and a pixel's id carries its value. */
  ghost predicate Consistent(img: Image, s: Labels) {
    && |s.root| == |s.values|
    && (forall a :: 0 <= a < |s.root| ==> 0 <= s.root[a] < |s.root|)
    && (forall a :: 0 <= a < |s.root| ==> s.root[s.root[a]] == s.root[a] && s.values[s.root[a]] == s.values[a])
    && (forall p :: InImage(s.ids, p) ==>
          InImage(img, p) && 0 <= At(s.ids, p) < |s.root| && s.values[At(s.ids, p)] == At(img, p))
  }

  /** The neighbours an enumeration links. */
  ghost function LinksOf(conn: int): Links {
    if conn == 8 then EnumeratedCorners else Sides
  }

  /** Pixels with the same root are connected. */
  ghost predicate Sound(img: Image, links: Links, s: Labels)
    requires Consistent(img, s)
  {
    forall p, q :: InImage(s.ids, p) && InImage(s.ids, q) && s.Final(p) == s.Final(q) ==> Connected(img, links, p, q)
  }

  /** Touching pixels have the same root. */
  ghost predicate Complete(img: Image, links: Links, s: Labels)
    requires Consistent(img, s)
  {
    forall p, q :: InImage(s.ids, p) && InImage(s.ids, q) && Touch(img, links, p, q) ==> s.Final(p) == s.Final(q)
  }

  ghost predicate Good(img: Image, links: Links, s: Labels) {
    Consistent(img, s) && Sound(img, links, s) && Complete(img, links, s)
  }

  /** ids grows by one pixel at the end of its last row. */
  ghost predicate Grows(ids: Image, ids': Image, p: Pixel) {
    && |ids| == |ids'| == p.y + 1 && 0 <= p.y
    && ids'[..p.y] == ids[..p.y] && |ids[p.y]| == p.x
    && |ids'[p.y]| == p.x + 1 && ids'[p.y][..p.x] == ids[p.y]
  }

  lemma GrownPixels(ids: Image, ids': Image, p: Pixel)
    requires Grows(ids, ids', p)
    ensures InImage(ids', p)
    ensures forall q :: InImage(ids', q) <==> InImage(ids, q) || q == p
    ensures forall q :: InImage(ids, q) ==> InImage(ids', q) && q != p && At(ids', q) == At(ids, q)
  {
  }

  lemma TouchSymmetric(img: Image, links: Links, p: Pixel)
    ensures forall q {:trigger Touch(img, links, q, p)} :: Touch(img, links, q, p) ==> Touch(img, links, p, q) && q != p
  {
  }

  /** A pixel with a new id of its own. */
  lemma FreshKeepsGood(img: Image, links: Links, s: Labels, s': Labels, p: Pixel)
    requires Good(img, links, s) && Grows(s.ids, s'.ids, p) && InImage(img, p)
    requires s'.root == s.root + [|s.root|] && s'.values == s.values + [At(img, p)]
    requires s'.ids[p.y][p.x] == |s.root|
    requires forall q :: InImage(s.ids, q) ==> !Touch(img, links, p, q)
    ensures Good(img, links, s')
  {
    hide Touch;
    GrownPixels(s.ids, s'.ids, p);
    assert At(s'.ids, p) == |s.root|;
    assert forall q :: InImage(s.ids, q) ==> s'.Final(q) == s.Final(q) < |s.root|;
    ConnectedRefl(img, links, p);
    assert Sound(img, links, s');
    TouchSymmetric(img, links, p);
  }

  /** A pixel that takes the id of a pixel it touches. */
  lemma CopyKeepsSound(img: Image, links: Links, s: Labels, s': Labels, p: Pixel, nb: Pixel)
    requires Consistent(img, s) && Sound(img, links, s) && Grows(s.ids, s'.ids, p) && InImage(img, p)
    requires s'.root == s.root && s'.values == s.values
    requires InImage(s.ids, nb) && Touch(img, links, nb, p)
    requires s'.ids[p.y][p.x] == At(s.ids, nb)
    ensures Consistent(img, s') && Sound(img, links, s')
  {
    GrownPixels(s.ids, s'.ids, p);
    assert At(s'.ids, p) == At(s.ids, nb);
    assert Consistent(img, s');
    ConnectedRefl(img, links, p);
    ConnectedStep(img, links, nb, p);
    forall q, r | InImage(s'.ids, q) && InImage(s'.ids, r) && s'.Final(q) == s'.Final(r)
      ensures Connected(img, links, q, r)
    {
      var q' := if q == p then nb else q;
      var r' := if r == p then nb else r;
      assert Connected(img, links, q', r');
      if q == p && r != p {
        ConnectedSym(img, links, nb, p);
        ConnectedTrans(img, links, p, nb, r);
      } else if q != p && r == p {
        ConnectedTrans(img, links, q, nb, p);
      }
    }
  }

  /** Joining the polygons of two equal neighbours. */
  lemma MergeKeepsSound(img: Image, links: Links, s: Labels, s': Labels, p: Pixel, nb: Pixel)
    requires Consistent(img, s) && Sound(img, links, s)
    requires InImage(s.ids, p) && InImage(s.ids, nb) && Connected(img, links, nb, p)
    requires s'.ids == s.ids && s'.values == s.values
    requires s'.root == MergeRoots(s.root, At(s.ids, nb), At(s.ids, p))
    ensures Consistent(img, s') && Sound(img, links, s')
    ensures forall q, r :: InImage(s.ids, q) && InImage(s.ids, r) && s.Final(q) == s.Final(r) ==> s'.Final(q) == s'.Final(r)
    ensures s'.Final(p) == s'.Final(nb)
  {
    ConnectedSameValue(img, links, nb, p);
    ConnectedSym(img, links, nb, p);
    assert Consistent(img, s');
    forall q, r | InImage(s'.ids, q) && InImage(s'.ids, r) && s'.Final(q) == s'.Final(r)
      ensures Connected(img, links, q, r)
    {
      if s.Final(q) != s.Final(r) {
        if s.Final(q) == s.Final(nb) {
          assert s.Final(r) == s.Final(p);
          ConnectedTrans(img, links, q, nb, p);
          ConnectedTrans(img, links, q, p, r);
        } else {
          assert s.Final(q) == s.Final(p) && s.Final(r) == s.Final(nb);
          ConnectedTrans(img, links, q, p, nb);
          ConnectedTrans(img, links, q, nb, r);
        }
      }
    }
  }

  /** A copying pixel that touches no other earlier pixel than the one it copies. */
  lemma CopyKeepsGood(img: Image, links: Links, s: Labels, s': Labels, p: Pixel, nb: Pixel)
    requires Good(img, links, s) && Grows(s.ids, s'.ids, p) && InImage(img, p)
    requires s'.root == s.root && s'.values == s.values
    requires InImage(s.ids, nb) && Touch(img, links, nb, p)
    requires s'.ids[p.y][p.x] == At(s.ids, nb)
    requires forall q :: InImage(s.ids, q) && Touch(img, links, p, q) ==> q == nb
    ensures Good(img, links, s')
  {
    CopyKeepsSound(img, links, s, s', p, nb);
    GrownPixels(s.ids, s'.ids, p);
    assert At(s'.ids, p) == At(s.ids, nb);
    TouchSymmetric(img, links, p);
    assert forall q :: InImage(s.ids, q) ==> s'.Final(q) == s.Final(q);
  }

  /** A pixel that copies its left neighbour and joins the polygon above when that one is equal too. */
  lemma CopyAndMergeKeepsGood(img: Image, links: Links, s: Labels, s': Labels, p: Pixel, left: Pixel, above: Pixel)
    requires Good(img, links, s) && Grows(s.ids, s'.ids, p) && InImage(img, p)
    requires s'.values == s.values
    requires InImage(s.ids, left) && Touch(img, links, left, p)
    requires InImage(s.ids, above) && Touch(img, links, above, p)
    requires s'.root == MergeRoots(s.root, At(s.ids, above), At(s.ids, left))
    requires s'.ids[p.y][p.x] == At(s.ids, left)
    requires forall q :: InImage(s.ids, q) && Touch(img, links, p, q) ==> q == left || q == above
    ensures Good(img, links, s')
  {
    var t := s'.(root := s.root);
    CopyKeepsSound(img, links, s, t, p, left);
    GrownPixels(s.ids, t.ids, p);
    assert At(t.ids, p) == At(s.ids, left);
    ConnectedStep(img, links, above, p);
    MergeKeepsSound(img, links, t, s', p, above);
    assert t.Final(p) == t.Final(left);
    assert forall q :: InImage(s.ids, q) ==> t.Final(q) == s.Final(q);
    forall q, r | InImage(s'.ids, q) && InImage(s'.ids, r) && Touch(img, links, q, r)
      ensures s'.Final(q) == s'.Final(r)
    {
      TouchSymmetric(img, links, p);
      if q != p && r != p {
        assert t.Final(q) == t.Final(r);
      } else {
        var o := if q == p then r else q;
        assert o == left || o == above;
        assert t.Final(p) == t.Final(left) ==> s'.Final(p) == s'.Final(left);
      }
    }
  }

  /** The line above, as seen by the partially grown raster. */
  ghost predicate LineAbove(img: Image, s: Labels, l: LinePair, y: nat, n: nat) {
    && |s.ids| == y + 1 && |s.ids[y]| == n < |l.thisVal|
    && y < |img| && img[y] == l.thisVal
    && |l.lastId| == |l.lastVal|
    && (y == 0 ==> l.lastVal == [])
    && (y > 0 ==> img[y-1] == l.lastVal && s.ids[y-1] == l.lastId && |l.lastVal| == |l.thisVal|)
  }

  /** How one more pixel changes the labels. */
  ghost predicate PixelStep(s: Labels, s': Labels, l: LinePair, y: nat, n: nat)
    requires |s.ids| == |s'.ids| == y + 1 && |s.ids[y]| == n < |s'.ids[y]| && n < |l.thisVal|
    requires |l.lastVal| == |l.lastId|
  {
    var v, id, left := l.thisVal[n], s'.ids[y][n], (if n > 0 then s.ids[y][n-1] else 0);
    if l.Fresh(n) then
      s'.root == s.root + [|s.root|] && s'.values == s.values + [v] && id == |s.root|
    else
      && s'.values == s.values
      && id == (if l.SameAsLeft(n) then left
                else if l.Above(n, v) then l.lastId[n]
                else if l.Above(n - 1, v) then l.lastId[n-1]
                else l.lastId[n+1])
      && (if l.Joins(n) then
            0 <= l.lastId[n] < |s.root| && 0 <= left < |s.root| && s'.root == MergeRoots(s.root, l.lastId[n], left)
          else s'.root == s.root)
  }

  lemma ScanLineStep(img: Image, conn: int, s0: Labels, y: nat, width: int, n: nat)
    requires Rectangular(img, width) && s0.WellFormed(width) && |s0.ids| == y < |img| && n < width
    ensures var l := LineAt(img, conn, s0.ids, y);
            var s, s' := ScanLine(img, conn, s0, y, width, n), ScanLine(img, conn, s0, y, width, n + 1);
            Grows(s.ids, s'.ids, Pixel(n, y)) && LineAbove(img, s, l, y, n) && PixelStep(s, s', l, y, n)
  {
    LineAtWellFormed(img, conn, s0, y, width);
    var l := LineAt(img, conn, s0.ids, y);
    LineIdsPrefix(l, |s0.root|, n, n + 1);
    var s, s' := ScanLine(img, conn, s0, y, width, n), ScanLine(img, conn, s0, y, width, n + 1);
    assert s.ids[y] == LineIds(l, |s0.root|, n) && s'.ids[y] == LineIds(l, |s0.root|, n + 1);
    assert s'.ids[..y] == s.ids[..y] == s0.ids;
    if y > 0 {
      assert s.ids[y-1] == s0.ids[y-1];
    }
  }

  /** Which earlier pixels the next pixel touches. */
  lemma TouchedPixels(img: Image, s: Labels, l: LinePair, y: nat, n: nat, q: Pixel)
    requires Consistent(img, s) && LineAbove(img, s, l, y, n) && InImage(s.ids, q)
    requires Touch(img, LinksOf(l.conn), Pixel(n, y), q)
    ensures !l.Fresh(n)
    ensures (q == Pixel(n - 1, y) && l.SameAsLeft(n)) || (q == Pixel(n, y - 1) && l.Above(n, l.thisVal[n]))
            || (!l.SameAsLeft(n) && !l.Above(n, l.thisVal[n]) &&
                q == Pixel(if l.Above(n - 1, l.thisVal[n]) then n - 1 else n + 1, y - 1))
  {
  }

  /** One pixel keeps every invariant. */
  lemma PixelKeepsGood(img: Image, s: Labels, s': Labels, l: LinePair, y: nat, n: nat)
    requires Good(img, LinksOf(l.conn), s) && InImage(img, Pixel(n, y))
    requires Grows(s.ids, s'.ids, Pixel(n, y)) && LineAbove(img, s, l, y, n) && PixelStep(s, s', l, y, n)
    ensures Good(img, LinksOf(l.conn), s')
  {
    var p, left, above := Pixel(n, y), Pixel(n - 1, y), Pixel(n, y - 1);
    forall q | InImage(s.ids, q) && Touch(img, LinksOf(l.conn), p, q)
      ensures !l.Fresh(n)
      ensures (q == left && l.SameAsLeft(n)) || (q == above && l.Above(n, l.thisVal[n]))
              || (!l.SameAsLeft(n) && !l.Above(n, l.thisVal[n]) &&
                  q == Pixel(if l.Above(n - 1, l.thisVal[n]) then n - 1 else n + 1, y - 1))
    {
      TouchedPixels(img, s, l, y, n, q);
    }
    if l.Fresh(n) {
      FreshKeepsGood(img, LinksOf(l.conn), s, s', p);
    } else if l.Joins(n) {
      CopyAndMergeKeepsGood(img, LinksOf(l.conn), s, s', p, left, above);
    } else if l.SameAsLeft(n) {
      CopyKeepsGood(img, LinksOf(l.conn), s, s', p, left);
    } else {
      var v := l.thisVal[n];
      var nb := if l.Above(n, v) then above else if l.Above(n - 1, v) then Pixel(n - 1, y - 1) else Pixel(n + 1, y - 1);
      CopyKeepsGood(img, LinksOf(l.conn), s, s', p, nb);
    }
  }

  lemma {:induction false} LineKeepsGood(img: Image, conn: int, s: Labels, y: nat, width: int, n: nat)
    requires Rectangular(img, width) && s.WellFormed(width) && |s.ids| == y < |img| && n <= width
    requires Good(img, LinksOf(conn), s)
    ensures Good(img, LinksOf(conn), ScanLine(img, conn, s, y, width, n))
  {
    hide Touch, Connected;
    if n == 0 {
      var r := ScanLine(img, conn, s, y, width, 0);
      assert r.ids == s.ids + [[]] && r.root == s.root && r.values == s.values;
      assert forall p :: InImage(r.ids, p) <==> InImage(s.ids, p);
      assert forall p :: InImage(s.ids, p) ==> At(r.ids, p) == At(s.ids, p);
    } else {
      LineKeepsGood(img, conn, s, y, width, n - 1);
      ScanLineStep(img, conn, s, y, width, n - 1);
      PixelKeepsGood(img, ScanLine(img, conn, s, y, width, n - 1), ScanLine(img, conn, s, y, width, n),
                     LineAt(img, conn, s.ids, y), y, n - 1);
    }
  }

  lemma {:induction false} ScanGood(img: Image, conn: int, width: int, y: nat)
    requires Rectangular(img, width) && 0 <= width && y <= |img|
    ensures Good(img, LinksOf(conn), Scan(img, conn, width, y))
  {
    if y > 0 {
      ScanGood(img, conn, width, y - 1);
      LineKeepsGood(img, conn, Scan(img, conn, width, y - 1), y - 1, width, width);
    }
  }

  // ---------------------------------------------------------------------
  //  Main results
  // ---------------------------------------------------------------------

  /** The final ids as a raster of their own. */
  ghost function FinalImage(img: Image, s: Labels): (lab: Image)
    requires |s.ids| == |img| && forall p :: InImage(img, p) ==> InImage(s.ids, p) && 0 <= At(s.ids, p) < |s.root|
    ensures forall p :: InImage(img, p) ==> InImage(lab, p) && At(lab, p) == s.Final(p)
  {
    var lab := seq(|img|, y requires 0 <= y < |img| =>
      seq(|img[y]|, x requires 0 <= x < |img[y]| && InImage(img, Pixel(x, y)) => s.Final(Pixel(x, y))));
    assert forall p :: InImage(img, p) ==> p == Pixel(p.x, p.y) && |lab[p.y]| == |img[p.y]|;
    lab
  }

  lemma GoodExact(img: Image, links: Links, s: Labels, p: Pixel, q: Pixel)
    requires Good(img, links, s) && |s.ids| == |img| && forall r :: InImage(img, r) ==> InImage(s.ids, r)
    requires InImage(img, p) && InImage(img, q)
    ensures s.Final(p) == s.Final(q) <==> Connected(img, links, p, q)
  {
    if Connected(img, links, p, q) {
      var path :| JoinedBy(img, links, p, q, path);
      PathInvariant(img, links, path, FinalImage(img, s));
    }
  }

  /** Two pixels get the same final id exactly when they are connected through the links of the enumeration. */
  lemma LabellingExact(img: Image, conn: int, width: int, p: Pixel, q: Pixel)
    requires Rectangular(img, width) && 0 <= width && InImage(img, p) && InImage(img, q)
    ensures LabelImage(img, conn, width).Final(p) == LabelImage(img, conn, width).Final(q)
            <==> Connected(img, LinksOf(conn), p, q)
  {
    hide Good, Connected;
    ScanGood(img, conn, width, |img|);
    GoodExact(img, LinksOf(conn), LabelImage(img, conn, width), p, q);
  }

  /** With connectedness 8 the same final id still implies true 8-connectedness. */
  lemma Labelling8Sound(img: Image, width: int, p: Pixel, q: Pixel)
    requires Rectangular(img, width) && 0 <= width && InImage(img, p) && InImage(img, q)
    requires LabelImage(img, 8, width).Final(p) == LabelImage(img, 8, width).Final(q)
    ensures Connected(img, SidesAndCorners, p, q)
  {
    LabellingExact(img, 8, width, p, q);
    forall a, b | Touch(img, EnumeratedCorners, a, b)
      ensures Connected(img, SidesAndCorners, a, b)
    {
      ConnectedStep(img, SidesAndCorners, a, b);
    }
    ConnectedMonotone(img, EnumeratedCorners, SidesAndCorners, p, q);
  }

  /** The corner an 8-connected enumeration overlooks: the pixel at the upper right of p is
      equal to p, the one above is not, and p was already settled by its left or upper left neighbour. */
  ghost predicate Overlooked(img: Image, p: Pixel) {
    && Equal(img, p, Pixel(p.x + 1, p.y - 1)) && !Equal(img, p, Pixel(p.x, p.y - 1))
    && (Equal(img, p, Pixel(p.x - 1, p.y)) || Equal(img, p, Pixel(p.x - 1, p.y - 1)))
  }

  ghost predicate Bridged(img: Image, p: Pixel) {
    Overlooked(img, p) ==> Connected(img, EnumeratedCorners, p, Pixel(p.x + 1, p.y - 1))
  }

  ghost predicate OverlookedBridged(img: Image) {
    forall p {:trigger Bridged(img, p)} :: Bridged(img, p)
  }

  /** A shared corner that is not overlooked is linked. */
  lemma CornersLinked(img: Image, width: int, p: Pixel, q: Pixel)
    requires Rectangular(img, width)
    requires Equal(img, p, q) && SharesCorner(p, q) && q.y == p.y - 1
    requires q.x == p.x + 1 ==> !Overlooked(img, p)
    ensures Connected(img, EnumeratedCorners, p, q)
  {
    var above, left := Pixel(p.x, p.y - 1), Pixel(p.x - 1, p.y);
    if Equal(img, p, above) {
      ConnectedStep(img, EnumeratedCorners, p, above);
      ConnectedStep(img, EnumeratedCorners, above, q);
      ConnectedTrans(img, EnumeratedCorners, p, above, q);
    } else if Equal(img, p, left) {
      ConnectedStep(img, EnumeratedCorners, p, left);
      ConnectedStep(img, EnumeratedCorners, left, q);
      ConnectedTrans(img, EnumeratedCorners, p, left, q);
    } else {
      ConnectedStep(img, EnumeratedCorners, p, q);
    }
  }

  /** With connectedness 8 the ids are exactly the 8-connected components if and only if every
      overlooked corner is bridged by some other chain of links. */
  lemma Labelling8ExactIff(img: Image, width: int)
    requires Rectangular(img, width) && 0 <= width
    ensures (forall p, q :: InImage(img, p) && InImage(img, q) ==>
               (LabelImage(img, 8, width).Final(p) == LabelImage(img, 8, width).Final(q)
                <==> Connected(img, SidesAndCorners, p, q)))
            <==> OverlookedBridged(img)
  {
    var s := LabelImage(img, 8, width);
    if OverlookedBridged(img) {
      forall a, b | Touch(img, SidesAndCorners, a, b)
        ensures Connected(img, EnumeratedCorners, a, b)
      {
        CornersBridged(img, width, a, b);
      }
      forall p, q | InImage(img, p) && InImage(img, q)
        ensures s.Final(p) == s.Final(q) <==> Connected(img, SidesAndCorners, p, q)
      {
        LabellingExact(img, 8, width, p, q);
        if Connected(img, SidesAndCorners, p, q) { ConnectedMonotone(img, SidesAndCorners, EnumeratedCorners, p, q); }
        if s.Final(p) == s.Final(q) { Labelling8Sound(img, width, p, q); }
      }
    }
    if forall p, q :: InImage(img, p) && InImage(img, q) ==> (s.Final(p) == s.Final(q) <==> Connected(img, SidesAndCorners, p, q)) {
      forall p
        ensures Bridged(img, p)
      {
        var q := Pixel(p.x + 1, p.y - 1);
        if Overlooked(img, p) {
          ConnectedStep(img, SidesAndCorners, p, q);
          LabellingExact(img, 8, width, p, q);
        }
      }
    }
  }

  /** So they are where no corner is overlooked: a look at the four neighbours before each pixel decides. */
  lemma Labelling8ExactLocally(img: Image, width: int, p: Pixel, q: Pixel)
    requires Rectangular(img, width) && 0 <= width && InImage(img, p) && InImage(img, q)
    requires forall a :: !Overlooked(img, a)
    ensures LabelImage(img, 8, width).Final(p) == LabelImage(img, 8, width).Final(q) <==> Connected(img, SidesAndCorners, p, q)
  {
    forall a ensures Bridged(img, a) {
    }
    Labelling8ExactIff(img, width);
  }

  lemma CornersBridged(img: Image, width: int, a: Pixel, b: Pixel)
    requires Rectangular(img, width) && Touch(img, SidesAndCorners, a, b) && OverlookedBridged(img)
    ensures Connected(img, EnumeratedCorners, a, b)
  {
    if SharesSide(a, b) {
      ConnectedStep(img, EnumeratedCorners, a, b);
    } else if b.y < a.y {
      LowerCornerBridged(img, width, a, b);
    } else {
      LowerCornerBridged(img, width, b, a);
      ConnectedSym(img, EnumeratedCorners, b, a);
    }
  }

  lemma LowerCornerBridged(img: Image, width: int, p: Pixel, q: Pixel)
    requires Rectangular(img, width) && OverlookedBridged(img)
    requires Equal(img, p, q) && SharesCorner(p, q) && q.y == p.y - 1
    ensures Connected(img, EnumeratedCorners, p, q)
  {
    if q.x == p.x + 1 && Overlooked(img, p) {
      assert q == Pixel(p.x + 1, p.y - 1) && Bridged(img, p);
    } else {
      CornersLinked(img, width, p, q);
    }
  }

  /** An overlooked corner that nothing bridges: the ones meet at a corner and stay apart. */
  lemma Labelling8CanFail()
    ensures var img := [[0, 0, 1], [1, 1, 0]];
            var p, q := Pixel(1, 1), Pixel(2, 0);
            && Rectangular(img, 3)
            && Connected(img, SidesAndCorners, p, q)
            && LabelImage(img, 8, 3).Final(p) != LabelImage(img, 8, 3).Final(q)
  {
    var img := [[0, 0, 1], [1, 1, 0]];
    var p, q := Pixel(1, 1), Pixel(2, 0);
    assert Touch(img, SidesAndCorners, p, q);
    ConnectedStep(img, SidesAndCorners, p, q);
    LabellingExact(img, 8, 3, p, q);
    if Connected(img, EnumeratedCorners, p, q) {
      var path :| JoinedBy(img, EnumeratedCorners, p, q, path);
      CornerUnreached(path);
    }
  }

  lemma {:induction false} CornerUnreached(path: seq<Pixel>)
    requires IsPath([[0, 0, 1], [1, 1, 0]], EnumeratedCorners, path)
    requires path[0] != Pixel(2, 0)
    ensures path[|path| - 1] != Pixel(2, 0)
    decreases |path|
  {
    if |path| > 1 {
      CornerUnreached(path[..|path| - 1]);
      TheCornerTouchesNothing(path[|path| - 2], path[|path| - 1]);
    }
  }

  lemma TheCornerTouchesNothing(a: Pixel, b: Pixel)
    requires Touch([[0, 0, 1], [1, 1, 0]], EnumeratedCorners, a, b)
    ensures a != Pixel(2, 0) && b != Pixel(2, 0)
  {
  }
}
