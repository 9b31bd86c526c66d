/** Rasters as rows of integers, pixels, and connectivity.  Two pixels are connected when
    a path of touching, equal-valued pixels joins them; nothing here mentions labels. */
module Raster {
  import opened Basics

  type Image = seq<seq<int>>

  ghost predicate Rectangular(img: Image, width: int) {
    forall y :: 0 <= y < |img| ==> |img[y]| == width
  }

  ghost predicate InImage(img: Image, p: Pixel) {
    0 <= p.y < |img| && 0 <= p.x < |img[p.y]|
  }

  ghost function At(img: Image, p: Pixel): int
    requires InImage(img, p)
  {
    img[p.y][p.x]
  }

  /** All pixels of the raster. */
  ghost function Pixels(img: Image): (s: set<Pixel>)
    ensures forall p :: p in s <==> InImage(img, p)
  {
    var s := set y, x | 0 <= y < |img| && 0 <= x < |img[y]| :: Pixel(x, y);
    assert forall p :: InImage(img, p) ==> p == Pixel(p.x, p.y);
    s
  }

  ghost predicate SharesSide(p: Pixel, q: Pixel) {
    Abs(p.x - q.x) + Abs(p.y - q.y) == 1
  }

  ghost predicate SharesCorner(p: Pixel, q: Pixel) {
    Abs(p.x - q.x) == 1 && Abs(p.y - q.y) == 1
  }

  ghost predicate Equal(img: Image, p: Pixel, q: Pixel) {
    InImage(img, p) && InImage(img, q) && At(img, p) == At(img, q)
  }

  /** The corner through which an 8-connected enumeration links p to the line above: p equals
      neither its left nor its upper neighbour, and the upper left corner goes first. */
  ghost predicate CornerLink(img: Image, p: Pixel, q: Pixel) {
    && q.y == p.y - 1 && Equal(img, p, q)
    && !Equal(img, p, Pixel(p.x - 1, p.y)) && !Equal(img, p, Pixel(p.x, p.y - 1))
    && (q.x == p.x - 1 || (q.x == p.x + 1 && !Equal(img, p, Pixel(p.x - 1, p.y - 1))))
  }

  /** Which equal neighbours touch: those sharing a side, those sharing a side or a corner,
      or those sharing a side or one of the corners an 8-connected enumeration looks at. */
  datatype Links = Sides | SidesAndCorners | EnumeratedCorners

  ghost predicate Touch(img: Image, links: Links, p: Pixel, q: Pixel) {
    && Equal(img, p, q)
    && (match links
        case Sides => SharesSide(p, q)
        case SidesAndCorners => SharesSide(p, q) || SharesCorner(p, q)
        case EnumeratedCorners => SharesSide(p, q) || CornerLink(img, p, q) || CornerLink(img, q, p))
  }

  /** A path of in-raster pixels, each touching the one before it. */
  ghost predicate IsPath(img: Image, links: Links, path: seq<Pixel>) {
    && |path| > 0
    && (forall k :: 0 <= k < |path| ==> InImage(img, path[k]))
    && (forall k :: 0 < k < |path| ==> Touch(img, links, path[k-1], path[k]))
  }

  ghost predicate JoinedBy(img: Image, links: Links, p: Pixel, q: Pixel, path: seq<Pixel>) {
    IsPath(img, links, path) && path[0] == p && path[|path| - 1] == q
  }

  /** p and q are joined by an equal-valued path. */
  ghost predicate Connected(img: Image, links: Links, p: Pixel, q: Pixel) {
    exists path :: JoinedBy(img, links, p, q, path)
  }

  /** The connected component of p. */
  ghost function Component(img: Image, links: Links, p: Pixel): set<Pixel> {
    set q | q in Pixels(img) && Connected(img, links, p, q)
  }

  lemma ConnectedRefl(img: Image, links: Links, p: Pixel)
    requires InImage(img, p)
    ensures Connected(img, links, p, p)
  {
    assert JoinedBy(img, links, p, p, [p]);
  }

  lemma ConnectedStep(img: Image, links: Links, p: Pixel, q: Pixel)
    requires Touch(img, links, p, q)
    ensures Connected(img, links, p, q)
  {
    assert JoinedBy(img, links, p, q, [p, q]);
  }

  lemma ConnectedTrans(img: Image, links: Links, p: Pixel, q: Pixel, r: Pixel)
    requires Connected(img, links, p, q) && Connected(img, links, q, r)
    ensures Connected(img, links, p, r)
  {
    var u :| JoinedBy(img, links, p, q, u);
    var v :| JoinedBy(img, links, q, r, v);
    assert JoinedBy(img, links, p, r, u + v[1..]);
  }

  ghost function Reversed(s: seq<Pixel>): seq<Pixel> {
    seq(|s|, k requires 0 <= k < |s| => s[|s| - 1 - k])
  }

  lemma ConnectedSym(img: Image, links: Links, p: Pixel, q: Pixel)
    requires Connected(img, links, p, q)
    ensures Connected(img, links, q, p)
  {
    var u :| JoinedBy(img, links, p, q, u);
    var v := Reversed(u);
    forall k | 0 < k < |v|
      ensures Touch(img, links, v[k-1], v[k])
    {
      assert v[k] == u[|u| - 1 - k] && v[k-1] == u[|u| - k];
    }
    assert JoinedBy(img, links, q, p, v);
  }

  lemma ConnectedInImage(img: Image, links: Links, p: Pixel, q: Pixel)
    requires Connected(img, links, p, q)
    ensures InImage(img, p) && InImage(img, q)
  {
  }

  /** Anything that holds across every equal-valued adjacency holds across a path. */
  lemma {:induction false} PathInvariant(img: Image, links: Links, path: seq<Pixel>, lab: Image)
    requires IsPath(img, links, path)
    requires forall p :: InImage(img, p) ==> InImage(lab, p)
    requires forall p, q :: Touch(img, links, p, q) ==> At(lab, p) == At(lab, q)
    ensures At(lab, path[0]) == At(lab, path[|path| - 1])
    ensures At(img, path[0]) == At(img, path[|path| - 1])
    decreases |path|
  {
    if |path| == 1 {
    } else {
      var init := path[..|path| - 1];
      PathInvariant(img, links, init, lab);
      assert init[0] == path[0] && init[|init| - 1] == path[|path| - 2];
    }
  }

  /** Connected pixels have the same value. */
  lemma ConnectedSameValue(img: Image, links: Links, p: Pixel, q: Pixel)
    requires Connected(img, links, p, q)
    ensures InImage(img, p) && InImage(img, q) && At(img, p) == At(img, q)
  {
    var u :| JoinedBy(img, links, p, q, u);
    PathInvariant(img, links, u, img);
  }

  /** A coarser relation connects more. */
  lemma ConnectedMonotone(img: Image, links: Links, more: Links, p: Pixel, q: Pixel)
    requires Connected(img, links, p, q)
    requires forall a, b :: Touch(img, links, a, b) ==> Connected(img, more, a, b)
    ensures Connected(img, more, p, q)
  {
    var u :| JoinedBy(img, links, p, q, u);
    PathMonotone(img, links, more, u);
  }

  lemma {:induction false} PathMonotone(img: Image, links: Links, more: Links, path: seq<Pixel>)
    requires IsPath(img, links, path)
    requires forall a, b :: Touch(img, links, a, b) ==> Connected(img, more, a, b)
    ensures Connected(img, more, path[0], path[|path| - 1])
    decreases |path|
  {
    if |path| == 1 {
      ConnectedRefl(img, more, path[0]);
    } else {
      var init := path[..|path| - 1];
      PathMonotone(img, links, more, init);
      ConnectedTrans(img, more, path[0], init[|init| - 1], path[|path| - 1]);
    }
  }
}
