/** Contour crossings of grid cells (contour.cpp): pixels are kept off the levels, and the cells on both
    sides of an edge see the same crossing point. */
module ContourCells {
  import opened Basics

  datatype Point = Point(x: real, y: real)

  /** A corner of a cell: a value and its place. */
  datatype Corner = Corner(value: real, at: Point)

  datatype Rect = Rect(ul: Corner, ll: Corner, lr: Corner, ur: Corner) {
    /** Corner e, counted against the clock from the upper left. */
    function At(e: int): Corner {
      match e % 4 case 0 => ul case 1 => ll case 2 => lr case _ => ur
    }

    /** Upright, and of a positive size. */
    predicate Upright() {
      ul.at.x == ll.at.x < lr.at.x == ur.at.x && ul.at.y == ur.at.y < ll.at.y == lr.at.y
    }

    predicate Off(level: real) {
      ul.value != level && ll.value != level && lr.value != level && ur.value != level
    }

    function Min(): real {
      Least(Least(ul.value, ur.value), Least(ll.value, lr.value))
    }

    function Max(): real {
      Greatest(Greatest(ul.value, ur.value), Greatest(ll.value, lr.value))
    }
  }

  datatype Segment = Segment(level: real, a: Point, b: Point)

  // ---------------------------------------------------------------------
  //  Levels
  // ---------------------------------------------------------------------

  const FUDGE_EXACT := 0.001

  function Scaled(v: real, interval: real): real
    requires interval > 0.0
  {
    v / interval
  }

  function LevelAt(k: int, interval: real, offset: real): real {
    k as real * interval + offset
  }

  function Ceil(x: real): int {
    -((-x).Floor)
  }

  /** A pixel value moved off the level it is exactly on. */
  function Perturbed(v: real, interval: real, offset: real): real
    requires interval > 0.0
  {
    var level := Scaled(v - offset, interval);
    if level - level.Floor as real == 0.0 then v + interval * FUDGE_EXACT else v
  }

  ghost predicate OffLevels(v: real, interval: real, offset: real) {
    forall k: int :: v != LevelAt(k, interval, offset)
  }

  lemma ScaledTimes(v: real, interval: real)
    requires interval > 0.0
    ensures Scaled(v, interval) * interval == v
  {
  }

  lemma ScaledLevel(k: int, interval: real, offset: real)
    requires interval > 0.0
    ensures Scaled(LevelAt(k, interval, offset) - offset, interval) == k as real
  {
  }

  /** No pixel stays on a level, and one that was on none is not moved. */
  lemma PerturbedOffLevels(v: real, interval: real, offset: real)
    requires interval > 0.0
    ensures OffLevels(Perturbed(v, interval, offset), interval, offset)
    ensures OffLevels(v, interval, offset) <==> Perturbed(v, interval, offset) == v
    ensures Perturbed(v, interval, offset) == v || Perturbed(v, interval, offset) == v + interval / 1000.0
  {
    var w := Perturbed(v, interval, offset);
    var n := Scaled(v - offset, interval).Floor;
    ScaledTimes(v - offset, interval);
    forall k: int ensures w != LevelAt(k, interval, offset) {
      ScaledLevel(k, interval, offset);
      if w != v { BetweenLevels(v, n, k, interval, offset); }
    }
    if w != v { assert v == LevelAt(n, interval, offset); }
  }

  lemma BetweenLevels(v: real, n: int, k: int, interval: real, offset: real)
    requires interval > 0.0 && v - offset == n as real * interval
    ensures v + interval * FUDGE_EXACT != LevelAt(k, interval, offset)
  {
    if k <= n {
      ProductKeepsOrder(k as real, n as real, interval);
      assert interval * FUDGE_EXACT > 0.0;
    } else {
      ProductKeepsOrder(n as real + 1.0, k as real, interval);
      assert (n as real + 1.0) * interval == n as real * interval + interval;
      assert interval * FUDGE_EXACT < interval;
    }
  }

  lemma ProductKeepsOrder(a: real, b: real, c: real)
    requires c > 0.0 && a <= b
    ensures a * c <= b * c
  {
  }

  // ---------------------------------------------------------------------
  //  Crossings of one edge
  // ---------------------------------------------------------------------

  function Mix(a: real, b: real, ratio: real): real {
    a * (1.0 - ratio) + b * ratio
  }

  function Ratio(level: real, low: real, high: real): real
    requires low != high
  {
    (level - low) / (high - low)
  }

  /** The point where the values between two corners reach a level. */
  function PointBetween(low: Corner, high: Corner, level: real): Point
    requires low.value != high.value
  {
    var ratio := Ratio(level, low.value, high.value);
    Point(Mix(low.at.x, high.at.x, ratio), Mix(low.at.y, high.at.y, ratio))
  }

  /** What one edge contributes: a crossing, or its end when the whole edge, but not the next one, is on the level. */
  function Crossing(a: Corner, b: Corner, next: real, level: real): Option<Point> {
    if a.value < level && b.value >= level then Some(PointBetween(a, b, level))
    else if a.value > level && b.value <= level then Some(PointBetween(b, a, level))
    else if a.value == level && b.value == level && next != level then Some(b.at)
    else None
  }

  /** p is where the values along the edge from a to b, taken as linear, reach the level. */
  predicate Reaches(a: Corner, b: Corner, level: real, p: Point) {
    && (a.value <= level <= b.value || b.value <= level <= a.value)
    && (p.x - a.at.x) * (b.value - a.value) == (level - a.value) * (b.at.x - a.at.x)
    && (p.y - a.at.y) * (b.value - a.value) == (level - a.value) * (b.at.y - a.at.y)
    && (a.value == b.value ==> p == b.at)
  }

  lemma MixReaches(u: real, v: real, level: real, low: real, high: real)
    requires low != high
    ensures (Mix(u, v, Ratio(level, low, high)) - u) * (high - low) == (level - low) * (v - u)
    ensures (Mix(u, v, Ratio(level, low, high)) - v) * (low - high) == (level - high) * (u - v)
  {
    var ratio := Ratio(level, low, high);
    MixIs(u, v, ratio);
    assert ratio * (high - low) == level - low;
    assert ((v - u) * ratio) * (high - low) == (v - u) * (ratio * (high - low));
  }

  /** Every crossing is where its edge reaches the level. */
  lemma CrossingReaches(a: Corner, b: Corner, next: real, level: real)
    requires Crossing(a, b, next, level).Some?
    ensures Reaches(a, b, level, Crossing(a, b, next, level).value)
  {
    hide Mix, Ratio;
    if a.value != b.value {
      var low, high := if a.value < b.value then a else b, if a.value < b.value then b else a;
      MixReaches(low.at.x, high.at.x, level, low.value, high.value);
      MixReaches(low.at.y, high.at.y, level, low.value, high.value);
    }
  }

  predicate Crossed(a: Corner, b: Corner, level: real) {
    a.value < level < b.value || b.value < level < a.value
  }

  /** With both ends off the level, an edge is crossed or not in either direction alike, at the very same point. */
  lemma CrossingSymmetric(a: Corner, b: Corner, next: real, next': real, level: real)
    requires a.value != level && b.value != level
    ensures Crossing(a, b, next, level) == Crossing(b, a, next', level)
    ensures Crossing(a, b, next, level).Some? <==> Crossed(a, b, level)
  {
  }

  function Fraction(d: real, ratio: real): real {
    d * ratio
  }

  lemma MixIs(a: real, b: real, ratio: real)
    ensures Mix(a, b, ratio) == a + Fraction(b - a, ratio)
  {
  }

  lemma MixSwapped(a: real, b: real, ratio: real)
    ensures Mix(a, b, ratio) == Mix(b, a, 1.0 - ratio)
  {
  }

  lemma MixAscending(a: real, b: real, ratio: real)
    requires 0.0 < ratio < 1.0 && a < b
    ensures a < Mix(a, b, ratio) < b
  {
    MixIs(a, b, ratio);
    FractionOf(b - a, ratio);
  }

  lemma MixBetween(a: real, b: real, ratio: real)
    requires 0.0 < ratio < 1.0
    ensures a < b ==> a < Mix(a, b, ratio) < b
    ensures a > b ==> a > Mix(a, b, ratio) > b
    ensures a == b ==> Mix(a, b, ratio) == a
  {
    if a < b { MixAscending(a, b, ratio); }
    if a > b { MixSwapped(a, b, ratio); MixAscending(b, a, 1.0 - ratio); }
    if a == b { MixIs(a, b, ratio); }
  }

  lemma FractionOf(d: real, ratio: real)
    requires d > 0.0 && 0.0 < ratio < 1.0
    ensures 0.0 < Fraction(d, ratio) < d
  {
    ProductPositive(d, ratio);
    LessThanWhole(d, ratio);
  }

  lemma LessThanWhole(d: real, ratio: real)
    requires d > 0.0 && ratio < 1.0
    ensures Fraction(d, ratio) < d
  {
  }

  lemma ProductPositive(a: real, b: real)
    requires a > 0.0 && b > 0.0
    ensures a * b > 0.0
  {
  }

  lemma RatioInside(level: real, low: real, high: real)
    requires low < level < high
    ensures 0.0 < Ratio(level, low, high) < 1.0
  {
    ProperFraction(level - low, high - low);
  }

  lemma ProperFraction(a: real, b: real)
    requires 0.0 < a < b
    ensures 0.0 < a / b < 1.0
  {
    var q := a / b;
    Quotient(a, b);
    if q <= 0.0 { ProductKeepsOrder(q, 0.0, b); }
    if q >= 1.0 { ProductKeepsOrder(1.0, q, b); }
  }

  lemma Quotient(a: real, b: real)
    requires b > 0.0
    ensures a / b * b == a
  {
  }

  predicate StrictlyBetween(a: real, x: real, b: real) {
    a < x < b || b < x < a
  }

  /** A crossing point lies strictly inside its edge. */
  lemma CrossingInside(a: Corner, b: Corner, next: real, level: real)
    requires Crossed(a, b, level)
    ensures var p := Crossing(a, b, next, level).value;
            && (if a.at.x == b.at.x then p.x == a.at.x else StrictlyBetween(a.at.x, p.x, b.at.x))
            && (if a.at.y == b.at.y then p.y == a.at.y else StrictlyBetween(a.at.y, p.y, b.at.y))
  {
    var low, high := if a.value < level then a else b, if a.value < level then b else a;
    var ratio := Ratio(level, low.value, high.value);
    RatioInside(level, low.value, high.value);
    MixBetween(low.at.x, high.at.x, ratio);
    MixBetween(low.at.y, high.at.y, ratio);
  }

  // ---------------------------------------------------------------------
  //  Crossings of a cell
  // ---------------------------------------------------------------------

  function EdgeCrossing(r: Rect, e: nat, level: real): Option<Point> {
    Crossing(r.At(e), r.At(e + 1), r.At(e + 2).value, level)
  }

  /** The points of the first n edges. */
  function Points(r: Rect, level: real, n: nat): (p: seq<Point>)
    ensures |p| <= n
  {
    if n == 0 then []
    else Points(r, level, n - 1) + (match EdgeCrossing(r, n - 1, level) case Some(p) => [p] case None => [])
  }

  /** The segments of a cell at a level: the first two points make one, and four points make two. */
  function Segments(r: Rect, level: real): seq<Segment> {
    var p := Points(r, level, 4);
    if |p| == 4 then [Segment(level, p[0], p[1]), Segment(level, p[2], p[3])]
    else if |p| >= 2 then [Segment(level, p[0], p[1])]
    else []
  }

  predicate EdgeCrossed(r: Rect, e: nat, level: real) {
    Crossed(r.At(e), r.At(e + 1), level)
  }

  lemma UnrollPoints(r: Rect, level: real)
    ensures Points(r, level, 4) == Found(r, 0, level) + Found(r, 1, level) + Found(r, 2, level) + Found(r, 3, level)
  {
    assert Points(r, level, 1) == Points(r, level, 0) + Found(r, 0, level);
    assert Points(r, level, 2) == Points(r, level, 1) + Found(r, 1, level);
    assert Points(r, level, 3) == Points(r, level, 2) + Found(r, 2, level);
    assert Points(r, level, 4) == Points(r, level, 3) + Found(r, 3, level);
  }

  function Found(r: Rect, e: nat, level: real): (p: seq<Point>)
    ensures |p| <= 1
  {
    match EdgeCrossing(r, e, level) case Some(p) => [p] case None => []
  }

  lemma FoundCrossed(r: Rect, e: nat, level: real)
    requires r.Off(level)
    ensures |Found(r, e, level)| == 1 <==> EdgeCrossed(r, e, level)
  {
  }

  /** A cell with no corner on the level has no, two or four crossings: none is left over. */
  lemma NoneTwoOrFour(r: Rect, level: real)
    requires r.Off(level)
    ensures |Points(r, level, 4)| == 0 || |Points(r, level, 4)| == 2 || |Points(r, level, 4)| == 4
    ensures 2 * |Segments(r, level)| == |Points(r, level, 4)|
  {
    UnrollPoints(r, level);
    FoundCrossed(r, 0, level);
    FoundCrossed(r, 1, level);
    FoundCrossed(r, 2, level);
    FoundCrossed(r, 3, level);
  }

  /** Corner e is on the level, and both corners beside it are off the level on the same side. */
  predicate Touched(r: Rect, e: nat, level: real) {
    var v, before, after := r.At(e).value, r.At(e + 3).value, r.At(e + 1).value;
    v == level && ((before < level && after < level) || (before > level && after > level))
  }

  /** Edge e is on the level, and the edge opposite is crossed. */
  predicate Straddled(r: Rect, e: nat, level: real) {
    r.At(e).value == level && r.At(e + 1).value == level && EdgeCrossed(r, e + 2, level)
  }

  function One(b: bool): nat { if b then 1 else 0 }

  function TouchCount(r: Rect, level: real): nat {
    One(Touched(r, 0, level)) + One(Touched(r, 1, level)) + One(Touched(r, 2, level)) + One(Touched(r, 3, level))
  }

  /** Whether edge e contributes a point. */
  predicate Hit(r: Rect, e: nat, level: real) {
    var a, b, next := r.At(e).value, r.At(e + 1).value, r.At(e + 2).value;
    (a < level && b >= level) || (a > level && b <= level) || (a == level && b == level && next != level)
  }

  lemma PointsHit(r: Rect, level: real)
    ensures |Points(r, level, 4)|
            == One(Hit(r, 0, level)) + One(Hit(r, 1, level)) + One(Hit(r, 2, level)) + One(Hit(r, 3, level))
  {
    UnrollPoints(r, level);
  }

  /** Whatever its corners are, a cell has a crossing left over if and only if a single corner touches the level
      or an edge on the level is opposite to a crossed one. */
  lemma LeftOverIff(r: Rect, level: real)
    ensures 2 * |Segments(r, level)| != |Points(r, level, 4)|
            <==> TouchCount(r, level) == 1
                 || Straddled(r, 0, level) || Straddled(r, 1, level) || Straddled(r, 2, level) || Straddled(r, 3, level)
  {
    PointsHit(r, level);
    SegmentsOf(r, level);
  }

  lemma SegmentsOf(r: Rect, level: real)
    ensures 2 * |Segments(r, level)| == |Points(r, level, 4)| <==> |Points(r, level, 4)| != 1 && |Points(r, level, 4)| != 3
  {
  }

  // ---------------------------------------------------------------------
  //  Every crossing is the end of one segment
  // ---------------------------------------------------------------------

  function Ends(s: Segment, p: Point): nat {
    (if s.a == p then 1 else 0) + (if s.b == p then 1 else 0)
  }

  /** How often a point is the end of one of the first n segments, counting those of a level. */
  function EndsTo(segments: seq<Segment>, n: nat, level: real, p: Point): nat
    requires n <= |segments|
  {
    if n == 0 then 0
    else EndsTo(segments, n - 1, level, p) + (if segments[n-1].level == level then Ends(segments[n-1], p) else 0)
  }

  /** How often a point is the end of a segment of a level. */
  function EndCount(segments: seq<Segment>, level: real, p: Point): nat {
    EndsTo(segments, |segments|, level, p)
  }

  lemma {:induction false} EndsToSame(a: seq<Segment>, b: seq<Segment>, n: nat, level: real, p: Point)
    requires n <= |a| && n <= |b| && forall i :: 0 <= i < n ==> a[i] == b[i]
    ensures EndsTo(a, n, level, p) == EndsTo(b, n, level, p)
  {
    if n > 0 { EndsToSame(a, b, n - 1, level, p); }
  }

  lemma {:induction false} EndsToConcat(a: seq<Segment>, b: seq<Segment>, n: nat, level: real, p: Point)
    requires n <= |b|
    ensures EndsTo(a + b, |a| + n, level, p) == EndsTo(a, |a|, level, p) + EndsTo(b, n, level, p)
  {
    if n == 0 { EndsToSame(a + b, a, |a|, level, p); } else { EndsToConcat(a, b, n - 1, level, p); }
  }

  lemma EndCountConcat(a: seq<Segment>, b: seq<Segment>, level: real, p: Point)
    ensures EndCount(a + b, level, p) == EndCount(a, level, p) + EndCount(b, level, p)
  {
    EndsToConcat(a, b, |b|, level, p);
  }

  /** Crossings of different edges are different points. */
  lemma CrossingsDiffer(r: Rect, level: real, e: nat, f: nat)
    requires r.Upright() && r.Off(level) && e < f < 4 && EdgeCrossed(r, e, level) && EdgeCrossed(r, f, level)
    ensures EdgeCrossing(r, e, level) != EdgeCrossing(r, f, level)
  {
    CrossingInside(r.At(e), r.At(e + 1), r.At(e + 2).value, level);
    CrossingInside(r.At(f), r.At(f + 1), r.At(f + 2).value, level);
  }

  function CountPoint(ps: seq<Point>, p: Point): nat {
    if |ps| == 0 then 0 else CountPoint(ps[..|ps|-1], p) + (if ps[|ps|-1] == p then 1 else 0)
  }

  lemma EndCountOne(s: Segment, level: real, p: Point)
    ensures EndCount([s], level, p) == if s.level == level then Ends(s, p) else 0
  {
    assert EndsTo([s], 0, level, p) == 0;
  }

  lemma EndCountTwo(s: Segment, t: Segment, level: real, p: Point)
    ensures EndCount([s, t], level, p) == (if s.level == level then Ends(s, p) else 0) + (if t.level == level then Ends(t, p) else 0)
  {
    assert [s, t] == [s] + [t];
    EndCountConcat([s], [t], level, p);
    EndCountOne(s, level, p);
    EndCountOne(t, level, p);
  }

  /** The ends of a cell's segments are its points, each as often as it occurs there. */
  lemma EndsArePoints(r: Rect, level: real, p: Point)
    requires r.Off(level)
    ensures EndCount(Segments(r, level), level, p) == CountPoint(Points(r, level, 4), p)
  {
    NoneTwoOrFour(r, level);
    var ps := Points(r, level, 4);
    if |ps| == 4 {
      EndCountTwo(Segment(level, ps[0], ps[1]), Segment(level, ps[2], ps[3]), level, p);
      CountTwo(ps[..2], p);
      CountTwo(ps[2..], p);
      assert ps[..2] + ps[2..] == ps;
      CountConcat(ps[..2], ps[2..], p);
    } else if |ps| == 2 {
      EndCountOne(Segment(level, ps[0], ps[1]), level, p);
      CountTwo(ps, p);
    }
  }

  lemma CountOne(q: Point, p: Point)
    ensures CountPoint([q], p) == if q == p then 1 else 0
  {
  }

  lemma CountTwo(ps: seq<Point>, p: Point)
    requires |ps| == 2
    ensures CountPoint(ps, p) == (if ps[0] == p then 1 else 0) + (if ps[1] == p then 1 else 0)
  {
    assert ps[..1] == [ps[0]];
    CountOne(ps[0], p);
  }

  lemma {:induction false} CountConcat(a: seq<Point>, b: seq<Point>, p: Point)
    ensures CountPoint(a + b, p) == CountPoint(a, p) + CountPoint(b, p)
  {
    if |b| == 0 {
      assert a + b == a;
    } else {
      var n := |a + b| - 1;
      assert (a + b)[..n] == a + b[..|b|-1] && (a + b)[n] == b[|b|-1];
      CountConcat(a, b[..|b|-1], p);
    }
  }

  /** An edge has the crossing of edge e exactly if it is that edge. */
  lemma CountOnEdge(r: Rect, level: real, e: nat, f: nat)
    requires r.Upright() && r.Off(level) && e < 4 && f < 4 && EdgeCrossed(r, e, level) && EdgeCrossing(r, e, level).Some?
    ensures CountPoint(Found(r, f, level), EdgeCrossing(r, e, level).value) == if e == f then 1 else 0
  {
    var p := EdgeCrossing(r, e, level).value;
    FoundCrossed(r, f, level);
    if EdgeCrossed(r, f, level) {
      CountOne(Found(r, f, level)[0], p);
      if f < e { CrossingsDiffer(r, level, f, e); }
      if e < f { CrossingsDiffer(r, level, e, f); }
    }
  }

  /** How often the first n edges have the crossing of edge e. */
  lemma {:induction false} CountOnEdges(r: Rect, level: real, e: nat, n: nat)
    requires r.Upright() && r.Off(level) && e < 4 && n <= 4 && EdgeCrossed(r, e, level) && EdgeCrossing(r, e, level).Some?
    ensures CountPoint(Points(r, level, n), EdgeCrossing(r, e, level).value) == if e < n then 1 else 0
  {
    if n > 0 {
      CountOnEdges(r, level, e, n - 1);
      assert Points(r, level, n) == Points(r, level, n - 1) + Found(r, n - 1, level);
      CountConcat(Points(r, level, n - 1), Found(r, n - 1, level), EdgeCrossing(r, e, level).value);
      CountOnEdge(r, level, e, n - 1);
    }
  }

  /** The crossing of an edge is the end of exactly one of the cell's segments at that level. */
  lemma EndpointOnce(r: Rect, level: real, e: nat)
    requires r.Upright() && r.Off(level) && e < 4 && EdgeCrossed(r, e, level)
    ensures EdgeCrossing(r, e, level).Some? && EndCount(Segments(r, level), level, EdgeCrossing(r, e, level).value) == 1
  {
    CrossingSymmetric(r.At(e), r.At(e + 1), r.At(e + 2).value, 0.0, level);
    CountOnEdges(r, level, e, 4);
    EndsArePoints(r, level, EdgeCrossing(r, e, level).value);
  }

  // ---------------------------------------------------------------------
  //  Every end is where an edge reaches the level
  // ---------------------------------------------------------------------

  /** An edge of the cell reaches the level at p. */
  predicate OnEdge(r: Rect, level: real, p: Point) {
    || Reaches(r.ul, r.ll, level, p) || Reaches(r.ll, r.lr, level, p)
    || Reaches(r.lr, r.ur, level, p) || Reaches(r.ur, r.ul, level, p)
  }

  lemma FoundReaches(r: Rect, e: nat, level: real)
    requires e < 4 && |Found(r, e, level)| == 1
    ensures OnEdge(r, level, Found(r, e, level)[0])
  {
    hide Crossing, Reaches;
    CrossingReaches(r.At(e), r.At(e + 1), r.At(e + 2).value, level);
  }

  lemma {:induction false} PointsReach(r: Rect, level: real, n: nat, i: nat)
    requires n <= 4 && i < |Points(r, level, n)|
    ensures OnEdge(r, level, Points(r, level, n)[i])
  {
    hide EdgeCrossing, OnEdge;
    assert Points(r, level, n) == Points(r, level, n - 1) + Found(r, n - 1, level);
    if i < |Points(r, level, n - 1)| { PointsReach(r, level, n - 1, i); } else { FoundReaches(r, n - 1, level); }
  }

  /** A segment between two places where edges of the cell reach its level. */
  predicate Interpolates(r: Rect, s: Segment) {
    OnEdge(r, s.level, s.a) && OnEdge(r, s.level, s.b)
  }

  /** Both ends of every segment of a cell are where an edge reaches the level. */
  lemma SegmentsReach(r: Rect, level: real, s: Segment)
    requires s in Segments(r, level)
    ensures s.level == level && Interpolates(r, s)
  {
    hide Points, OnEdge;
    forall i | 0 <= i < |Points(r, level, 4)| ensures OnEdge(r, level, Points(r, level, 4)[i]) {
      PointsReach(r, level, 4, i);
    }
  }

  /** Where all four edges are crossed, one segment joins the left edge to the lower one and one the right edge to
      the upper one. */
  lemma FourJoined(r: Rect, level: real)
    requires |Points(r, level, 4)| == 4
    ensures var s := Segments(r, level);
            && |s| == 2 && Reaches(r.ul, r.ll, level, s[0].a) && Reaches(r.ll, r.lr, level, s[0].b)
            && Reaches(r.lr, r.ur, level, s[1].a) && Reaches(r.ur, r.ul, level, s[1].b)
  {
    hide Crossing, Reaches;
    UnrollPoints(r, level);
    CrossingReaches(r.ul, r.ll, r.lr.value, level);
    CrossingReaches(r.ll, r.lr, r.ur.value, level);
    CrossingReaches(r.lr, r.ur, r.ul.value, level);
    CrossingReaches(r.ur, r.ul, r.ll.value, level);
  }

  // ---------------------------------------------------------------------
  //  All levels of a cell
  // ---------------------------------------------------------------------

  function StartLevel(r: Rect, interval: real, offset: real): int
    requires interval > 0.0
  {
    Ceil(Scaled(r.Min() - offset, interval))
  }

  function EndLevel(r: Rect, interval: real, offset: real): int
    requires interval > 0.0
  {
    Scaled(r.Max() - offset, interval).Floor
  }

  /** The segments of a cell at levels low to high, the last one not included. */
  function SegmentsBetween(r: Rect, low: int, high: int, interval: real, offset: real): seq<Segment>
    decreases high - low
  {
    if low >= high then []
    else SegmentsBetween(r, low, high - 1, interval, offset) + Segments(r, LevelAt(high - 1, interval, offset))
  }

  function CellSegments(r: Rect, interval: real, offset: real): seq<Segment>
    requires interval > 0.0
  {
    SegmentsBetween(r, StartLevel(r, interval, offset), EndLevel(r, interval, offset) + 1, interval, offset)
  }

  ghost predicate IsLevel(level: real, interval: real, offset: real) {
    exists k: int :: level == LevelAt(k, interval, offset)
  }

  lemma {:induction false} BetweenReach(r: Rect, low: int, high: int, interval: real, offset: real, s: Segment)
    requires s in SegmentsBetween(r, low, high, interval, offset)
    ensures IsLevel(s.level, interval, offset) && Interpolates(r, s)
    decreases high - low
  {
    hide Interpolates, Segments;
    if s in Segments(r, LevelAt(high - 1, interval, offset)) {
      SegmentsReach(r, LevelAt(high - 1, interval, offset), s);
    } else {
      BetweenReach(r, low, high - 1, interval, offset, s);
    }
  }

  /** The same for all levels. */
  lemma CellReaches(r: Rect, interval: real, offset: real, s: Segment)
    requires interval > 0.0 && s in CellSegments(r, interval, offset)
    ensures IsLevel(s.level, interval, offset) && Interpolates(r, s)
  {
    BetweenReach(r, StartLevel(r, interval, offset), EndLevel(r, interval, offset) + 1, interval, offset, s);
  }

  lemma LevelsDiffer(j: int, k: int, interval: real, offset: real)
    requires interval > 0.0 && j < k
    ensures LevelAt(j, interval, offset) < LevelAt(k, interval, offset)
  {
  }

  lemma LevelOrder(v: real, k: int, interval: real, offset: real)
    requires interval > 0.0
    ensures LevelAt(k, interval, offset) < v ==> k as real < Scaled(v - offset, interval)
    ensures v < LevelAt(k, interval, offset) ==> Scaled(v - offset, interval) < k as real
  {
  }

  /** The loop over the levels visits every level that crosses an edge of the cell. */
  lemma LevelVisited(r: Rect, k: int, interval: real, offset: real)
    requires interval > 0.0 && r.Min() < LevelAt(k, interval, offset) < r.Max()
    ensures StartLevel(r, interval, offset) <= k <= EndLevel(r, interval, offset)
  {
    LevelOrder(r.Min(), k, interval, offset);
    LevelOrder(r.Max(), k, interval, offset);
  }

  lemma OtherLevel(r: Rect, own: real, level: real, p: Point)
    requires own != level
    ensures EndCount(Segments(r, own), level, p) == 0
  {
    var ps := Points(r, own, 4);
    if |ps| == 4 {
      EndCountTwo(Segment(own, ps[0], ps[1]), Segment(own, ps[2], ps[3]), level, p);
    } else if |ps| >= 2 {
      EndCountOne(Segment(own, ps[0], ps[1]), level, p);
    }
  }

  /** How often the cell's segments at level j end at a point, when level k is asked for. */
  lemma EndCountAt(r: Rect, j: int, k: int, interval: real, offset: real, p: Point)
    requires interval > 0.0 && j != k
    ensures EndCount(Segments(r, LevelAt(j, interval, offset)), LevelAt(k, interval, offset), p) == 0
  {
    if k < j { LevelsDiffer(k, j, interval, offset); } else { LevelsDiffer(j, k, interval, offset); }
    OtherLevel(r, LevelAt(j, interval, offset), LevelAt(k, interval, offset), p);
  }

  /** Only the level's own segments count. */
  lemma {:induction false} EndCountOfLevel(r: Rect, low: int, high: int, k: int, interval: real, offset: real, p: Point)
    requires interval > 0.0
    ensures EndCount(SegmentsBetween(r, low, high, interval, offset), LevelAt(k, interval, offset), p)
            == if low <= k < high then EndCount(Segments(r, LevelAt(k, interval, offset)), LevelAt(k, interval, offset), p) else 0
    decreases high - low
  {
    if low < high {
      var before, own := SegmentsBetween(r, low, high - 1, interval, offset), Segments(r, LevelAt(high - 1, interval, offset));
      EndCountOfLevel(r, low, high - 1, k, interval, offset, p);
      assert SegmentsBetween(r, low, high, interval, offset) == before + own;
      EndCountConcat(before, own, LevelAt(k, interval, offset), p);
      if k != high - 1 { EndCountAt(r, high - 1, k, interval, offset, p); }
    }
  }

  /** A crossed edge has its crossing as the end of exactly one of all the cell's segments at that level. */
  lemma CellEndpointOnce(r: Rect, k: int, interval: real, offset: real, e: nat)
    requires interval > 0.0 && r.Upright() && e < 4 && r.Off(LevelAt(k, interval, offset)) && EdgeCrossed(r, e, LevelAt(k, interval, offset))
    ensures EdgeCrossing(r, e, LevelAt(k, interval, offset)).Some?
    ensures EndCount(CellSegments(r, interval, offset), LevelAt(k, interval, offset), EdgeCrossing(r, e, LevelAt(k, interval, offset)).value) == 1
  {
    EndpointOnce(r, LevelAt(k, interval, offset), e);
    LevelVisited(r, k, interval, offset);
    EndCountOfLevel(r, StartLevel(r, interval, offset), EndLevel(r, interval, offset) + 1, k, interval, offset,
                    EdgeCrossing(r, e, LevelAt(k, interval, offset)).value);
  }

  // ---------------------------------------------------------------------
  //  The grid of interior cells
  // ---------------------------------------------------------------------

  /** Lines of pixels, all of the same width, none of them on a level. */
  ghost predicate Grid(rows: seq<seq<real>>, width: nat, interval: real, offset: real) {
    && interval > 0.0
    && (forall j :: 0 <= j < |rows| ==> |rows[j]| == width)
    && (forall j, i :: 0 <= j < |rows| && 0 <= i < width ==> OffLevels(rows[j][i], interval, offset))
  }

  /** A pixel's value at its centre. */
  function Node(rows: seq<seq<real>>, i: nat, j: nat): Corner
    requires j < |rows| && i < |rows[j]|
  {
    Corner(rows[j][i], Point(i as real + 0.5, j as real + 0.5))
  }

  /** The cell between pixels i - 1 and i of lines j - 1 and j. */
  function CellRect(rows: seq<seq<real>>, i: nat, j: nat): Rect
    requires 1 <= j < |rows| && 1 <= i < |rows[j]| && i < |rows[j-1]|
  {
    Rect(Node(rows, i - 1, j - 1), Node(rows, i - 1, j), Node(rows, i, j), Node(rows, i, j - 1))
  }

  /** An edge between a pixel and the one below it, or the one to its right. */
  datatype GridEdge = Down(i: nat, j: nat) | Right(i: nat, j: nat) {
    predicate In(width: nat, height: nat) {
      match this
      case Down(i, j) => i < width && j + 1 < height
      case Right(i, j) => i + 1 < width && j < height
    }

    /** The edge is a side of the cell of pixel i and line j. */
    predicate Beside(ci: nat, cj: nat) {
      match this
      case Down(i, j) => cj == j + 1 && (ci == i || ci == i + 1)
      case Right(i, j) => ci == i + 1 && (cj == j || cj == j + 1)
    }

    /** Which side of that cell it is. */
    function Side(ci: nat, cj: nat): nat {
      match this
      case Down(i, j) => if ci == i then 2 else 0
      case Right(i, j) => if cj == j then 1 else 3
    }
  }

  function First(rows: seq<seq<real>>, g: GridEdge, width: nat): Corner
    requires g.In(width, |rows|) && forall j :: 0 <= j < |rows| ==> |rows[j]| == width
  {
    Node(rows, g.i, g.j)
  }

  function Second(rows: seq<seq<real>>, g: GridEdge, width: nat): Corner
    requires g.In(width, |rows|) && forall j :: 0 <= j < |rows| ==> |rows[j]| == width
  {
    match g case Down(i, j) => Node(rows, i, j + 1) case Right(i, j) => Node(rows, i + 1, j)
  }

  lemma CellProper(rows: seq<seq<real>>, width: nat, interval: real, offset: real, i: nat, j: nat, k: int)
    requires Grid(rows, width, interval, offset) && 1 <= i < width && 1 <= j < |rows|
    ensures CellRect(rows, i, j).Upright() && CellRect(rows, i, j).Off(LevelAt(k, interval, offset))
  {
  }

  /** Both cells beside an edge get the same crossing from it. */
  lemma SharedCrossing(rows: seq<seq<real>>, width: nat, interval: real, offset: real, g: GridEdge, i: nat, j: nat, k: int)
    requires Grid(rows, width, interval, offset) && g.In(width, |rows|) && 1 <= i < width && 1 <= j < |rows| && g.Beside(i, j)
    ensures var level := LevelAt(k, interval, offset);
            && (EdgeCrossed(CellRect(rows, i, j), g.Side(i, j), level) <==> Crossed(First(rows, g, width), Second(rows, g, width), level))
            && EdgeCrossing(CellRect(rows, i, j), g.Side(i, j), level) == Crossing(First(rows, g, width), Second(rows, g, width), 0.0, level)
  {
  }

  /** No cell away from an edge has its crossing. */
  lemma NotElsewhere(rows: seq<seq<real>>, width: nat, interval: real, offset: real, g: GridEdge, i: nat, j: nat, k: int, e: nat)
    requires Grid(rows, width, interval, offset) && g.In(width, |rows|) && 1 <= i < width && 1 <= j < |rows| && !g.Beside(i, j) && e < 4
    requires Crossed(First(rows, g, width), Second(rows, g, width), LevelAt(k, interval, offset))
    requires EdgeCrossed(CellRect(rows, i, j), e, LevelAt(k, interval, offset))
    ensures EdgeCrossing(CellRect(rows, i, j), e, LevelAt(k, interval, offset)) != Crossing(First(rows, g, width), Second(rows, g, width), 0.0, LevelAt(k, interval, offset))
  {
    var r, level := CellRect(rows, i, j), LevelAt(k, interval, offset);
    CrossingInside(r.At(e), r.At(e + 1), r.At(e + 2).value, level);
    CrossingInside(First(rows, g, width), Second(rows, g, width), 0.0, level);
  }

  lemma {:induction false} NoneFound(r: Rect, level: real, p: Point, n: nat)
    requires r.Off(level) && n <= 4
    requires forall e :: 0 <= e < 4 && EdgeCrossed(r, e, level) ==> EdgeCrossing(r, e, level) != Some(p)
    ensures CountPoint(Points(r, level, n), p) == 0
  {
    if n > 0 {
      NoneFound(r, level, p, n - 1);
      assert Points(r, level, n) == Points(r, level, n - 1) + Found(r, n - 1, level);
      CountConcat(Points(r, level, n - 1), Found(r, n - 1, level), p);
      FoundCrossed(r, n - 1, level);
      if EdgeCrossed(r, n - 1, level) { CountOne(Found(r, n - 1, level)[0], p); }
    }
  }

  /** The crossing of an edge ends one segment of each cell beside the edge, and no segment of another cell. */
  lemma CellShare(rows: seq<seq<real>>, width: nat, interval: real, offset: real, g: GridEdge, i: nat, j: nat, k: int, p: Point)
    requires Grid(rows, width, interval, offset) && g.In(width, |rows|) && 1 <= i < width && 1 <= j < |rows|
    requires Crossed(First(rows, g, width), Second(rows, g, width), LevelAt(k, interval, offset))
    requires Crossing(First(rows, g, width), Second(rows, g, width), 0.0, LevelAt(k, interval, offset)) == Some(p)
    ensures EndCount(CellSegments(CellRect(rows, i, j), interval, offset), LevelAt(k, interval, offset), p) == if g.Beside(i, j) then 1 else 0
  {
    var r, level := CellRect(rows, i, j), LevelAt(k, interval, offset);
    CellProper(rows, width, interval, offset, i, j, k);
    if g.Beside(i, j) {
      SharedCrossing(rows, width, interval, offset, g, i, j, k);
      CellEndpointOnce(r, k, interval, offset, g.Side(i, j));
    } else {
      forall e | 0 <= e < 4 && EdgeCrossed(r, e, level) ensures EdgeCrossing(r, e, level) != Some(p) {
        NotElsewhere(rows, width, interval, offset, g, i, j, k, e);
      }
      NoneFound(r, level, p, 4);
      EndsArePoints(r, level, p);
      EndCountOfLevel(r, StartLevel(r, interval, offset), EndLevel(r, interval, offset) + 1, k, interval, offset, p);
    }
  }

  /** The first n of some lists of segments, one after another. */
  function Joined(parts: seq<seq<Segment>>, n: nat): seq<Segment>
    requires n <= |parts|
  {
    if n == 0 then [] else Joined(parts, n - 1) + parts[n-1]
  }

  /** The segments of each cell of a line of cells. */
  function CellParts(rows: seq<seq<real>>, width: nat, j: nat, interval: real, offset: real): (r: seq<seq<Segment>>)
    requires interval > 0.0 && width > 0 && 1 <= j < |rows| && forall j :: 0 <= j < |rows| ==> |rows[j]| == width
    ensures |r| == width - 1 && forall i :: 0 <= i < width - 1 ==> r[i] == CellSegments(CellRect(rows, i + 1, j), interval, offset)
  {
    seq(width - 1, i requires 0 <= i < width - 1 => CellSegments(CellRect(rows, i + 1, j), interval, offset))
  }

  /** The segments of a line of cells. */
  function LineSegments(rows: seq<seq<real>>, width: nat, j: nat, interval: real, offset: real): seq<Segment>
    requires interval > 0.0 && width > 0 && 1 <= j < |rows| && forall j :: 0 <= j < |rows| ==> |rows[j]| == width
  {
    Joined(CellParts(rows, width, j, interval, offset), width - 1)
  }

  /** The segments of each line of cells. */
  function LineParts(rows: seq<seq<real>>, width: nat, interval: real, offset: real): (r: seq<seq<Segment>>)
    requires interval > 0.0 && width > 0 && |rows| > 0 && forall j :: 0 <= j < |rows| ==> |rows[j]| == width
    ensures |r| == |rows| - 1 && forall j :: 0 <= j < |r| ==> r[j] == LineSegments(rows, width, j + 1, interval, offset)
  {
    seq(|rows| - 1, j requires 0 <= j < |rows| - 1 => LineSegments(rows, width, j + 1, interval, offset))
  }

  /** The segments of all interior cells. */
  function GridSegments(rows: seq<seq<real>>, width: nat, interval: real, offset: real): seq<Segment>
    requires interval > 0.0 && width > 0 && |rows| > 0 && forall j :: 0 <= j < |rows| ==> |rows[j]| == width
  {
    Joined(LineParts(rows, width, interval, offset), |rows| - 1)
  }

  /** The cells of a line, up to cell n, that an edge is a side of. */
  function CellsBeside(g: GridEdge, j: nat, n: nat): nat {
    if n == 0 then 0 else CellsBeside(g, j, n - 1) + One(g.Beside(n, j))
  }

  function AllBeside(g: GridEdge, width: nat, n: nat): nat
    requires width > 0
  {
    if n == 0 then 0 else AllBeside(g, width, n - 1) + CellsBeside(g, n, width - 1)
  }

  /** A point is the end of one segment of each cell of a line beside an edge, and of none of the others. */
  ghost predicate SharedCells(cells: seq<seq<Segment>>, g: GridEdge, j: nat, level: real, p: Point) {
    forall i :: 0 <= i < |cells| ==> EndCount(cells[i], level, p) == One(g.Beside(i + 1, j))
  }

  lemma {:induction false} LineShare(cells: seq<seq<Segment>>, g: GridEdge, j: nat, n: nat, level: real, p: Point)
    requires n <= |cells| && SharedCells(cells, g, j, level, p)
    ensures EndCount(Joined(cells, n), level, p) == CellsBeside(g, j, n)
  {
    if n > 0 {
      LineShare(cells, g, j, n - 1, level, p);
      EndCountConcat(Joined(cells, n - 1), cells[n-1], level, p);
    }
  }

  /** A point is the end of one segment of each cell beside an edge, and of none of the others. */
  ghost predicate SharedLines(lines: seq<seq<Segment>>, width: nat, g: GridEdge, level: real, p: Point)
    requires width > 0
  {
    forall j :: 0 <= j < |lines| ==> EndCount(lines[j], level, p) == CellsBeside(g, j + 1, width - 1)
  }

  lemma {:induction false} GridShare(lines: seq<seq<Segment>>, g: GridEdge, width: nat, n: nat, level: real, p: Point)
    requires width > 0 && n <= |lines| && SharedLines(lines, width, g, level, p)
    ensures EndCount(Joined(lines, n), level, p) == AllBeside(g, width, n)
  {
    if n > 0 {
      GridShare(lines, g, width, n - 1, level, p);
      EndCountConcat(Joined(lines, n - 1), lines[n-1], level, p);
    }
  }

  lemma {:induction false} CellsBesideAre(g: GridEdge, j: nat, n: nat)
    ensures CellsBeside(g, j, n) == match g
                                    case Down(i, r) => if j == r + 1 then One(1 <= i <= n) + One(i + 1 <= n) else 0
                                    case Right(i, r) => if j == r || j == r + 1 then One(i + 1 <= n) else 0
  {
    if n > 0 { CellsBesideAre(g, j, n - 1); }
  }

  lemma {:induction false} AllBesideAre(g: GridEdge, width: nat, n: nat)
    requires width > 0
    ensures AllBeside(g, width, n) == match g
                                      case Down(i, r) => if r + 1 <= n then One(1 <= i < width) + One(i + 1 < width) else 0
                                      case Right(i, r) => if i + 1 < width then One(1 <= r <= n) + One(r + 1 <= n) else 0
  {
    if n > 0 {
      AllBesideAre(g, width, n - 1);
      CellsBesideAre(g, n, width - 1);
    }
  }

  /** An edge between two interior cells. */
  predicate Interior(g: GridEdge, width: nat, height: nat) {
    match g
    case Down(i, j) => 1 <= i < width - 1
    case Right(i, j) => 1 <= j < height - 1
  }

  /** The contours are watertight: where a level crosses an edge, its crossing is the end of exactly two
      segments of that level when the edge is between two interior cells, and of one on the outer edge. */
  lemma Watertight(rows: seq<seq<real>>, width: nat, interval: real, offset: real, g: GridEdge, k: int)
    requires Grid(rows, width, interval, offset) && g.In(width, |rows|) && width > 1 && |rows| > 1
    requires Crossed(First(rows, g, width), Second(rows, g, width), LevelAt(k, interval, offset))
    ensures Crossing(First(rows, g, width), Second(rows, g, width), 0.0, LevelAt(k, interval, offset)).Some?
    ensures EndCount(GridSegments(rows, width, interval, offset), LevelAt(k, interval, offset),
                     Crossing(First(rows, g, width), Second(rows, g, width), 0.0, LevelAt(k, interval, offset)).value)
            == if Interior(g, width, |rows|) then 2 else 1
  {
    var level := LevelAt(k, interval, offset);
    var p := Crossing(First(rows, g, width), Second(rows, g, width), 0.0, level).value;
    LinesShare(rows, width, interval, offset, g, k, p);
    GridTotal(LineParts(rows, width, interval, offset), |rows|, width, g, level, p);
  }

  lemma LinesShare(rows: seq<seq<real>>, width: nat, interval: real, offset: real, g: GridEdge, k: int, p: Point)
    requires Grid(rows, width, interval, offset) && g.In(width, |rows|) && width > 0
    requires Crossed(First(rows, g, width), Second(rows, g, width), LevelAt(k, interval, offset))
    requires Crossing(First(rows, g, width), Second(rows, g, width), 0.0, LevelAt(k, interval, offset)) == Some(p)
    ensures SharedLines(LineParts(rows, width, interval, offset), width, g, LevelAt(k, interval, offset), p)
  {
    var lines := LineParts(rows, width, interval, offset);
    forall j | 0 <= j < |lines| ensures EndCount(lines[j], LevelAt(k, interval, offset), p) == CellsBeside(g, j + 1, width - 1) {
      LineShared(rows, width, interval, offset, g, j + 1, k, p);
    }
  }

  lemma GridTotal(lines: seq<seq<Segment>>, height: nat, width: nat, g: GridEdge, level: real, p: Point)
    requires width > 1 && height > 1 && |lines| == height - 1 && g.In(width, height) && SharedLines(lines, width, g, level, p)
    ensures EndCount(Joined(lines, height - 1), level, p) == if Interior(g, width, height) then 2 else 1
  {
    GridShare(lines, g, width, height - 1, level, p);
    AllBesideAre(g, width, height - 1);
  }

  lemma LineShared(rows: seq<seq<real>>, width: nat, interval: real, offset: real, g: GridEdge, j: nat, k: int, p: Point)
    requires Grid(rows, width, interval, offset) && g.In(width, |rows|) && width > 0 && 1 <= j < |rows|
    requires Crossed(First(rows, g, width), Second(rows, g, width), LevelAt(k, interval, offset))
    requires Crossing(First(rows, g, width), Second(rows, g, width), 0.0, LevelAt(k, interval, offset)) == Some(p)
    ensures EndCount(LineSegments(rows, width, j, interval, offset), LevelAt(k, interval, offset), p) == CellsBeside(g, j, width - 1)
  {
    CellsShare(rows, width, interval, offset, g, j, k, p);
    LineShare(CellParts(rows, width, j, interval, offset), g, j, width - 1, LevelAt(k, interval, offset), p);
  }

  lemma CellsShare(rows: seq<seq<real>>, width: nat, interval: real, offset: real, g: GridEdge, j: nat, k: int, p: Point)
    requires Grid(rows, width, interval, offset) && g.In(width, |rows|) && width > 0 && 1 <= j < |rows|
    requires Crossed(First(rows, g, width), Second(rows, g, width), LevelAt(k, interval, offset))
    requires Crossing(First(rows, g, width), Second(rows, g, width), 0.0, LevelAt(k, interval, offset)) == Some(p)
    ensures SharedCells(CellParts(rows, width, j, interval, offset), g, j, LevelAt(k, interval, offset), p)
  {
    var cells := CellParts(rows, width, j, interval, offset);
    forall i | 0 <= i < |cells| ensures EndCount(cells[i], LevelAt(k, interval, offset), p) == One(g.Beside(i + 1, j)) {
      CellShare(rows, width, interval, offset, g, i + 1, j, k, p);
    }
  }

  // ---------------------------------------------------------------------
  //  Operations
  // ---------------------------------------------------------------------

  /** Adds what one edge contributes to the points found so far. */
  method Intersect(a: Corner, b: Corner, next: real, level: real, pts: array<Point>, n: nat) returns (n': nat)
    requires n < pts.Length
    modifies pts
    ensures n <= n' <= n + 1
    ensures pts[..n'] == old(pts[..n]) + (match Crossing(a, b, next, level) case Some(p) => [p] case None => [])
    ensures n' == n + 1 ==> Reaches(a, b, level, pts[n])
  {
    if Crossing(a, b, next, level).Some? { CrossingReaches(a, b, next, level); }
    n' := n;
    if a.value < level && b.value >= level {
      var ratio := Ratio(level, a.value, b.value);
      pts[n] := Point(Mix(a.at.x, b.at.x, ratio), Mix(a.at.y, b.at.y, ratio));
      n' := n + 1;
    } else if a.value > level && b.value <= level {
      var ratio := Ratio(level, b.value, a.value);
      pts[n] := Point(Mix(b.at.x, a.at.x, ratio), Mix(b.at.y, a.at.y, ratio));
      n' := n + 1;
    } else if a.value == level && b.value == level && next != level {
      pts[n] := b.at;
      n' := n + 1;
    }
  }

  /** The segments of one level, in the order in which they are added. */
  method RectSegments(r: Rect, level: real) returns (segs: seq<Segment>)
    ensures segs == Segments(r, level)
  {
    hide Crossing;
    var pts := new Point[4];
    var n := Intersect(r.ul, r.ll, r.lr.value, level, pts, 0);
    assert pts[..n] == Points(r, level, 1);
    n := Intersect(r.ll, r.lr, r.ur.value, level, pts, n);
    assert pts[..n] == Points(r, level, 2);
    n := Intersect(r.lr, r.ur, r.ul.value, level, pts, n);
    assert pts[..n] == Points(r, level, 3);
    n := Intersect(r.ur, r.ul, r.ll.value, level, pts, n);
    assert pts[..n] == Points(r, level, 4);
    segs := [];
    if n >= 2 { segs := segs + [Segment(level, pts[0], pts[1])]; }
    if n == 4 { segs := segs + [Segment(level, pts[2], pts[3])]; }
  }

  /** The segments of all levels of a cell. */
  method ProcessRect(r: Rect, interval: real, offset: real) returns (segs: seq<Segment>)
    requires interval > 0.0
    ensures segs == CellSegments(r, interval, offset)
  {
    var start, end := StartLevel(r, interval, offset), EndLevel(r, interval, offset);
    segs := [];
    var k := start;
    while k <= end
      invariant start <= k && (k <= end + 1 || k == start) && segs == SegmentsBetween(r, start, k, interval, offset)
    {
      var more := RectSegments(r, LevelAt(k, interval, offset));
      segs := segs + more;
      k := k + 1;
    }
  }
}
