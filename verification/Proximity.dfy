/** Raster proximity (gdalproximity.cpp): nearest targets propagated by two sweeps of each
    line from the top down and two more from the bottom up.  Distances are kept squared. */
module Proximity {
  import opened Basics

  predicate IsTarget(values: seq<int>, v: int) {
    if |values| == 0 then v != 0 else v in values
  }

  function SqDist(p: Pixel, t: Pixel): (d: int)
  {
    (t.x - p.x) * (t.x - p.x) + (t.y - p.y) * (t.y - p.y)
  }

  /** Steps along rows and columns. */
  ghost function Steps(p: Pixel, t: Pixel): (k: int)
    ensures k >= 0
  {
    Abs(t.x - p.x) + Abs(t.y - p.y)
  }

  ghost predicate TargetAt(img: seq<seq<int>>, values: seq<int>, t: Pixel) {
    0 <= t.y < |img| && 0 <= t.x < |img[t.y]| && IsTarget(values, img[t.y][t.x])
  }

  // ---------------------------------------------------------------------
  //  Distances
  // ---------------------------------------------------------------------

  lemma RootBound(a: int, k: int)
    requires 0 <= k && a * a <= k * k
    ensures -k <= a <= k
  {
  }

  ghost predicate NextTo(p: Pixel, q: Pixel) {
    Steps(p, q) == 1
  }

  /** One step away, a distance of at most k becomes a distance of at most k + 1. */
  lemma StepAway(p: Pixel, q: Pixel, c: Pixel, k: int)
    requires NextTo(p, q) && 0 <= k && SqDist(q, c) <= k * k
    ensures SqDist(p, c) <= (k + 1) * (k + 1)
  {
    var dx, dy := c.x - q.x, c.y - q.y;
    assert dx * dx >= 0 && dy * dy >= 0;
    RootBound(dx, k);
    RootBound(dy, k);
    var ex, ey := q.x - p.x, q.y - p.y;
    assert SqDist(p, c) == (dx + ex) * (dx + ex) + (dy + ey) * (dy + ey);
    assert (dx + ex) * (dx + ex) == dx * dx + 2 * ex * dx + ex * ex;
    assert (dy + ey) * (dy + ey) == dy * dy + 2 * ey * dy + ey * ey;
    assert ex == 0 || ey == 0;
  }

  lemma SqDistPositive(p: Pixel, t: Pixel)
    ensures SqDist(p, t) >= 0
    ensures SqDist(p, t) == 0 <==> p == t
  {
  }

  /** The square of the steps is at most twice the squared distance. */
  lemma StepsSquared(p: Pixel, t: Pixel)
    ensures Steps(p, t) * Steps(p, t) <= 2 * SqDist(p, t)
  {
    var a: int, b: int := Abs(t.x - p.x), Abs(t.y - p.y);
    assert a * a == (t.x - p.x) * (t.x - p.x) && b * b == (t.y - p.y) * (t.y - p.y);
    assert (a - b) * (a - b) >= 0;
    assert (a + b) * (a + b) + (a - b) * (a - b) == 2 * (a * a + b * b);
  }

  // ---------------------------------------------------------------------
  //  What a line of nearest targets knows
  // ---------------------------------------------------------------------

  /** A remembered target: none, or its column and row. */
  datatype Near = Nothing | Target(at: Pixel)

  function NearOf(x: int, y: int): Near {
    if x == -1 then Nothing else Target(Pixel(x, y))
  }

  ghost predicate Within(k: int, maxDist: real) {
    k as real <= maxDist
  }

  /** Seen from p, the remembered target is at most as far as the steps to t. */
  ghost predicate Bound(near: Near, p: Pixel, t: Pixel, maxDist: real) {
    Within(Steps(p, t), maxDist) ==> near.Target? && SqDist(p, near.at) <= Steps(p, t) * Steps(p, t)
  }

  /** The distance recorded for p is at most the steps to t. */
  ghost predicate Recorded(prox: real, p: Pixel, t: Pixel, maxDist: real) {
    Within(Steps(p, t), maxDist) ==> 0.0 <= prox <= (Steps(p, t) * Steps(p, t)) as real
  }

  /** The distance recorded for p is exact: that of some target, or none. */
  ghost predicate Exact(img: seq<seq<int>>, values: seq<int>, prox: real, p: Pixel, maxDist: real) {
    prox == -1.0
    || (0.0 <= prox <= Square(maxDist) && exists t :: TargetAt(img, values, t) && prox == SqDist(p, t) as real)
  }

  function Square(a: real): real { a * a }

  /** Nothing farther than this is considered. */
  function FarSq(maxDist: real, width: nat): real {
    Square(Greatest(maxDist, width as real)) * 2.0
  }

  lemma WithinIsNear(k: int, maxDist: real, width: nat)
    requires 0 <= k && Within(k, maxDist) && 0 < width
    ensures (k * k) as real <= Square(maxDist)
    ensures (k * k) as real < FarSq(maxDist, width)
  {
    var m := Greatest(maxDist, width as real);
    assert 1.0 <= m && maxDist <= m;
    RealSquares(k as real, maxDist);
    RealSquares(maxDist, m);
    RealSquares(1.0, m);
  }

  lemma RealSquares(a: real, b: real)
    requires 0.0 <= a <= b
    ensures a * a <= b * b
  {
  }

  // ---------------------------------------------------------------------
  //  One pixel of a sweep
  // ---------------------------------------------------------------------

  /** The nearer of two candidates, as the code compares them. */
  function Closer(best: Near, bestSq: real, other: Near, p: Pixel): (r: (Near, real)) {
    if other.Target? && SqDist(p, other.at) as real < bestSq then (other, SqDist(p, other.at) as real) else (best, bestSq)
  }

  /** The choice among what the pixel remembers and its two neighbours on the line. */
  function Choose(own: Near, last: Near, next: Near, p: Pixel, far: real): (r: (Near, real))
    ensures r.0.Target? ==> r.1 == SqDist(p, r.0.at) as real < far
    ensures r.0.Nothing? ==> r.1 == far
    ensures r.0.Target? ==> r.0 == own || r.0 == last || r.0 == next
    ensures forall c :: c in {own, last, next} && c.Target? && SqDist(p, c.at) as real < far
              ==> r.0.Target? && SqDist(p, r.0.at) <= SqDist(p, c.at)
  {
    var a := Closer(Nothing, far, own, p);
    var b := Closer(a.0, a.1, last, p);
    Closer(b.0, b.1, next, p)
  }

  function Improve(prox: real, near: Near, sq: real, maxDist: real): real {
    if near.Target? && sq <= Square(maxDist) && (prox < 0.0 || sq < prox) then sq else prox
  }

  /** Takes over a neighbour's target if it is nearer than the best one so far. */
  method TakeNearer(p: Pixel, j: int, bestSq: real, nearX: array<int>, nearY: array<int>) returns (sq: real)
    requires 0 <= p.x < nearX.Length == nearY.Length && -1 <= j < nearX.Length && j != p.x && nearX != nearY
    modifies nearX, nearY
    ensures forall k :: 0 <= k < nearX.Length && k != p.x ==> nearX[k] == old(nearX[k]) && nearY[k] == old(nearY[k])
    ensures (NearOf(nearX[p.x], nearY[p.x]), sq)
            == Closer(old(NearOf(nearX[p.x], nearY[p.x])), bestSq, if j == -1 then Nothing else old(NearOf(nearX[j], nearY[j])), p)
  {
    sq := bestSq;
    if j != -1 && nearX[j] != -1 {
      var d := SqDist(p, Pixel(nearX[j], nearY[j])) as real;
      if d < sq {
        sq := d;
        nearX[p.x] := nearX[j];
        nearY[p.x] := nearY[j];
      }
    }
  }

  method UpdatePixel(isTarget: bool, i: nat, last: int, next: int, line: int, width: nat, maxDist: real,
                     nearX: array<int>, nearY: array<int>, prox: array<real>)
    requires i < width == nearX.Length == nearY.Length == prox.Length && nearX != nearY
    requires -1 <= last < width && -1 <= next < width && last != i && next != i
    modifies nearX, nearY, prox
    ensures forall k :: 0 <= k < width && k != i ==> nearX[k] == old(nearX[k]) && nearY[k] == old(nearY[k]) && prox[k] == old(prox[k])
    ensures isTarget ==> nearX[i] == i && nearY[i] == line && prox[i] == 0.0
    ensures !isTarget ==>
              var own := old(NearOf(nearX[i], nearY[i]));
              var l := if last == -1 then Nothing else old(NearOf(nearX[last], nearY[last]));
              var n := if next == -1 then Nothing else old(NearOf(nearX[next], nearY[next]));
              var (best, sq) := Choose(own, l, n, Pixel(i, line), FarSq(maxDist, width));
              NearOf(nearX[i], nearY[i]) == best && prox[i] == Improve(old(prox[i]), best, sq, maxDist)
  {
    hide FarSq, Square, SqDist;
    if isTarget {
      prox[i] := 0.0;
      nearX[i] := i;
      nearY[i] := line;
      return;
    }
    var p := Pixel(i, line);
    var nearSq := FarSq(maxDist, width);
    if nearX[i] != -1 {
      var sq := SqDist(p, Pixel(nearX[i], nearY[i])) as real;
      if sq < nearSq {
        nearSq := sq;
      } else {
        nearX[i] := -1;
        nearY[i] := -1;
      }
    }
    nearSq := TakeNearer(p, last, nearSq, nearX, nearY);
    nearSq := TakeNearer(p, next, nearSq, nearX, nearY);
    if nearX[i] != -1 && nearSq <= Square(maxDist) && (prox[i] < 0.0 || nearSq < prox[i]) {
      prox[i] := nearSq;
    }
  }

  // ---------------------------------------------------------------------
  //  One sweep of a line
  // ---------------------------------------------------------------------

  /** The fixed circumstances of a sweep.  `known` holds the pairs of a column and a target
      whose bound is already established when the sweep starts. */
  datatype Sweep = Sweep(img: seq<seq<int>>, values: seq<int>, line: int, width: nat, maxDist: real, forward: bool,
                         ghost known: iset<(int, Pixel)>)
  {
    ghost predicate Fits() {
      0 <= line < |img| && |img[line]| == width
    }

    /** Column k has been visited when the sweep stands at column i. */
    ghost predicate Visited(i: int, k: int) {
      0 <= k < width && (if forward then k < i else k > i)
    }

    /** A target of this line that the sweep has passed on its way to column k. */
    ghost predicate Passed(k: int, t: Pixel) {
      TargetAt(img, values, t) && t.y == line && (if forward then t.x <= k else t.x >= k)
    }

    ghost predicate Covered(k: int, t: Pixel) {
      (k, t) in known || Passed(k, t)
    }

    ghost predicate SoundAt(near: Near, prox: real, k: int) {
      && (near.Target? ==> TargetAt(img, values, near.at))
      && Exact(img, values, prox, Pixel(k, line), maxDist)
    }

    /** What holds of an unvisited column. */
    ghost predicate Before(near: Near, prox: real, k: int) {
      && SoundAt(near, prox, k)
      && forall t :: (k, t) in known ==> Bound(near, Pixel(k, line), t, maxDist)
    }

    /** What holds of a visited column. */
    ghost predicate After(near: Near, prox: real, k: int) {
      && SoundAt(near, prox, k)
      && (forall t :: Covered(k, t) ==> Bound(near, Pixel(k, line), t, maxDist) && Recorded(prox, Pixel(k, line), t, maxDist))
      && (TargetAt(img, values, Pixel(k, line)) ==> prox == 0.0)
    }

    ghost predicate Lowered(prox0: real, prox: real) {
      prox0 >= 0.0 ==> 0.0 <= prox <= prox0
    }
  }

  /** The neighbour just visited hands its bound on, one step longer. */
  lemma HandOn(c: Sweep, near: Near, i: int, last: int, t: Pixel)
    requires c.Passed(i, t) && t.x != i && last == (if c.forward then i - 1 else i + 1)
    requires Bound(near, Pixel(last, c.line), t, c.maxDist)
    ensures c.Passed(last, t)
    ensures Bound(near, Pixel(i, c.line), t, c.maxDist)
  {
    var p, q := Pixel(i, c.line), Pixel(last, c.line);
    assert Steps(p, t) == Steps(q, t) + 1;
    if Within(Steps(p, t), c.maxDist) {
      StepAway(p, q, near.at, Steps(q, t));
    }
  }

  /** A candidate within the bound makes the choice meet the bound, and the record too. */
  lemma ChoiceMeetsBound(own: Near, last: Near, next: Near, cand: Near, p: Pixel, t: Pixel, maxDist: real, width: nat, prox: real)
    requires cand in {own, last, next} && Bound(cand, p, t, maxDist) && 0 < width && (prox == -1.0 || prox >= 0.0)
    ensures var (best, sq) := Choose(own, last, next, p, FarSq(maxDist, width));
            Bound(best, p, t, maxDist) && Recorded(Improve(prox, best, sq, maxDist), p, t, maxDist)
  {
    if Within(Steps(p, t), maxDist) {
      WithinIsNear(Steps(p, t), maxDist, width);
      SqDistPositive(p, cand.at);
      var best := Choose(own, last, next, p, FarSq(maxDist, width)).0;
      SqDistPositive(p, best.at);
    }
  }

  /** Visiting a column that is no target. */
  lemma VisitOrdinary(c: Sweep, i: int, own: Near, last: Near, next: Near, prox: real)
    requires c.Fits() && 0 <= i < c.width && !TargetAt(c.img, c.values, Pixel(i, c.line))
    requires c.Before(own, prox, i)
    requires last.Target? ==> TargetAt(c.img, c.values, last.at)
    requires next.Target? ==> TargetAt(c.img, c.values, next.at)
    requires var j := if c.forward then i - 1 else i + 1;
             if 0 <= j < c.width then forall t :: c.Passed(j, t) ==> Bound(last, Pixel(j, c.line), t, c.maxDist)
             else last == Nothing
    ensures var (best, sq) := Choose(own, last, next, Pixel(i, c.line), FarSq(c.maxDist, c.width));
            var v := Improve(prox, best, sq, c.maxDist);
            c.After(best, v, i) && c.Lowered(prox, v)
  {
    var p := Pixel(i, c.line);
    var j := if c.forward then i - 1 else i + 1;
    var (best, sq) := Choose(own, last, next, p, FarSq(c.maxDist, c.width));
    var v := Improve(prox, best, sq, c.maxDist);
    if best.Target? { SqDistPositive(p, best.at); }
    assert c.SoundAt(best, v, i);
    forall t | c.Covered(i, t)
      ensures Bound(best, p, t, c.maxDist) && Recorded(v, p, t, c.maxDist)
    {
      if (i, t) in c.known {
        ChoiceMeetsBound(own, last, next, own, p, t, c.maxDist, c.width, prox);
      } else {
        assert t.x != i;
        HandOn(c, last, i, j, t);
        ChoiceMeetsBound(own, last, next, last, p, t, c.maxDist, c.width, prox);
      }
    }
  }

  /** Visiting a target. */
  lemma VisitTarget(c: Sweep, i: int, prox: real)
    requires c.Fits() && 0 <= i < c.width && TargetAt(c.img, c.values, Pixel(i, c.line))
    ensures c.After(Target(Pixel(i, c.line)), 0.0, i) && c.Lowered(prox, 0.0)
  {
  }

  ghost predicate SweptTo(c: Sweep, near: seq<Near>, prox: seq<real>, prox0: seq<real>, i: int)
  {
    && |near| == |prox| == |prox0| == c.width
    && (forall k :: c.Visited(i, k) ==> c.After(near[k], prox[k], k))
    && (forall k :: 0 <= k < c.width && !c.Visited(i, k) ==> c.Before(near[k], prox[k], k))
    && (forall k :: 0 <= k < c.width ==> c.Lowered(prox0[k], prox[k]))
  }

  ghost function Nears(nearX: seq<int>, nearY: seq<int>): (r: seq<Near>)
    requires |nearX| == |nearY|
    ensures |r| == |nearX|
  {
    seq(|nearX|, k requires 0 <= k < |nearX| => NearOf(nearX[k], nearY[k]))
  }

  function Here(near: seq<Near>, k: int): Near {
    if 0 <= k < |near| then near[k] else Nothing
  }

  /** The effect of UpdatePixel on the line. */
  ghost predicate UpdatedAt(c: Sweep, near: seq<Near>, prox: seq<real>, near': seq<Near>, prox': seq<real>, i: int)
    requires |near| == |prox| == c.width && 0 <= i < c.width
  {
    if TargetAt(c.img, c.values, Pixel(i, c.line)) then
      near' == near[i := Target(Pixel(i, c.line))] && prox' == prox[i := 0.0]
    else
      var last, next := if c.forward then i - 1 else i + 1, if c.forward then i + 1 else i - 1;
      var (best, sq) := Choose(near[i], Here(near, last), Here(near, next), Pixel(i, c.line), FarSq(c.maxDist, c.width));
      near' == near[i := best] && prox' == prox[i := Improve(prox[i], best, sq, c.maxDist)]
  }

  lemma VisitColumn(c: Sweep, near: seq<Near>, prox: seq<real>, prox0: seq<real>, near': seq<Near>, prox': seq<real>, i: int)
    requires c.Fits() && SweptTo(c, near, prox, prox0, i) && 0 <= i < c.width && UpdatedAt(c, near, prox, near', prox', i)
    ensures c.After(near'[i], prox'[i], i) && c.Lowered(prox[i], prox'[i])
  {
    var last, next := if c.forward then i - 1 else i + 1, if c.forward then i + 1 else i - 1;
    assert c.Before(near[i], prox[i], i);
    if TargetAt(c.img, c.values, Pixel(i, c.line)) {
      VisitTarget(c, i, prox[i]);
    } else {
      if 0 <= last < c.width {
        assert c.Visited(i, last) && c.After(near[last], prox[last], last);
        assert forall t :: c.Passed(last, t) ==> c.Covered(last, t);
      }
      if 0 <= next < c.width {
        assert c.Before(near[next], prox[next], next);
      }
      VisitOrdinary(c, i, near[i], Here(near, last), Here(near, next), prox[i]);
    }
  }

  lemma SweepStep(c: Sweep, near: seq<Near>, prox: seq<real>, prox0: seq<real>, near': seq<Near>, prox': seq<real>, i: int)
    requires c.Fits() && SweptTo(c, near, prox, prox0, i) && 0 <= i < c.width && UpdatedAt(c, near, prox, near', prox', i)
    ensures SweptTo(c, near', prox', prox0, if c.forward then i + 1 else i - 1)
  {
    VisitColumn(c, near, prox, prox0, near', prox', i);
    var i' := if c.forward then i + 1 else i - 1;
    forall k | 0 <= k < c.width
      ensures c.Visited(i', k) ==> c.After(near'[k], prox'[k], k)
      ensures !c.Visited(i', k) ==> c.Before(near'[k], prox'[k], k)
      ensures c.Lowered(prox0[k], prox'[k])
    {
      assert c.Lowered(prox0[k], prox[k]);
      if k != i {
        assert c.Visited(i', k) == c.Visited(i, k);
        assert near'[k] == near[k] && prox'[k] == prox[k];
      }
    }
  }

  method ProcessProximityLine(src: array<int>, nearX: array<int>, nearY: array<int>, forward: bool, line: nat,
                              maxDist: real, prox: array<real>, values: seq<int>, ghost c: Sweep)
    requires src.Length == nearX.Length == nearY.Length == prox.Length && nearX != nearY && src != nearX && src != nearY
    requires c.Fits() && c.line == line && c.width == src.Length && c.maxDist == maxDist && c.forward == forward
    requires c.values == values && src[..] == c.img[line]
    requires forall k :: 0 <= k < c.width ==> c.Before(NearOf(nearX[k], nearY[k]), prox[k], k)
    modifies nearX, nearY, prox
    ensures SweptTo(c, Nears(nearX[..], nearY[..]), prox[..], old(prox[..]), if forward then c.width else -1)
  {
    var width := src.Length;
    var start, end, step := if forward then 0 else width - 1, if forward then width else -1, if forward then 1 else -1;
    var i := start;
    ghost var prox0 := prox[..];
    while i != end
      invariant -1 <= i <= width && (forward ==> 0 <= i) && (!forward ==> i < width)
      invariant SweptTo(c, Nears(nearX[..], nearY[..]), prox[..], prox0, i)
      decreases if forward then width - i else i + 1
    {
      ghost var near1, prox1 := Nears(nearX[..], nearY[..]), prox[..];
      VisitPixel(src, i, start, end, step, line, maxDist, nearX, nearY, prox, values, c);
      SweepStep(c, near1, prox1, prox0, Nears(nearX[..], nearY[..]), prox[..], i);
      i := i + step;
    }
  }

  lemma NearsUpdate(nearX: seq<int>, nearY: seq<int>, i: nat, x: int, y: int)
    requires i < |nearX| == |nearY|
    ensures Nears(nearX[i := x], nearY[i := y]) == Nears(nearX, nearY)[i := NearOf(x, y)]
  {
  }

  method VisitPixel(src: array<int>, i: nat, start: int, end: int, step: int, line: nat, maxDist: real,
                    nearX: array<int>, nearY: array<int>, prox: array<real>, values: seq<int>, ghost c: Sweep)
    requires src.Length == nearX.Length == nearY.Length == prox.Length && nearX != nearY && i < src.Length
    requires c.Fits() && c.line == line && c.width == src.Length && c.maxDist == maxDist
    requires c.values == values && src[..] == c.img[line]
    requires start == (if c.forward then 0 else c.width - 1) && end == (if c.forward then c.width else -1)
    requires step == if c.forward then 1 else -1
    modifies nearX, nearY, prox
    ensures UpdatedAt(c, Nears(old(nearX[..]), old(nearY[..])), old(prox[..]), Nears(nearX[..], nearY[..]), prox[..], i)
  {
    hide Choose, Improve, FarSq, Closer, SqDist, Square;
    assert src[i] == c.img[line][i];
    var last := if i == start then -1 else i - step;
    var next := if i + step == end then -1 else i + step;
    ghost var x1, y1, prox1 := nearX[..], nearY[..], prox[..];
    UpdatePixel(IsTarget(values, src[i]), i, last, next, line, src.Length, maxDist, nearX, nearY, prox);
    assert nearX[..] == x1[i := nearX[i]] && nearY[..] == y1[i := nearY[i]] && prox[..] == prox1[i := prox[i]];
    NearsUpdate(x1, y1, i, nearX[i], nearY[i]);
  }

  // ---------------------------------------------------------------------
  //  Both sweeps of a line
  // ---------------------------------------------------------------------

  ghost predicate UpTo(down: bool, line: int, t: Pixel) {
    if down then t.y <= line else t.y >= line
  }

  /** Every remembered target is one, and bounds the targets up to this line. */
  ghost predicate KnowsLine(img: seq<seq<int>>, values: seq<int>, maxDist: real, line: int, down: bool, near: seq<Near>) {
    && (forall k :: 0 <= k < |near| && near[k].Target? ==> TargetAt(img, values, near[k].at))
    && (forall k, t :: 0 <= k < |near| && TargetAt(img, values, t) && UpTo(down, line, t) ==> Bound(near[k], Pixel(k, line), t, maxDist))
  }

  /** The recorded distance of a pixel, with respect to the targets up to its line. */
  ghost predicate RecordedUpTo(img: seq<seq<int>>, values: seq<int>, maxDist: real, down: bool, p: Pixel, v: real) {
    && Exact(img, values, v, p, maxDist)
    && (TargetAt(img, values, p) ==> v == 0.0)
    && (forall t :: TargetAt(img, values, t) && UpTo(down, p.y, t) ==> Recorded(v, p, t, maxDist))
  }

  /** Moving on to the next line adds one step to every bound. */
  lemma NextLine(img: seq<seq<int>>, values: seq<int>, maxDist: real, line: int, down: bool, near: seq<Near>, k: nat, t: Pixel)
    requires KnowsLine(img, values, maxDist, if down then line - 1 else line + 1, down, near)
    requires k < |near| && TargetAt(img, values, t) && UpTo(down, line, t) && t.y != line
    ensures Bound(near[k], Pixel(k, line), t, maxDist)
  {
    var p, q := Pixel(k, line), Pixel(k, if down then line - 1 else line + 1);
    assert Bound(near[k], q, t, maxDist);
    assert Steps(p, t) == Steps(q, t) + 1;
    if Within(Steps(p, t), maxDist) {
      StepAway(p, q, near[k].at, Steps(q, t));
    }
  }

  ghost function FirstSweep(img: seq<seq<int>>, values: seq<int>, line: int, width: nat, maxDist: real, down: bool): Sweep {
    Sweep(img, values, line, width, maxDist, down,
          iset k: int, t: Pixel | TargetAt(img, values, t) && UpTo(down, line, t) && t.y != line :: (k, t))
  }

  ghost function SecondSweep(img: seq<seq<int>>, values: seq<int>, line: int, width: nat, maxDist: real, down: bool): Sweep {
    var c := FirstSweep(img, values, line, width, maxDist, down);
    c.(forward := !down, known := iset k: int, t: Pixel | c.Covered(k, t) :: (k, t))
  }

  lemma ReadyForFirst(img: seq<seq<int>>, values: seq<int>, maxDist: real, line: int, down: bool, near: seq<Near>, prox: seq<real>)
    requires 0 <= line < |img| && |img[line]| == |near| == |prox|
    requires KnowsLine(img, values, maxDist, if down then line - 1 else line + 1, down, near)
    requires forall k :: 0 <= k < |prox| ==> Exact(img, values, prox[k], Pixel(k, line), maxDist)
    ensures var c := FirstSweep(img, values, line, |near|, maxDist, down);
            c.Fits() && forall k :: 0 <= k < |near| ==> c.Before(near[k], prox[k], k)
  {
    var c := FirstSweep(img, values, line, |near|, maxDist, down);
    forall k | 0 <= k < |near| ensures c.Before(near[k], prox[k], k) {
      forall t | (k, t) in c.known ensures Bound(near[k], Pixel(k, line), t, maxDist) {
        NextLine(img, values, maxDist, line, down, near, k, t);
      }
    }
  }

  lemma ReadyForSecond(c: Sweep, d: Sweep, near: seq<Near>, prox: seq<real>, prox0: seq<real>, k: nat)
    requires c == FirstSweep(c.img, c.values, c.line, c.width, c.maxDist, c.forward)
    requires d == SecondSweep(c.img, c.values, c.line, c.width, c.maxDist, c.forward)
    requires c.Fits() && SweptTo(c, near, prox, prox0, if c.forward then c.width else -1) && k < c.width
    ensures d.Before(near[k], prox[k], k)
  {
  }

  lemma AfterBoth(d: Sweep, down: bool, near: seq<Near>, prox: seq<real>, prox1: seq<real>, k: nat)
    requires d == SecondSweep(d.img, d.values, d.line, d.width, d.maxDist, down)
    requires d.Fits() && SweptTo(d, near, prox, prox1, if d.forward then d.width else -1) && k < d.width
    ensures near[k].Target? ==> TargetAt(d.img, d.values, near[k].at)
    ensures forall t :: TargetAt(d.img, d.values, t) && UpTo(down, d.line, t) ==> Bound(near[k], Pixel(k, d.line), t, d.maxDist)
    ensures RecordedUpTo(d.img, d.values, d.maxDist, down, Pixel(k, d.line), prox[k])
  {
  }

  /** Both sweeps of one line, on the way down or on the way up. */
  method ProximityLine(src: array<int>, nearX: array<int>, nearY: array<int>, down: bool, line: nat,
                       maxDist: real, prox: array<real>, values: seq<int>, ghost img: seq<seq<int>>)
    requires src.Length == nearX.Length == nearY.Length == prox.Length && nearX != nearY && src != nearX && src != nearY
    requires line < |img| && src[..] == img[line]
    requires KnowsLine(img, values, maxDist, if down then line - 1 else line + 1, down, Nears(nearX[..], nearY[..]))
    requires forall k :: 0 <= k < prox.Length ==> Exact(img, values, prox[k], Pixel(k, line), maxDist)
    modifies nearX, nearY, prox
    ensures KnowsLine(img, values, maxDist, line, down, Nears(nearX[..], nearY[..]))
    ensures forall k :: 0 <= k < prox.Length ==> RecordedUpTo(img, values, maxDist, down, Pixel(k, line), prox[k])
    ensures forall k :: 0 <= k < prox.Length ==> old(prox[k]) >= 0.0 ==> 0.0 <= prox[k] <= old(prox[k])
  {
    ghost var c := FirstSweep(img, values, line, src.Length, maxDist, down);
    ghost var d := SecondSweep(img, values, line, src.Length, maxDist, down);
    ghost var prox0 := prox[..];
    ReadyForFirst(img, values, maxDist, line, down, Nears(nearX[..], nearY[..]), prox0);
    assert forall k :: 0 <= k < c.width ==> NearOf(nearX[k], nearY[k]) == Nears(nearX[..], nearY[..])[k];
    ProcessProximityLine(src, nearX, nearY, down, line, maxDist, prox, values, c);
    ghost var near1, prox1 := Nears(nearX[..], nearY[..]), prox[..];
    forall k | 0 <= k < c.width ensures d.Before(NearOf(nearX[k], nearY[k]), prox[k], k) {
      ReadyForSecond(c, d, near1, prox1, prox0, k);
      assert NearOf(nearX[k], nearY[k]) == near1[k] && prox[k] == prox1[k];
    }
    ProcessProximityLine(src, nearX, nearY, !down, line, maxDist, prox, values, d);
    ghost var near2, prox2 := Nears(nearX[..], nearY[..]), prox[..];
    forall k | 0 <= k < c.width
      ensures near2[k].Target? ==> TargetAt(img, values, near2[k].at)
      ensures forall t :: TargetAt(img, values, t) && UpTo(down, line, t) ==> Bound(near2[k], Pixel(k, line), t, maxDist)
      ensures RecordedUpTo(img, values, maxDist, down, Pixel(k, line), prox2[k])
      ensures prox0[k] >= 0.0 ==> 0.0 <= prox2[k] <= prox0[k]
    {
      AfterBoth(d, down, near2, prox2, prox1, k);
      assert c.Lowered(prox0[k], prox1[k]) && d.Lowered(prox1[k], prox2[k]);
    }
  }

  // ---------------------------------------------------------------------
  //  The whole raster
  // ---------------------------------------------------------------------

  /** The squared proximity of a pixel: the exact distance of some target, at most the
      steps to any target within reach, and zero on targets. */
  ghost predicate ProximityOf(img: seq<seq<int>>, values: seq<int>, maxDist: real, p: Pixel, v: real) {
    && Exact(img, values, v, p, maxDist)
    && (TargetAt(img, values, p) ==> v == 0.0)
    && (forall t :: TargetAt(img, values, t) ==> Recorded(v, p, t, maxDist))
  }

  lemma BothDirections(img: seq<seq<int>>, values: seq<int>, maxDist: real, p: Pixel, v1: real, v2: real)
    requires RecordedUpTo(img, values, maxDist, true, p, v1) && RecordedUpTo(img, values, maxDist, false, p, v2)
    requires v1 >= 0.0 ==> 0.0 <= v2 <= v1
    ensures ProximityOf(img, values, maxDist, p, v2)
  {
  }

  /** With the default search distance, width and height together: no target, no proximity; otherwise at most twice the true squared distance. */
  lemma ProximityBound(img: seq<seq<int>>, values: seq<int>, width: nat, p: Pixel, v: real)
    requires forall y :: 0 <= y < |img| ==> |img[y]| == width
    requires 0 <= p.y < |img| && 0 <= p.x < width
    requires ProximityOf(img, values, (width + |img|) as real, p, v)
    ensures v == -1.0 <==> !exists t :: TargetAt(img, values, t)
    ensures v == 0.0 <==> TargetAt(img, values, p)
    ensures v != -1.0 ==> exists t :: TargetAt(img, values, t) && v == SqDist(p, t) as real
    ensures forall t :: TargetAt(img, values, t) ==> 0.0 <= v <= (2 * SqDist(p, t)) as real
  {
    forall t | TargetAt(img, values, t) ensures 0.0 <= v <= (2 * SqDist(p, t)) as real {
      assert Recorded(v, p, t, (width + |img|) as real);
      assert |img[t.y]| == width;
      RecordedTwice(v, p, t, (width + |img|) as real);
    }
    if v == 0.0 {
      var t :| TargetAt(img, values, t) && v == SqDist(p, t) as real;
      SqDistPositive(p, t);
    }
  }

  /** With any search distance: a proximity is exact and within reach, and a target whose steps
      are within reach is never missed. */
  lemma ProximityReach(img: seq<seq<int>>, values: seq<int>, maxDist: real, p: Pixel, v: real, t: Pixel)
    requires ProximityOf(img, values, maxDist, p, v) && TargetAt(img, values, t)
    requires Steps(p, t) as real <= maxDist
    ensures 0.0 <= v <= (2 * SqDist(p, t)) as real && v <= Square(maxDist)
  {
    assert Recorded(v, p, t, maxDist);
    RecordedTwice(v, p, t, maxDist);
  }

  lemma RecordedTwice(v: real, p: Pixel, t: Pixel, maxDist: real)
    requires Recorded(v, p, t, maxDist) && Within(Steps(p, t), maxDist)
    ensures 0.0 <= v <= (2 * SqDist(p, t)) as real
  {
    StepsSquared(p, t);
    NoLess(Steps(p, t) * Steps(p, t), 2 * SqDist(p, t));
  }

  lemma NoLess(a: int, b: int)
    requires a <= b
    ensures a as real <= b as real
  {
  }

  datatype FixedValue = Measured | Fixed(value: real)

  /** The value written for a squared proximity; squared units scale with the square of the multiplier. */
  function Finish(v: real, noData: real, fix: FixedValue, distMult: real): real {
    if v < 0.0 then noData
    else if v > 0.0 then (match fix case Fixed(value) => value case Measured => v * (distMult * distMult))
    else v
  }

  method ReadLine(row: seq<int>, line: array<int>)
    requires line.Length == |row|
    modifies line
    ensures line[..] == row
  {
    for i := 0 to line.Length
      invariant line[..i] == row[..i]
    {
      line[i] := row[i];
    }
    assert line[..] == line[..line.Length];
  }

  /** The recorded proximities of lines lo to hi - 1. */
  ghost predicate LinesRecorded(img: seq<seq<int>>, values: seq<int>, maxDist: real, band: array2<real>, lo: int, hi: int)
    requires 0 <= lo && hi <= band.Length0
    reads band
  {
    forall y, k :: lo <= y < hi && 0 <= k < band.Length1 ==> RecordedUpTo(img, values, maxDist, true, Pixel(k, y), band[y, k])
  }

  ghost predicate Written(img: seq<seq<int>>, values: seq<int>, maxDist: real, p: Pixel, out: real,
                          noData: real, fix: FixedValue, distMult: real) {
    exists v :: ProximityOf(img, values, maxDist, p, v) && out == Finish(v, noData, fix, distMult)
  }

  ghost predicate LinesWritten(img: seq<seq<int>>, values: seq<int>, maxDist: real, band: array2<real>, lo: int,
                               noData: real, fix: FixedValue, distMult: real)
    requires 0 <= lo
    reads band
  {
    forall y, k :: lo <= y < band.Length0 && 0 <= k < band.Length1 ==>
      Written(img, values, maxDist, Pixel(k, y), band[y, k], noData, fix, distMult)
  }

  /** A pixel is a target if it has one of the values, or, without any values, if it is not zero. */
  ghost predicate IsAim(img: seq<seq<int>>, values: seq<int>, x: int, y: int) {
    0 <= y < |img| && 0 <= x < |img[y]| && if |values| == 0 then img[y][x] != 0 else img[y][x] in values
  }

  /** The steps along rows and columns to (tx, ty), where they are within reach. */
  ghost predicate InReach(x: int, y: int, tx: int, ty: int, maxDist: real) {
    (Abs(tx - x) + Abs(ty - y)) as real <= maxDist
  }

  /** out belongs to the target (tx, ty): no target within reach is nearer in steps than this one is in a straight line. */
  ghost predicate BelongsTo(img: seq<seq<int>>, values: seq<int>, maxDist: real, x: int, y: int, tx: int, ty: int, out: real,
                            fix: FixedValue, distMult: real) {
    && IsAim(img, values, tx, ty) && ((tx - x) * (tx - x) + (ty - y) * (ty - y)) as real <= maxDist * maxDist
    && (forall ux, uy :: IsAim(img, values, ux, uy) && InReach(x, y, ux, uy, maxDist)
          ==> (tx - x) * (tx - x) + (ty - y) * (ty - y) <= (Abs(ux - x) + Abs(uy - y)) * (Abs(ux - x) + Abs(uy - y)))
    && out == match fix
              case Fixed(value) => value
              case Measured => ((tx - x) * (tx - x) + (ty - y) * (ty - y)) as real * (distMult * distMult)
  }

  /** What is written at a pixel: zero on targets, the nodata value only where no target is within reach, and
      otherwise what belongs to one of the targets. */
  ghost predicate Outcome(img: seq<seq<int>>, values: seq<int>, maxDist: real, x: int, y: int, out: real,
                          noData: real, fix: FixedValue, distMult: real) {
    if IsAim(img, values, x, y) then out == 0.0
    else
      || (out == noData && forall tx, ty :: IsAim(img, values, tx, ty) ==> !InReach(x, y, tx, ty, maxDist))
      || exists tx, ty :: BelongsTo(img, values, maxDist, x, y, tx, ty, out, fix, distMult)
  }

  lemma AimIsTarget(img: seq<seq<int>>, values: seq<int>, x: int, y: int)
    ensures IsAim(img, values, x, y) <==> TargetAt(img, values, Pixel(x, y))
  {
  }

  lemma ReachIsWithin(x: int, y: int, tx: int, ty: int, maxDist: real)
    ensures InReach(x, y, tx, ty, maxDist) <==> Within(Steps(Pixel(x, y), Pixel(tx, ty)), maxDist)
  {
  }

  lemma WrittenOutcome(img: seq<seq<int>>, values: seq<int>, maxDist: real, x: int, y: int, out: real,
                       noData: real, fix: FixedValue, distMult: real)
    requires Written(img, values, maxDist, Pixel(x, y), out, noData, fix, distMult)
    ensures Outcome(img, values, maxDist, x, y, out, noData, fix, distMult)
  {
    hide IsAim, TargetAt, InReach, Within, Steps;
    var p := Pixel(x, y);
    var v :| ProximityOf(img, values, maxDist, p, v) && out == Finish(v, noData, fix, distMult);
    AimIsTarget(img, values, x, y);
    if v < 0.0 {
      forall tx, ty | IsAim(img, values, tx, ty) ensures !InReach(x, y, tx, ty, maxDist) {
        AimIsTarget(img, values, tx, ty);
        ReachIsWithin(x, y, tx, ty, maxDist);
        assert Recorded(v, p, Pixel(tx, ty), maxDist);
      }
    } else if !TargetAt(img, values, p) {
      var t :| TargetAt(img, values, t) && v == SqDist(p, t) as real;
      SqDistPositive(p, t);
      MeasuredBelongs(img, values, maxDist, x, y, t, v, out, fix, distMult);
    }
  }

  lemma MeasuredBelongs(img: seq<seq<int>>, values: seq<int>, maxDist: real, x: int, y: int, t: Pixel, v: real, out: real,
                        fix: FixedValue, distMult: real)
    requires ProximityOf(img, values, maxDist, Pixel(x, y), v) && v >= 0.0 && TargetAt(img, values, t) && v == SqDist(Pixel(x, y), t) as real
    requires out == match fix case Fixed(value) => value case Measured => v * (distMult * distMult)
    ensures BelongsTo(img, values, maxDist, x, y, t.x, t.y, out, fix, distMult)
  {
    hide IsAim, TargetAt, InReach, Within;
    AimIsTarget(img, values, t.x, t.y);
    forall ux, uy | IsAim(img, values, ux, uy) && InReach(x, y, ux, uy, maxDist)
      ensures (t.x - x) * (t.x - x) + (t.y - y) * (t.y - y) <= (Abs(ux - x) + Abs(uy - y)) * (Abs(ux - x) + Abs(uy - y))
    {
      AimIsTarget(img, values, ux, uy);
      ReachIsWithin(x, y, ux, uy, maxDist);
      assert Recorded(v, Pixel(x, y), Pixel(ux, uy), maxDist);
    }
  }

  method WriteRow(band: array2<real>, y: nat, line: array<real>)
    requires y < band.Length0 && line.Length == band.Length1
    modifies band
    ensures forall r, k :: 0 <= r < band.Length0 && 0 <= k < band.Length1 ==>
              band[r, k] == if r == y then line[k] else old(band[r, k])
  {
    for i := 0 to line.Length
      invariant forall r, k :: 0 <= r < band.Length0 && 0 <= k < band.Length1 ==>
                  band[r, k] == if r == y && k < i then line[k] else old(band[r, k])
    {
      band[y, i] := line[i];
    }
  }

  method ReadRow(band: array2<real>, y: nat, line: array<real>)
    requires y < band.Length0 && line.Length == band.Length1
    modifies line
    ensures forall k :: 0 <= k < line.Length ==> line[k] == band[y, k]
  {
    for i := 0 to line.Length
      invariant forall k :: 0 <= k < i ==> line[k] == band[y, k]
    {
      line[i] := band[y, i];
    }
  }

  method FillNone(line: array<real>)
    modifies line
    ensures forall k :: 0 <= k < line.Length ==> line[k] == -1.0
  {
    for i := 0 to line.Length
      invariant forall k :: 0 <= k < i ==> line[k] == -1.0
    {
      line[i] := -1.0;
    }
  }

  method ForgetNear(nearX: array<int>, nearY: array<int>)
    requires nearX.Length == nearY.Length && nearX != nearY
    modifies nearX, nearY
    ensures forall k :: 0 <= k < nearX.Length ==> Nears(nearX[..], nearY[..])[k] == Nothing
  {
    for i := 0 to nearX.Length
      invariant forall k :: 0 <= k < i ==> nearX[k] == -1
    {
      nearX[i], nearY[i] := -1, -1;
    }
  }

  method FinishLine(line: array<real>, noData: real, fix: FixedValue, distMult: real)
    modifies line
    ensures forall k :: 0 <= k < line.Length ==> line[k] == Finish(old(line[k]), noData, fix, distMult)
  {
    for i := 0 to line.Length
      invariant forall k :: 0 <= k < i ==> line[k] == Finish(old(line[k]), noData, fix, distMult)
      invariant forall k :: i <= k < line.Length ==> line[k] == old(line[k])
    {
      if line[i] < 0.0 {
        line[i] := noData;
      } else if line[i] > 0.0 {
        match fix
        case Fixed(value) => line[i] := value;
        case Measured => line[i] := line[i] * (distMult * distMult);
      }
    }
  }

  /** A line on the way down. */
  method DownLine(row: seq<int>, y: nat, src: array<int>, nearX: array<int>, nearY: array<int>, prox: array<real>,
                  band: array2<real>, maxDist: real, values: seq<int>, ghost img: seq<seq<int>>)
    requires src.Length == nearX.Length == nearY.Length == prox.Length == band.Length1 == |row|
    requires nearX != nearY && src != nearX && src != nearY
    requires y < |img| == band.Length0 && row == img[y]
    requires KnowsLine(img, values, maxDist, y - 1, true, Nears(nearX[..], nearY[..]))
    requires LinesRecorded(img, values, maxDist, band, 0, y)
    modifies src, nearX, nearY, prox, band
    ensures KnowsLine(img, values, maxDist, y, true, Nears(nearX[..], nearY[..]))
    ensures LinesRecorded(img, values, maxDist, band, 0, y + 1)
  {
    ReadLine(row, src);
    FillNone(prox);
    ProximityLine(src, nearX, nearY, true, y, maxDist, prox, values, img);
    WriteRow(band, y, prox);
  }

  /** A line on the way up. */
  method UpLine(row: seq<int>, y: nat, src: array<int>, nearX: array<int>, nearY: array<int>, prox: array<real>,
                band: array2<real>, maxDist: real, values: seq<int>, noData: real, fix: FixedValue, distMult: real,
                ghost img: seq<seq<int>>)
    requires src.Length == nearX.Length == nearY.Length == prox.Length == band.Length1 == |row|
    requires nearX != nearY && src != nearX && src != nearY
    requires y < |img| == band.Length0 && row == img[y]
    requires KnowsLine(img, values, maxDist, y + 1, false, Nears(nearX[..], nearY[..]))
    requires LinesRecorded(img, values, maxDist, band, 0, y + 1)
    requires LinesWritten(img, values, maxDist, band, y + 1, noData, fix, distMult)
    modifies src, nearX, nearY, prox, band
    ensures KnowsLine(img, values, maxDist, y, false, Nears(nearX[..], nearY[..]))
    ensures LinesRecorded(img, values, maxDist, band, 0, y)
    ensures LinesWritten(img, values, maxDist, band, y, noData, fix, distMult)
  {
    ReadRow(band, y, prox);
    ReadLine(row, src);
    ghost var prox1 := prox[..];
    assert forall k :: 0 <= k < prox.Length ==> RecordedUpTo(img, values, maxDist, true, Pixel(k, y), prox1[k]);
    ProximityLine(src, nearX, nearY, false, y, maxDist, prox, values, img);
    ghost var prox2 := prox[..];
    forall k | 0 <= k < prox.Length ensures ProximityOf(img, values, maxDist, Pixel(k, y), prox2[k]) {
      BothDirections(img, values, maxDist, Pixel(k, y), prox1[k], prox2[k]);
    }
    FinishLine(prox, noData, fix, distMult);
    forall k | 0 <= k < prox.Length
      ensures Written(img, values, maxDist, Pixel(k, y), prox[k], noData, fix, distMult)
    {
      assert ProximityOf(img, values, maxDist, Pixel(k, y), prox2[k]) && prox[k] == Finish(prox2[k], noData, fix, distMult);
    }
    WriteRow(band, y, prox);
  }

  method Buffers(width: nat) returns (src: array<int>, nearX: array<int>, nearY: array<int>, prox: array<real>)
    ensures fresh(src) && fresh(nearX) && fresh(nearY) && fresh(prox)
    ensures src.Length == nearX.Length == nearY.Length == prox.Length == width
    ensures nearX != nearY && src != nearX && src != nearY
  {
    src, nearX, nearY, prox := new int[width], new int[width], new int[width], new real[width];
  }

  method ComputeProximity(img: seq<seq<int>>, band: array2<real>, values: seq<int>, maxDist: real,
                          noData: real, fix: FixedValue, distMult: real)
    requires band.Length0 == |img| && forall y :: 0 <= y < |img| ==> |img[y]| == band.Length1
    modifies band
    ensures LinesWritten(img, values, maxDist, band, 0, noData, fix, distMult)
    ensures forall y, k :: 0 <= y < band.Length0 && 0 <= k < band.Length1 ==>
              Outcome(img, values, maxDist, k, y, band[y, k], noData, fix, distMult)
  {
    hide Finish, RecordedUpTo, Recorded, Exact, Written, Outcome;
    var src, nearX, nearY, prox := Buffers(band.Length1);
    ForgetNear(nearX, nearY);
    for y := 0 to |img|
      invariant KnowsLine(img, values, maxDist, y - 1, true, Nears(nearX[..], nearY[..]))
      invariant LinesRecorded(img, values, maxDist, band, 0, y)
    {
      DownLine(img[y], y, src, nearX, nearY, prox, band, maxDist, values, img);
    }
    ForgetNear(nearX, nearY);
    for y := |img| downto 0
      invariant KnowsLine(img, values, maxDist, y, false, Nears(nearX[..], nearY[..]))
      invariant LinesRecorded(img, values, maxDist, band, 0, y)
      invariant LinesWritten(img, values, maxDist, band, y, noData, fix, distMult)
    {
      UpLine(img[y], y, src, nearX, nearY, prox, band, maxDist, values, noData, fix, distMult, img);
    }
    forall y, k | 0 <= y < band.Length0 && 0 <= k < band.Length1
      ensures Outcome(img, values, maxDist, k, y, band[y, k], noData, fix, distMult)
    {
      WrittenOutcome(img, values, maxDist, k, y, band[y, k], noData, fix, distMult);
    }
  }
}
