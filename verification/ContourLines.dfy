/** Joining segments into contour lines (contour.cpp): polylines that grow at their tips, levels of such
    polylines, and the generator that feeds them and writes them out. No segment is ever lost. */
module ContourLines {
  import opened Basics
  import opened ContourCells

  const JOIN_DIST := 0.0001

  function Gap(a: real, b: real): real {
    if a < b then b - a else a - b
  }

  predicate Near(p: Point, q: Point) {
    Gap(p.x, q.x) < JOIN_DIST && Gap(p.y, q.y) < JOIN_DIST
  }

  // ---------------------------------------------------------------------
  //  Polylines and the segments they stand for
  // ---------------------------------------------------------------------

  datatype Polyline = Polyline(level: real, points: seq<Point>)

  /** A polyline, and the segments it was made of, in the direction in which it runs along them. */
  datatype Contour = Contour(line: Polyline, segs: seq<Segment>) {
    function First(): Point
      requires |line.points| > 0
    {
      line.points[0]
    }

    function Last(): Point
      requires |line.points| > 0
    {
      line.points[|line.points|-1]
    }
  }

  /** A segment without its direction. */
  datatype Stretch = Stretch(level: real, ends: set<Point>)

  function Undirected(s: Segment): Stretch {
    Stretch(s.level, {s.a, s.b})
  }

  function Flipped(s: Segment): Segment {
    Segment(s.level, s.b, s.a)
  }

  predicate RunsAlong(p: Point, q: Point, s: Segment) {
    Near(p, s.a) && Near(q, s.b)
  }

  /** One edge for each segment, within JOIN_DIST of it, and both tips exactly at a segment's end. */
  ghost predicate Sound(c: Contour) {
    && |c.segs| > 0 && |c.line.points| == |c.segs| + 1
    && (forall i :: 0 <= i < |c.segs| ==> RunsAlong(c.line.points[i], c.line.points[i+1], c.segs[i]))
    && c.First() == c.segs[0].a && c.Last() == c.segs[|c.segs|-1].b
    && (forall i :: 0 <= i < |c.segs| ==> c.segs[i].level == c.line.level)
  }

  ghost function Stretches(segs: seq<Segment>): (r: seq<Stretch>)
    ensures |r| == |segs| && forall i :: 0 <= i < |segs| ==> r[i] == Undirected(segs[i])
  {
    seq(|segs|, i requires 0 <= i < |segs| => Undirected(segs[i]))
  }

  function Occurs(s: Segment, t: Stretch): nat {
    if Undirected(s) == t then 1 else 0
  }

  /** How often a stretch is among some segments, whichever way they run. */
  ghost function Times(segs: seq<Segment>, t: Stretch): nat {
    multiset(Stretches(segs))[t]
  }

  lemma TimesConcat(a: seq<Segment>, b: seq<Segment>, t: Stretch)
    ensures Times(a + b, t) == Times(a, t) + Times(b, t)
  {
    assert Stretches(a + b) == Stretches(a) + Stretches(b);
  }

  lemma TimesOne(s: Segment, t: Stretch)
    ensures Times([s], t) == Occurs(s, t)
  {
  }

  /** The first segments are all of the second and all of the third ones. */
  ghost predicate Together(segs: seq<Segment>, a: seq<Segment>, b: seq<Segment>) {
    |segs| == |a| + |b| && forall t :: Times(segs, t) == Times(a, t) + Times(b, t)
  }

  lemma ConcatTogether(a: seq<Segment>, b: seq<Segment>)
    ensures Together(a + b, a, b) && Together(a + b, b, a)
  {
    forall t ensures Times(a + b, t) == Times(a, t) + Times(b, t) {
      TimesConcat(a, b, t);
    }
  }

  /** The same segments the other way round. */
  function Backward(segs: seq<Segment>): (r: seq<Segment>)
    ensures |r| == |segs| && forall i :: 0 <= i < |segs| ==> r[i] == Flipped(segs[|segs|-1-i])
  {
    if |segs| == 0 then [] else [Flipped(segs[|segs|-1])] + Backward(segs[..|segs|-1])
  }

  function Reversed(points: seq<Point>): (r: seq<Point>)
    ensures |r| == |points| && forall i :: 0 <= i < |points| ==> r[i] == points[|points|-1-i]
  {
    seq(|points|, i requires 0 <= i < |points| => points[|points|-1-i])
  }

  lemma {:induction false} TimesBackward(segs: seq<Segment>, t: Stretch)
    ensures Times(Backward(segs), t) == Times(segs, t)
  {
    if |segs| > 0 {
      var last, init := segs[|segs|-1], segs[..|segs|-1];
      TimesBackward(init, t);
      assert Backward(segs) == [Flipped(last)] + Backward(init);
      assert segs == init + [last];
      FlippedTimes(last, init, Backward(init), t);
    }
  }

  lemma FlippedTimes(s: Segment, a: seq<Segment>, b: seq<Segment>, t: Stretch)
    requires Times(a, t) == Times(b, t)
    ensures Times([Flipped(s)] + b, t) == Times(a + [s], t)
  {
    TimesConcat([Flipped(s)], b, t);
    TimesConcat(a, [s], t);
    TimesOne(Flipped(s), t);
    TimesOne(s, t);
  }

  function TurnedRound(c: Contour): Contour {
    Contour(Polyline(c.line.level, Reversed(c.line.points)), Backward(c.segs))
  }

  lemma NearSymmetric(p: Point, q: Point)
    ensures Near(p, q) <==> Near(q, p)
  {
  }

  lemma TurnedRoundSound(c: Contour)
    requires Sound(c)
    ensures Sound(TurnedRound(c)) && forall t :: Times(TurnedRound(c).segs, t) == Times(c.segs, t)
    ensures TurnedRound(c).First() == c.Last() && TurnedRound(c).Last() == c.First()
  {
    forall t ensures Times(TurnedRound(c).segs, t) == Times(c.segs, t) {
      TimesBackward(c.segs, t);
    }
    var r, n := TurnedRound(c), |c.segs|;
    forall i | 0 <= i < n ensures RunsAlong(r.line.points[i], r.line.points[i+1], r.segs[i]) && r.segs[i].level == r.line.level {
      assert RunsAlong(c.line.points[n-1-i], c.line.points[n-i], c.segs[n-1-i]);
    }
  }

  /** b after a: the joint is where a ends. */
  function After(a: Contour, b: Contour): Contour
    requires |b.line.points| > 0
  {
    Contour(Polyline(a.line.level, a.line.points + b.line.points[1..]), a.segs + b.segs)
  }

  /** b before a: the joint is where a begins. */
  function InFront(a: Contour, b: Contour): Contour
    requires |b.line.points| > 0
  {
    Contour(Polyline(a.line.level, b.line.points[..|b.line.points|-1] + a.line.points), b.segs + a.segs)
  }

  lemma AfterSound(a: Contour, b: Contour)
    requires Sound(a) && Sound(b) && a.line.level == b.line.level && Near(a.Last(), b.First())
    ensures Sound(After(a, b)) && Together(After(a, b).segs, a.segs, b.segs)
    ensures After(a, b).Last() == b.Last()
  {
    ConcatTogether(a.segs, b.segs);
    var c, n := After(a, b), |a.segs|;
    forall i | 0 <= i < |c.segs| ensures RunsAlong(c.line.points[i], c.line.points[i+1], c.segs[i]) && c.segs[i].level == c.line.level {
      if i < n {
        assert RunsAlong(a.line.points[i], a.line.points[i+1], a.segs[i]);
      } else {
        assert RunsAlong(b.line.points[i-n], b.line.points[i-n+1], b.segs[i-n]);
      }
    }
  }

  lemma InFrontSound(a: Contour, b: Contour)
    requires Sound(a) && Sound(b) && a.line.level == b.line.level && Near(a.First(), b.Last())
    ensures Sound(InFront(a, b)) && Together(InFront(a, b).segs, a.segs, b.segs)
    ensures InFront(a, b).Last() == a.Last()
  {
    ConcatTogether(b.segs, a.segs);
    var c, n := InFront(a, b), |b.segs|;
    NearSymmetric(a.First(), b.Last());
    forall i | 0 <= i < |c.segs| ensures RunsAlong(c.line.points[i], c.line.points[i+1], c.segs[i]) && c.segs[i].level == c.line.level {
      if i < n {
        assert RunsAlong(b.line.points[i], b.line.points[i+1], b.segs[i]);
      } else {
        assert RunsAlong(a.line.points[i-n], a.line.points[i-n+1], a.segs[i-n]);
      }
    }
  }

  function Single(s: Segment): Contour {
    Contour(Polyline(s.level, [s.a, s.b]), [s])
  }

  lemma SingleSound(s: Segment)
    ensures Sound(Single(s))
  {
  }

  predicate Meets(a: Contour, b: Contour)
    requires |a.line.points| > 0 && |b.line.points| > 0
  {
    || Near(a.Last(), b.First()) || Near(a.First(), b.Last())
    || Near(a.Last(), b.Last()) || Near(a.First(), b.First())
  }

  /** Two contours joined at the first pair of tips that meet. */
  function Merged(a: Contour, b: Contour): Contour
    requires |a.line.points| > 0 && |b.line.points| > 0
  {
    if Near(a.Last(), b.First()) then After(a, b)
    else if Near(a.First(), b.Last()) then InFront(a, b)
    else if Near(a.Last(), b.Last()) then After(a, TurnedRound(b))
    else InFront(a, TurnedRound(b))
  }

  /** Merging keeps every segment, and no edge drifts further than JOIN_DIST from its own. */
  lemma MergedSound(a: Contour, b: Contour)
    requires Sound(a) && Sound(b) && a.line.level == b.line.level && Meets(a, b)
    ensures Sound(Merged(a, b)) && Together(Merged(a, b).segs, a.segs, b.segs)
    ensures |Merged(a, b).line.points| - 1 == (|a.line.points| - 1) + (|b.line.points| - 1)
  {
    TurnedRoundSound(b);
    if Near(a.Last(), b.First()) {
      AfterSound(a, b);
    } else if Near(a.First(), b.Last()) {
      InFrontSound(a, b);
    } else if Near(a.Last(), b.Last()) {
      AfterSound(a, TurnedRound(b));
    } else {
      InFrontSound(a, TurnedRound(b));
    }
  }

  /** One more segment, whichever way it runs. */
  ghost predicate OneMore(before: seq<Segment>, after: seq<Segment>, s: Segment) {
    |after| == |before| + 1 && forall t :: Times(after, t) == Times(before, t) + Occurs(s, t)
  }

  lemma OneMoreAtEnd(before: seq<Segment>, last: Segment, s: Segment)
    requires last == s || last == Flipped(s)
    ensures OneMore(before, before + [last], s)
  {
    forall t ensures Times(before + [last], t) == Times(before, t) + Occurs(s, t) {
      TimesConcat(before, [last], t);
      TimesOne(last, t);
    }
  }

  /** A contour takes a segment that starts near its last tip. */
  lemma TakenUp(c: Contour, last: Segment, s: Segment)
    requires Sound(c) && c.line.level == last.level && Near(c.Last(), last.a) && (last == s || last == Flipped(s))
    ensures Sound(Contour(Polyline(last.level, c.line.points + [last.b]), c.segs + [last]))
    ensures OneMore(c.segs, c.segs + [last], s)
  {
    SingleSound(last);
    AfterSound(c, Single(last));
    assert After(c, Single(last)) == Contour(Polyline(last.level, c.line.points + [last.b]), c.segs + [last]);
    OneMoreAtEnd(c.segs, last, s);
  }

  // ---------------------------------------------------------------------
  //  Items
  // ---------------------------------------------------------------------

  class ContourItem {
    var recentlyAccessed: bool
    const level: real
    var points: seq<Point>
    var tailX: real
    ghost var segs: seq<Segment>

    ghost function Value(): Contour
      reads this
    {
      Contour(Polyline(level, points), segs)
    }

    ghost predicate Valid()
      reads this
    {
      Sound(Value()) && tailX == points[|points|-1].x
    }

    constructor (level: real)
      ensures this.level == level && points == [] && segs == [] && !recentlyAccessed
    {
      this.level, points, segs, recentlyAccessed, tailX := level, [], [], false, 0.0;
    }

    /** Adds a segment at the last tip, if one of its ends is there. */
    method AddSegment(a: Point, b: Point) returns (ok: bool)
      requires (points == [] && segs == []) || Valid()
      modifies this
      ensures ok <==> old(points) == [] || Near(old(points)[|old(points)|-1], a) || Near(old(points)[|old(points)|-1], b)
      ensures ok ==> Valid() && recentlyAccessed && OneMore(old(segs), segs, Segment(level, a, b))
      ensures !ok ==> points == old(points) && segs == old(segs) && tailX == old(tailX) && recentlyAccessed == old(recentlyAccessed)
    {
      ghost var s, was := Segment(level, a, b), Value();
      if |points| == 0 {
        points := [a, b];
        segs := [s];
        SingleSound(s);
        OneMoreAtEnd([], s, s);
        recentlyAccessed := true;
        tailX := b.x;
        return true;
      }
      var tip := points[|points|-1];
      if Near(tip, a) {
        points := points + [b];
        segs := segs + [s];
        TakenUp(was, s, s);
        recentlyAccessed := true;
        tailX := b.x;
        return true;
      } else if Near(tip, b) {
        points := points + [a];
        segs := segs + [Flipped(s)];
        TakenUp(was, Flipped(s), s);
        recentlyAccessed := true;
        tailX := a.x;
        return true;
      }
      return false;
    }

    method ClearAccessed()
      requires Valid()
      modifies this
      ensures Valid() && Value() == old(Value()) && !recentlyAccessed
    {
      recentlyAccessed := false;
    }

    /** Takes over the whole of another contour, if any of their tips meet. */
    method Merge(other: ContourItem) returns (ok: bool)
      requires other != this && Valid() && other.Valid()
      modifies this
      ensures ok <==> level == other.level && Meets(old(Value()), other.Value())
      ensures ok ==> Valid() && recentlyAccessed && Value() == Merged(old(Value()), other.Value())
      ensures !ok ==> unchanged(this)
    {
      if other.level != level {
        return false;
      }
      ghost var a, b := Value(), other.Value();
      var joined;
      ok, joined := JoinPoints(points, other.points, a, b);
      if ok {
        MergedSound(a, b);
        points := joined;
        segs := Merged(a, b).segs;
        recentlyAccessed := true;
        tailX := points[|points|-1].x;
      }
    }
  }

  /** Puts two runs of points together at the first pair of tips that meet. */
  method JoinPoints(p: seq<Point>, q: seq<Point>, ghost a: Contour, ghost b: Contour) returns (ok: bool, r: seq<Point>)
    requires |p| > 0 && |q| > 0 && a.line.points == p && b.line.points == q
    ensures ok <==> Meets(a, b)
    ensures ok ==> r == Merged(a, b).line.points
  {
    var n, m := |p|, |q|;
    if Near(p[n-1], q[0]) {
      return true, p + q[1..];
    } else if Near(p[0], q[m-1]) {
      return true, q[..m-1] + p;
    } else if Near(p[n-1], q[m-1]) {
      r := p;
      for i := 0 to m - 1
        invariant r == p + Reversed(q)[1..][..i]
      {
        r := r + [q[m-i-2]];
      }
      return true, r;
    } else if Near(p[0], q[0]) {
      var head := [];
      for i := 0 to m - 1
        invariant head == Reversed(q)[..i]
      {
        head := head + [q[m-i-1]];
      }
      return true, head + p;
    }
    return false, [];
  }

  // ---------------------------------------------------------------------
  //  Levels
  // ---------------------------------------------------------------------

  ghost function Values(entries: seq<ContourItem>): (r: seq<Contour>)
    reads entries
    ensures |r| == |entries| && forall i :: 0 <= i < |entries| ==> r[i] == entries[i].Value()
  {
    seq(|entries|, i requires 0 <= i < |entries| reads entries => entries[i].Value())
  }

  /** How often a stretch is among the segments of the first n contours. */
  ghost function TimesIn(values: seq<Contour>, n: nat, t: Stretch): nat
    requires n <= |values|
  {
    if n == 0 then 0 else TimesIn(values, n - 1, t) + Times(values[n-1].segs, t)
  }

  lemma {:induction false} TimesInSame(a: seq<Contour>, b: seq<Contour>, n: nat, t: Stretch)
    requires n <= |a| && n <= |b| && forall i :: 0 <= i < n ==> a[i] == b[i]
    ensures TimesIn(a, n, t) == TimesIn(b, n, t)
  {
    if n > 0 { TimesInSame(a, b, n - 1, t); }
  }

  predicate Without(values: seq<Contour>, k: nat, rest: seq<Contour>) {
    && k < |values| == |rest| + 1
    && (forall i :: 0 <= i < k ==> rest[i] == values[i])
    && (forall i :: k <= i < |rest| ==> rest[i] == values[i+1])
  }

  /** Taking out one contour takes out its segments. */
  lemma {:induction false} TimesInWithout(values: seq<Contour>, k: nat, rest: seq<Contour>, n: nat, t: Stretch)
    requires Without(values, k, rest) && k < n <= |values|
    ensures TimesIn(values, n, t) == TimesIn(rest, n - 1, t) + Times(values[k].segs, t)
  {
    hide Times;
    if n == k + 1 { TimesInSame(values, rest, k, t); } else { TimesInWithout(values, k, rest, n - 1, t); }
  }

  /** All segments of some contours. */
  ghost function TimesAll(values: seq<Contour>, t: Stretch): nat {
    TimesIn(values, |values|, t)
  }

  lemma TimesWithout(values: seq<Contour>, k: nat, rest: seq<Contour>)
    requires Without(values, k, rest)
    ensures forall t :: TimesAll(values, t) == TimesAll(rest, t) + Times(values[k].segs, t)
  {
    forall t ensures TimesAll(values, t) == TimesAll(rest, t) + Times(values[k].segs, t) {
      TimesInWithout(values, k, rest, |values|, t);
    }
  }

  function Removed(values: seq<Contour>, k: nat): (rest: seq<Contour>)
    requires k < |values|
    ensures Without(values, k, rest)
  {
    values[..k] + values[k+1..]
  }

  lemma TimesUpdate(values: seq<Contour>, k: nat, values': seq<Contour>)
    requires k < |values| == |values'| && forall i :: 0 <= i < |values| && i != k ==> values'[i] == values[i]
    ensures forall t :: TimesAll(values', t) - Times(values'[k].segs, t) == TimesAll(values, t) - Times(values[k].segs, t)
  {
    var rest := Removed(values, k);
    TimesWithout(values, k, rest);
    TimesWithout(values', k, rest);
  }

  lemma TimesSwap(values: seq<Contour>, k: nat, values': seq<Contour>)
    requires k + 1 < |values| == |values'| && values'[k] == values[k+1] && values'[k+1] == values[k]
    requires forall i :: 0 <= i < |values| && i != k && i != k + 1 ==> values'[i] == values[i]
    ensures forall t :: TimesAll(values', t) == TimesAll(values, t)
  {
    var rest := Removed(values, k);
    assert Without(values', k + 1, rest);
    TimesWithout(values, k, rest);
    TimesWithout(values', k + 1, rest);
  }

  ghost predicate Distinct(entries: seq<ContourItem>) {
    forall i, j :: 0 <= i < j < |entries| ==> entries[i] != entries[j]
  }

  ghost predicate AllValid(entries: seq<ContourItem>, level: real)
    reads entries
  {
    forall i :: 0 <= i < |entries| ==> entries[i].Valid() && entries[i].level == level
  }

  ghost predicate EntryGone(entries: seq<ContourItem>, k: nat, rest: seq<ContourItem>) {
    && k < |entries| == |rest| + 1
    && (forall i :: 0 <= i < k ==> rest[i] == entries[i])
    && (forall i :: k <= i < |rest| ==> rest[i] == entries[i+1])
  }

  lemma EntriesWithout(entries: seq<ContourItem>, k: nat, rest: seq<ContourItem>, level: real)
    requires Distinct(entries) && AllValid(entries, level) && EntryGone(entries, k, rest)
    ensures Distinct(rest) && AllValid(rest, level)
    ensures forall t :: TimesAll(Values(entries), t) == TimesAll(Values(rest), t) + Times(entries[k].segs, t)
  {
    TimesWithout(Values(entries), k, Values(rest));
  }

  lemma InsertedDistinct(entries: seq<ContourItem>, k: nat, item: ContourItem)
    requires Distinct(entries) && item !in entries && k <= |entries|
    ensures Distinct(entries[..k] + [item] + entries[k..]) && EntryGone(entries[..k] + [item] + entries[k..], k, entries)
  {
  }

  ghost predicate AllAccessed(entries: seq<ContourItem>)
    reads entries
  {
    forall a :: 0 <= a < |entries| ==> entries[a].recentlyAccessed
  }

  /** The entries that the last line touched. */
  ghost function Accessed(entries: seq<ContourItem>): (r: set<ContourItem>)
    reads entries
    ensures forall a :: 0 <= a < |entries| ==> (entries[a] in r <==> entries[a].recentlyAccessed)
    ensures forall e :: e in r ==> e in entries
  {
    set a | 0 <= a < |entries| && entries[a].recentlyAccessed :: entries[a]
  }

  lemma RestAccessed(entries: seq<ContourItem>, k: nat, rest: seq<ContourItem>)
    requires EntryGone(entries, k, rest)
    ensures Accessed(entries) - {entries[k]} <= Accessed(rest)
  {
    forall e | e in Accessed(entries) && e != entries[k] ensures e in Accessed(rest) {
      var a :| 0 <= a < |entries| && entries[a] == e;
      assert rest[if a < k then a else a - 1] == e;
    }
  }

  ghost predicate Among(some: set<ContourItem>, entries: seq<ContourItem>) {
    forall e :: e in some ==> e in entries
  }

  // ---------------------------------------------------------------------
  //  What cannot be joined
  // ---------------------------------------------------------------------

  ghost predicate MeetsNone(values: seq<Contour>, c: Contour) {
    |c.line.points| > 0 && forall i :: 0 <= i < |values| ==> |values[i].line.points| > 0 && !Meets(values[i], c)
  }

  /** None of some contours meets another of them or one of the values. */
  ghost predicate Unjoinable(out: seq<Contour>, values: seq<Contour>) {
    && (forall i :: 0 <= i < |out| ==> MeetsNone(values, out[i]))
    && (forall i :: 0 <= i < |out| ==> MeetsNone(out[..i], out[i]))
  }

  lemma SoundPoints(c: Contour)
    requires Sound(c)
    ensures |c.line.points| >= 2
  {
  }

  /** Merging leaves two of the four tips. */
  lemma MergedMeets(a: Contour, b: Contour, c: Contour)
    requires Sound(a) && Sound(b) && |c.line.points| > 0 && !Meets(a, c) && !Meets(b, c)
    ensures |Merged(a, b).line.points| > 0 && !Meets(Merged(a, b), c)
  {
    hide Near;
  }

  lemma MergingUnjoinable(out: seq<Contour>, values: seq<Contour>, i: nat, rest: seq<Contour>, k: nat)
    requires Unjoinable(out, values) && Without(values, i, rest) && k < |rest| && Sound(values[i]) && Sound(rest[k])
    ensures Unjoinable(out, rest[k := Merged(rest[k], values[i])])
  {
    hide Meets, Merged, Sound;
    forall o | 0 <= o < |out| ensures MeetsNone(rest[k := Merged(rest[k], values[i])], out[o]) {
      assert MeetsNone(values, out[o]) && rest[k] in values;
      MergedMeets(rest[k], values[i], out[o]);
    }
  }

  lemma WritingUnjoinable(out: seq<Contour>, values: seq<Contour>, i: nat, rest: seq<Contour>)
    requires Unjoinable(out, values) && Without(values, i, rest) && MeetsNone(rest, values[i])
    ensures Unjoinable(out + [values[i]], rest)
  {
    hide Near;
    var more := out + [values[i]];
    assert more[..|out|] == out;
    forall o | 0 <= o < |more| ensures MeetsNone(rest, more[o]) && MeetsNone(more[..o], more[o]) {
      if o < |out| {
        assert more[..o] == out[..o] && MeetsNone(values, out[o]);
      } else {
        forall q | 0 <= q < |out| ensures !Meets(out[q], values[i]) {
          assert MeetsNone(values, out[q]);
          MeetsSymmetric(values[i], out[q]);
        }
      }
    }
  }

  lemma MeetsSymmetric(a: Contour, b: Contour)
    requires |a.line.points| > 0 && |b.line.points| > 0
    ensures Meets(a, b) <==> Meets(b, a)
  {
    hide Near;
    NearSymmetric(a.Last(), b.First());
    NearSymmetric(a.First(), b.Last());
    NearSymmetric(a.Last(), b.Last());
    NearSymmetric(a.First(), b.First());
  }

  // ---------------------------------------------------------------------
  //  The order of a level's contours, and the search in it
  // ---------------------------------------------------------------------

  ghost function Tail(c: Contour): Point {
    if |c.line.points| > 0 then c.Last() else Point(0.0, 0.0)
  }

  ghost function Tails(values: seq<Contour>): (r: seq<Point>)
    ensures |r| == |values| && forall i :: 0 <= i < |r| ==> r[i] == Tail(values[i])
  {
    seq(|values|, i requires 0 <= i < |values| => Tail(values[i]))
  }

  /** Tails from left to right. */
  ghost predicate Ordered(tails: seq<Point>) {
    forall i, j :: 0 <= i < j < |tails| ==> tails[i].x <= tails[j].x
  }

  /** The same, but for one of them. */
  ghost predicate OrderedBut(tails: seq<Point>, k: nat) {
    forall i, j :: 0 <= i < j < |tails| && i != k && j != k ==> tails[i].x <= tails[j].x
  }

  /** Where the binary search from start to end comes upon a tail of column x; -1 if nowhere. */
  ghost function HitAt(tails: seq<Point>, x: real, start: nat, end: int): (k: int)
    requires end < |tails|
    ensures k == -1 || (start <= k <= end && tails[k].x == x)
    decreases end - start
  {
    if end < start then -1
    else
      var middle := (end + start) / 2;
      if tails[middle].x < x then HitAt(tails, x, middle + 1, end)
      else if tails[middle].x > x then HitAt(tails, x, start, middle - 1)
      else middle
  }

  /** The first tail near p from k on, as far as columns are within JOIN_DIST; -1 if there is none. */
  ghost function FirstNear(tails: seq<Point>, p: Point, k: nat): (r: int)
    decreases |tails| - k
  {
    if k >= |tails| || Gap(tails[k].x, p.x) >= JOIN_DIST then -1
    else if Gap(tails[k].y, p.y) < JOIN_DIST then k
    else FirstNear(tails, p, k + 1)
  }

  /** What the search finds: from the hit it goes back while columns are within JOIN_DIST, and must not come to one
      that is not. */
  ghost function TailAt(tails: seq<Point>, p: Point): int {
    var hit := HitAt(tails, p.x, 0, |tails| - 1);
    if hit == -1 || exists i :: 0 <= i <= hit && Gap(tails[i].x, p.x) >= JOIN_DIST then -1 else FirstNear(tails, p, 0)
  }

  lemma NoHit(tails: seq<Point>, p: Point)
    requires HitAt(tails, p.x, 0, |tails| - 1) == -1
    ensures TailAt(tails, p) == -1
  {
  }

  lemma FoundFrom(tails: seq<Point>, p: Point, hit: nat, first: nat)
    requires first <= hit < |tails| && hit == HitAt(tails, p.x, 0, |tails| - 1)
    requires (first > 0 ==> Gap(tails[first].x, p.x) >= JOIN_DIST) && forall i :: first < i <= hit ==> Gap(tails[i].x, p.x) < JOIN_DIST
    ensures TailAt(tails, p) == FirstNear(tails, p, first)
  {
    hide HitAt;
    if exists i :: 0 <= i <= hit && Gap(tails[i].x, p.x) >= JOIN_DIST {
      assert FirstNear(tails, p, first) == -1;
    } else {
      assert first == 0;
    }
  }

  lemma {:induction false} HitIfAny(tails: seq<Point>, x: real, start: nat, end: int, k: nat)
    requires Ordered(tails) && start <= k <= end < |tails| && tails[k].x == x
    ensures HitAt(tails, x, start, end) != -1
    decreases end - start
  {
    var middle := (end + start) / 2;
    if tails[middle].x < x {
      HitIfAny(tails, x, middle + 1, end, k);
    } else if tails[middle].x > x {
      HitIfAny(tails, x, start, middle - 1, k);
    }
  }

  lemma {:induction false} FirstNearIs(tails: seq<Point>, p: Point, k: nat, r: nat)
    requires k <= r < |tails| && forall i :: k <= i <= r ==> Gap(tails[i].x, p.x) < JOIN_DIST
    ensures Near(tails[r], p) ==> k <= FirstNear(tails, p, k) <= r
    ensures FirstNear(tails, p, k) != -1 ==> k <= FirstNear(tails, p, k) < |tails| && Near(tails[FirstNear(tails, p, k)], p)
    decreases |tails| - k
  {
    if Gap(tails[k].y, p.y) >= JOIN_DIST && k < r {
      FirstNearIs(tails, p, k + 1, r);
    } else if Gap(tails[k].y, p.y) >= JOIN_DIST && k + 1 < |tails| && Gap(tails[k+1].x, p.x) < JOIN_DIST {
      FirstNearIs(tails, p, k + 1, k + 1);
    }
  }

  lemma LeadingColumns(tails: seq<Point>, p: Point, r: nat)
    requires Ordered(tails) && r < |tails| && Gap(tails[0].x, p.x) < JOIN_DIST && Gap(tails[r].x, p.x) < JOIN_DIST
    ensures forall i :: 0 <= i <= r ==> Gap(tails[i].x, p.x) < JOIN_DIST
  {
    forall i | 0 <= i <= r ensures Gap(tails[i].x, p.x) < JOIN_DIST {
      assert tails[0].x <= tails[i].x <= tails[r].x;
    }
  }

  /** In order, something is found exactly if a tail has the very column, the leftmost tail is within JOIN_DIST of it,
      and a tail is near; then it is the first tail that is near. */
  lemma FoundIff(tails: seq<Point>, p: Point)
    requires Ordered(tails)
    ensures var k := TailAt(tails, p);
            && (k != -1 <==> |tails| > 0 && Gap(tails[0].x, p.x) < JOIN_DIST && (exists i :: 0 <= i < |tails| && tails[i].x == p.x)
                             && exists i :: 0 <= i < |tails| && Near(tails[i], p))
            && (k != -1 ==> 0 <= k < |tails| && Near(tails[k], p) && forall i :: 0 <= i < k ==> !Near(tails[i], p))
  {
    hide HitAt, Ordered, FirstNear;
    var hit := HitAt(tails, p.x, 0, |tails| - 1);
    if i :| 0 <= i < |tails| && tails[i].x == p.x {
      HitIfAny(tails, p.x, 0, |tails| - 1, i);
    }
    if hit != -1 && Gap(tails[0].x, p.x) < JOIN_DIST {
      LeadingColumns(tails, p, hit);
      FirstNearIs(tails, p, 0, hit);
      forall r | 0 <= r < |tails| && Near(tails[r], p) ensures 0 <= FirstNear(tails, p, 0) <= r {
        LeadingColumns(tails, p, r);
        FirstNearIs(tails, p, 0, r);
      }
    }
  }

  /** So a tail at the very point is overlooked when there is another one further left. */
  lemma FoundCanMiss()
    ensures var tails, p := [Point(0.0, 0.0), Point(5.0, 0.0)], Point(5.0, 0.0);
            Ordered(tails) && tails[1] == p && TailAt(tails, p) == -1
  {
    var tails := [Point(0.0, 0.0), Point(5.0, 0.0)];
    assert Gap(tails[0].x, 5.0) >= JOIN_DIST;
  }

  /** The place where a binary search for the level, not for a column, ends. */
  ghost function Place(tails: seq<Point>, level: real, start: nat, end: int): (k: nat)
    requires start <= end + 1 <= |tails|
    ensures start <= k <= end + 1
    decreases end - start
  {
    if end < start then start
    else
      var middle := (end + start) / 2;
      if tails[middle].x < level then Place(tails, level, middle + 1, end)
      else if tails[middle].x > level then Place(tails, level, start, middle - 1)
      else middle
  }

  lemma {:induction false} PlaceByLevel(tails: seq<Point>, level: real, start: nat, end: int)
    requires Ordered(tails) && start <= end + 1 <= |tails|
    ensures var k := Place(tails, level, start, end);
            && (forall i :: start <= i < k ==> tails[i].x <= level) && (forall i :: k <= i <= end ==> level <= tails[i].x)
    decreases end - start
  {
    if start <= end {
      var middle := (end + start) / 2;
      if tails[middle].x < level {
        PlaceByLevel(tails, level, middle + 1, end);
      } else if tails[middle].x > level {
        PlaceByLevel(tails, level, start, middle - 1);
      }
    }
  }

  ghost function WithTail(tails: seq<Point>, t: Point, k: nat): seq<Point>
    requires k <= |tails|
  {
    tails[..k] + [t] + tails[k..]
  }

  lemma WithTailOrdered(tails: seq<Point>, t: Point, k: nat)
    requires Ordered(tails) && k <= |tails|
    requires (forall i :: 0 <= i < k ==> tails[i].x <= t.x) && (forall i :: k <= i < |tails| ==> t.x <= tails[i].x)
    ensures Ordered(WithTail(tails, t, k))
  {
    var more := WithTail(tails, t, k);
    forall i, j | 0 <= i < j < |more| ensures more[i].x <= more[j].x {
      assert i != k ==> more[i] == tails[if i < k then i else i - 1];
      assert j != k ==> more[j] == tails[if j < k then j else j - 1];
    }
  }

  /** A new contour keeps the order exactly if no tail is on the wrong side of its own: among those that the place for the
      level puts to its left none is further right, and the other way round. */
  lemma InsertedInOrder(tails: seq<Point>, t: Point, level: real)
    requires Ordered(tails)
    ensures var k := Place(tails, level, 0, |tails| - 1);
            && (forall i :: 0 <= i < k ==> tails[i].x <= level) && (forall i :: k <= i < |tails| ==> level <= tails[i].x)
            && (Ordered(WithTail(tails, t, k)) <==>
                (forall i :: 0 <= i < k ==> tails[i].x <= t.x) && (forall i :: k <= i < |tails| ==> t.x <= tails[i].x))
  {
    hide Place;
    PlaceByLevel(tails, level, 0, |tails| - 1);
    var k := Place(tails, level, 0, |tails| - 1);
    var more := WithTail(tails, t, k);
    if Ordered(more) {
      forall i | 0 <= i < k ensures tails[i].x <= t.x {
        assert more[i] == tails[i] && more[k] == t;
      }
      forall i | k <= i < |tails| ensures t.x <= tails[i].x {
        assert more[i+1] == tails[i] && more[k] == t;
      }
    } else if (forall i :: 0 <= i < k ==> tails[i].x <= t.x) && (forall i :: k <= i < |tails| ==> t.x <= tails[i].x) {
      WithTailOrdered(tails, t, k);
    }
  }

  /** So the order is lost when a new contour's tail is left of an old one that is left of the level's number. */
  lemma InsertCanDisorder()
    ensures var tails, t := [Point(5.0, 0.0)], Point(1.0, 0.0);
            Ordered(tails) && !Ordered(WithTail(tails, t, Place(tails, 10.0, 0, 0)))
  {
    InsertedInOrder([Point(5.0, 0.0)], Point(1.0, 0.0), 10.0);
  }

  /** One step of moving a tail to the left, or to the right. */
  lemma SwappedOrder(tails: seq<Point>, k: nat)
    requires k + 1 < |tails|
    ensures var next := tails[k := tails[k+1]][k+1 := tails[k]];
            (OrderedBut(tails, k + 1) ==> OrderedBut(next, k)) && (OrderedBut(tails, k) ==> OrderedBut(next, k + 1))
  {
  }

  lemma OthersInOrder(was: seq<Point>, now: seq<Point>, k: nat)
    requires |now| == |was| && Ordered(was) && forall i :: 0 <= i < |was| && i != k ==> now[i] == was[i]
    ensures OrderedBut(now, k)
  {
  }

  lemma TailsSwapped(values: seq<Contour>, k: nat)
    requires k + 1 < |values|
    ensures var tails := Tails(values); Tails(values[k := values[k+1]][k+1 := values[k]]) == tails[k := tails[k+1]][k+1 := tails[k]]
  {
  }

  lemma BetweenNeighbours(tails: seq<Point>, k: nat)
    requires k < |tails| && (k > 0 ==> tails[k-1].x <= tails[k].x) && (k + 1 < |tails| ==> tails[k].x <= tails[k+1].x)
    ensures OrderedBut(tails, k) ==> Ordered(tails)
  {
  }

  class ContourLevel {
    const level: real
    var entries: seq<ContourItem>

    ghost predicate Valid()
      reads this, entries
    {
      Distinct(entries) && AllValid(entries, level)
    }

    ghost function Contents(t: Stretch): nat
      reads this, entries
    {
      TimesAll(Values(entries), t)
    }

    constructor (level: real)
      ensures this.level == level && entries == [] && Valid()
    {
      this.level, entries := level, [];
    }

    /** The same entries in some order. */
    ghost predicate Reordered(was: seq<ContourItem>)
      reads this
    {
      Distinct(entries) && |entries| == |was| && multiset(entries) == multiset(was)
    }

    /** Swaps two neighbours. */
    method Swap(k: nat)
      requires Valid() && k + 1 < |entries|
      modifies this`entries
      ensures Valid() && Reordered(old(entries)) && forall t :: Contents(t) == old(Contents(t))
      ensures entries == old(entries)[k := old(entries)[k+1]][k+1 := old(entries)[k]]
    {
      hide Sound;
      ghost var values := Values(entries);
      entries := entries[k := entries[k+1]][k+1 := entries[k]];
      TimesSwap(values, k, Values(entries));
    }

    /** The tails of the entries. */
    ghost function Order(): (r: seq<Point>)
      reads this, entries
      ensures |r| == |entries|
    {
      Tails(Values(entries))
    }

    lemma TailOf(i: nat)
      requires Valid() && i < |entries|
      ensures |entries[i].points| > 0 && Order()[i] == entries[i].points[|entries[i].points|-1] && Order()[i].x == entries[i].tailX
    {
      hide Distinct;
      assert entries[i].Valid();
    }

    /** Entry i is the only one out of order, if any is. */
    ghost predicate Astray(i: nat)
      reads this, entries
    {
      OrderedBut(Order(), i)
    }

    method SwapDown(i: nat)
      requires Valid() && 0 < i < |entries| && entries[i].tailX < entries[i-1].tailX
      modifies this`entries
      ensures Valid() && Reordered(old(entries)) && forall t :: Contents(t) == old(Contents(t))
      ensures old(Astray(i)) ==> Astray(i - 1)
      ensures Order()[i-1].x < Order()[i].x
    {
      hide Ordered, OrderedBut, Distinct, Sound;
      TailOf(i);
      TailOf(i - 1);
      SwappedOrder(Order(), i - 1);
      ghost var values := Values(entries);
      TailsSwapped(values, i - 1);
      Swap(i - 1);
      assert Values(entries) == values[i-1 := values[i]][i := values[i-1]];
    }

    method SwapUp(i: nat)
      requires Valid() && i + 1 < |entries| && entries[i].tailX > entries[i+1].tailX
      modifies this`entries
      ensures Valid() && Reordered(old(entries)) && forall t :: Contents(t) == old(Contents(t))
      ensures old(Astray(i)) ==> Astray(i + 1)
      ensures Order()[i].x < Order()[i+1].x
    {
      hide Ordered, OrderedBut, Distinct, Sound;
      TailOf(i);
      TailOf(i + 1);
      SwappedOrder(Order(), i);
      ghost var values := Values(entries);
      TailsSwapped(values, i);
      Swap(i);
      assert Values(entries) == values[i := values[i+1]][i+1 := values[i]];
    }

    /** Moves an entry whose tail may have changed to where it belongs; nothing is lost or added, and if the others are in
        order then all are. */
    method AdjustContour(changed: nat)
      requires Valid() && changed < |entries|
      modifies this`entries
      ensures Valid() && Reordered(old(entries)) && forall t :: Contents(t) == old(Contents(t))
      ensures old(Astray(changed)) ==> Ordered(Order())
    {
      hide Distinct, AllValid, Sound, Ordered, OrderedBut, ContourLevel.Contents, ContourLevel.Order, Tails;
      ghost var astray := Astray(changed);
      var i := changed;
      while i > 0 && entries[i].tailX < entries[i-1].tailX
        invariant 0 <= i < |entries|
        invariant Valid() && Reordered(old(entries)) && forall t :: Contents(t) == old(Contents(t))
        invariant astray ==> Astray(i)
        invariant i == changed || (i + 1 < |entries| && Order()[i].x < Order()[i+1].x)
      {
        SwapDown(i);
        i := i - 1;
      }
      if i > 0 {
        TailOf(i);
        TailOf(i - 1);
      }
      while i < |entries| - 1 && entries[i].tailX > entries[i+1].tailX
        invariant 0 <= i < |entries|
        invariant Valid() && Reordered(old(entries)) && forall t :: Contents(t) == old(Contents(t))
        invariant astray ==> Astray(i)
        invariant i > 0 ==> Order()[i-1].x <= Order()[i].x
        decreases |old(entries)| - i
      {
        SwapUp(i);
        i := i + 1;
      }
      TailOf(i);
      if i + 1 < |entries| { TailOf(i + 1); }
      BetweenNeighbours(Order(), i);
    }

    method RemoveContour(target: nat) returns (ghost removed: seq<Segment>)
      requires Valid() && target < |entries|
      modifies this`entries
      ensures Valid() && EntryGone(old(entries), target, entries)
      ensures removed == old(entries[target].segs) && forall t :: old(Contents(t)) == Contents(t) + Times(removed, t)
    {
      removed := entries[target].segs;
      var rest := entries[..target] + entries[target+1..];
      EntriesWithout(entries, target, rest, level);
      SetEntries(rest);
    }

    method SetEntries(rest: seq<ContourItem>)
      requires Distinct(rest) && AllValid(rest, level)
      modifies this`entries
      ensures Valid() && entries == rest && Values(entries) == old(Values(rest))
    {
      entries := rest;
    }

    /** The binary search for a tail, as far as it goes: an entry whose tail is within JOIN_DIST of a point, or -1. */
    method FindContour(x: real, y: real) returns (k: int)
      requires Valid()
      ensures -1 <= k < |entries| && k == TailAt(Order(), Point(x, y))
      ensures k >= 0 ==> Near(entries[k].points[|entries[k].points|-1], Point(x, y))
    {
      hide Distinct, AllValid, Sound, Tails, FirstNear, TailAt, Gap, Near;
      ghost var tails, p := Order(), Point(x, y);
      var start, end := 0, |entries| - 1;
      while end >= start
        invariant 0 <= start && end < |entries| && HitAt(tails, x, start, end) == HitAt(tails, x, 0, |tails| - 1)
        decreases end - start
      {
        var middle := (end + start) / 2;
        TailOf(middle);
        var middleX := entries[middle].tailX;
        if middleX < x {
          start := middle + 1;
        } else if middleX > x {
          end := middle - 1;
        } else {
          k := NearFrom(middle, x, y);
          return;
        }
      }
      NoHit(tails, p);
      return -1;
    }

    /** From a tail of the column: back while columns are within JOIN_DIST, then forward to the first that is near. */
    method NearFrom(hit: nat, x: real, y: real) returns (k: int)
      requires Valid() && hit < |entries| && hit == HitAt(Order(), x, 0, |Order()| - 1)
      ensures -1 <= k < |entries| && k == TailAt(Order(), Point(x, y))
      ensures k >= 0 ==> Near(entries[k].points[|entries[k].points|-1], Point(x, y))
    {
      hide Distinct, AllValid, Sound, FirstNear, TailAt, HitAt, Near, ContourLevel.Order;
      var first := BackFrom(hit, x);
      k := ForwardFrom(first, x, y);
      FoundFrom(Order(), Point(x, y), hit, first);
    }

    method BackFrom(hit: nat, x: real) returns (first: nat)
      requires Valid() && hit < |entries| && Gap(Order()[hit].x, x) < JOIN_DIST
      ensures first <= hit && (first > 0 ==> Gap(Order()[first].x, x) >= JOIN_DIST)
      ensures forall i :: first < i <= hit ==> Gap(Order()[i].x, x) < JOIN_DIST
    {
      hide Distinct, AllValid, Sound, Tails, Gap;
      ghost var tails := Order();
      first := hit;
      while first > 0 && Gap(entries[first].tailX, x) < JOIN_DIST
        invariant first <= hit && forall i :: first < i <= hit ==> Gap(tails[i].x, x) < JOIN_DIST
      {
        TailOf(first);
        first := first - 1;
      }
      TailOf(first);
    }

    method ForwardFrom(first: nat, x: real, y: real) returns (k: int)
      requires Valid() && first < |entries|
      ensures -1 <= k < |entries| && k == FirstNear(Order(), Point(x, y), first)
      ensures k >= 0 ==> Near(entries[k].points[|entries[k].points|-1], Point(x, y))
    {
      hide Distinct, AllValid, Sound, Tails, Gap;
      ghost var tails, p := Order(), Point(x, y);
      k := first;
      while k < |entries| && Gap(entries[k].tailX, x) < JOIN_DIST
        invariant first <= k <= |entries| && FirstNear(tails, p, k) == FirstNear(tails, p, first)
        decreases |entries| - k
      {
        TailOf(k);
        if Gap(entries[k].points[|entries[k].points|-1].y, y) < JOIN_DIST {
          return;
        }
        k := k + 1;
      }
      if k < |entries| { TailOf(k); }
      k := -1;
    }

    /** The place of a new contour; tails are compared with its level, as they are in the source. */
    method InsertPlace(item: ContourItem) returns (k: nat)
      requires Valid()
      ensures k == Place(Order(), item.level, 0, |entries| - 1)
    {
      hide Distinct, AllValid, Sound, ContourLevel.Order;
      ghost var tails := Order();
      var start, end := 0, |entries| - 1;
      while end >= start
        invariant 0 <= start <= end + 1 <= |entries|
        invariant Place(tails, item.level, start, end) == Place(tails, item.level, 0, |tails| - 1)
        decreases end - start
      {
        var middle := (end + start) / 2;
        TailOf(middle);
        var middleX := entries[middle].tailX;
        if middleX < item.level {
          start := middle + 1;
        } else if middleX > item.level {
          end := middle - 1;
        } else {
          end := middle - 1;
          break;
        }
      }
      k := end + 1;
    }

    method InsertContour(item: ContourItem) returns (k: nat)
      requires Valid() && item.Valid() && item.level == level && item !in entries
      modifies this`entries
      ensures Valid() && forall t :: Contents(t) == old(Contents(t)) + Times(item.segs, t)
      ensures k < |entries| && EntryGone(entries, k, old(entries)) && entries[k] == item
      ensures k == old(Place(Order(), level, 0, |entries| - 1))
    {
      hide Sound, Place, Tails, Times;
      ghost var was, before := entries, Values(entries);
      k := InsertPlace(item);
      InsertedDistinct(entries, k, item);
      entries := entries[..k] + [item] + entries[k..];
      assert Values(was) == before;
      EntriesWithout(entries, k, was, level);
      assert entries[k] == item;
      assert forall t :: TimesAll(Values(entries), t) == TimesAll(before, t) + Times(item.segs, t);
    }

    /** Forgets which entries were touched. */
    method ClearAccessed()
      requires Valid()
      modifies entries
      ensures Valid() && Values(entries) == old(Values(entries)) && Accessed(entries) == {}
    {
      hide Sound, Near, Distinct;
      ghost var values := Values(entries);
      for i := 0 to |entries|
        invariant AllValid(entries, level) && Values(entries) == values
        invariant forall j :: 0 <= j < i ==> !entries[j].recentlyAccessed
      {
        entries[i].ClearAccessed();
      }
    }

    lemma DistinctEntries()
      requires Valid()
      ensures forall i, j :: 0 <= i < |entries| && 0 <= j < |entries| && i != j ==> entries[i] != entries[j]
    {
      hide AllValid, Sound;
    }

    /** Adds a segment: to the contour found at the end of smaller y, which always takes it, or else as a new contour. */
    method Attach(a: Point, b: Point)
      requires Valid()
      modifies this`entries, entries
      ensures Valid() && forall i :: 0 <= i < |entries| ==> entries[i] in old(entries) || fresh(entries[i])
      ensures var k := old(TailAt(Order(), if a.y < b.y then a else b));
              if k == -1 then |entries| == old(|entries|) + 1 && forall i :: 0 <= i < old(|entries|) ==> unchanged(old(entries)[i])
              else |entries| == old(|entries|) && (old(Ordered(Order())) ==> Ordered(Order()))
                   && forall i :: 0 <= i < old(|entries|) && i != k ==> unchanged(old(entries)[i])
      ensures forall t :: Contents(t) == old(Contents(t)) + Occurs(Segment(level, a, b), t)
    {
      hide *;
      ghost var was := entries;
      DistinctEntries();
      var k;
      if a.y < b.y {
        k := FindContour(a.x, a.y);
      } else {
        k := FindContour(b.x, b.y);
      }
      if k != -1 {
        AttachTo(k, a, b);
      } else {
        AttachNew(a, b);
      }
    }

    method AttachTo(k: nat, a: Point, b: Point)
      requires Valid() && k < |entries|
      requires Near(entries[k].points[|entries[k].points|-1], a) || Near(entries[k].points[|entries[k].points|-1], b)
      modifies this`entries, entries[k]
      ensures Valid() && |entries| == old(|entries|) && forall i :: 0 <= i < |entries| ==> entries[i] in old(entries)
      ensures old(Ordered(Order())) ==> Ordered(Order())
      ensures forall t :: Contents(t) == old(Contents(t)) + Occurs(Segment(level, a, b), t)
    {
      hide Ordered, OrderedBut, ContourLevel.Order;
      ghost var was := entries;
      Extend(k, a, b);
      AdjustContour(k);
      forall i | 0 <= i < |entries| ensures entries[i] in was {
        assert entries[i] in multiset(entries);
      }
    }

    method AttachNew(a: Point, b: Point)
      requires Valid()
      modifies this`entries
      ensures Valid() && |entries| == old(|entries|) + 1 && forall i :: 0 <= i < |entries| ==> entries[i] in old(entries) || fresh(entries[i])
      ensures forall t :: Contents(t) == old(Contents(t)) + Occurs(Segment(level, a, b), t)
    {
      hide Sound, Place;
      var item := NewItem(a, b);
      ghost var was := entries;
      var k := InsertContour(item);
      forall i | 0 <= i < |entries| ensures entries[i] in was || entries[i] == item {
        if i > k { assert entries[i] == was[i-1]; }
      }
    }

    method NewItem(a: Point, b: Point) returns (item: ContourItem)
      ensures fresh(item) && item.Valid() && item.level == level
      ensures forall t :: Times(item.segs, t) == Occurs(Segment(level, a, b), t)
    {
      item := new ContourItem(level);
      var ok := item.AddSegment(a, b);
      assert forall t :: Times([], t) == 0;
    }

    /** A contour that was found takes the segment. */
    method Extend(k: nat, a: Point, b: Point)
      requires Valid() && k < |entries|
      requires Near(entries[k].points[|entries[k].points|-1], a) || Near(entries[k].points[|entries[k].points|-1], b)
      modifies entries[k]
      ensures Valid() && (old(Ordered(Order())) ==> Astray(k))
      ensures forall t :: Contents(t) == old(Contents(t)) + Occurs(Segment(level, a, b), t)
    {
      hide Sound;
      assert entries[k].Valid();
      ghost var values, tails := Values(entries), Order();
      var ok := entries[k].AddSegment(a, b);
      assert ok;
      TimesUpdate(values, k, Values(entries));
      assert OneMore(values[k].segs, Values(entries)[k].segs, Segment(level, a, b));
      if Ordered(tails) { OthersInOrder(tails, Order(), k); }
    }

    /** Tries to merge a contour that was removed into entry k. */
    method MergeAt(k: nat, item: ContourItem) returns (ok: bool)
      requires Valid() && item.Valid() && item.level == level && item !in entries && k < |entries|
      modifies entries[k]
      ensures |entries[k].points| > 0 && |item.points| > 0
      ensures !ok ==> unchanged(entries[k]) && !Meets(entries[k].Value(), item.Value())
      ensures ok ==> Valid() && entries[k].recentlyAccessed && Meets(old(entries[k].Value()), item.Value())
      ensures ok ==> Values(entries) == old(Values(entries))[k := Merged(old(entries[k].Value()), item.Value())]
      ensures ok ==> forall t :: Contents(t) == old(Contents(t)) + Times(item.segs, t)
    {
      hide Near, Sound, Meets, Merged;
      assert entries[k].Valid();
      ghost var values := Values(entries);
      SoundPoints(values[k]);
      SoundPoints(item.Value());
      ok := entries[k].Merge(item);
      if ok {
        MergedSound(values[k], item.Value());
        assert Values(entries) == values[k := Merged(values[k], item.Value())];
        TimesUpdate(values, k, Values(entries));
        assert Together(Values(entries)[k].segs, values[k].segs, item.segs);
      }
    }

    /** Merges a contour that was removed into the first one that meets it. */
    method MergeInto(item: ContourItem) returns (ok: bool, ghost k: nat)
      requires Valid() && item.Valid() && item.level == level && item !in entries
      modifies entries
      ensures Valid()
      ensures forall i :: 0 <= i < |entries| && old(entries[i].recentlyAccessed) ==> entries[i].recentlyAccessed
      ensures old(Accessed(entries)) <= Accessed(entries)
      ensures forall t :: Contents(t) == old(Contents(t)) + (if ok then Times(item.segs, t) else 0)
      ensures ok ==> k < |entries| && Values(entries) == old(Values(entries))[k := Merged(old(entries[k].Value()), item.Value())]
      ensures ok ==> Meets(old(entries[k].Value()), item.Value()) && MeetsNone(old(Values(entries))[..k], item.Value())
      ensures !ok ==> Values(entries) == old(Values(entries)) && MeetsNone(Values(entries), item.Value())
    {
      hide Sound, Meets, Merged, Times, TimesAll, Undirected, Distinct;
      ghost var values, c := Values(entries), item.Value();
      SoundPoints(c);
      for i := 0 to |entries|
        invariant unchanged(entries) && MeetsNone(values[..i], c)
      {
        assert entries[i].Valid();
        SoundPoints(entries[i].Value());
        ok := MergeAt(i, item);
        if ok { return true, i; }
        assert values[..i+1] == values[..i] + [values[i]];
      }
      assert values[..|values|] == values;
      return false, 0;
    }

    /** Takes out all contours, or only those not touched by the last line; what does not merge goes out. */
    method Eject(onlyUnused: bool) returns (lines: seq<Polyline>, ghost out: seq<Contour>)
      requires Valid()
      modifies this`entries, entries
      ensures Valid() && forall i :: 0 <= i < |entries| ==> entries[i] in old(entries) && entries[i].recentlyAccessed
      ensures !onlyUnused ==> entries == []
      ensures Written(lines, out) && forall t :: Contents(t) + TimesAll(out, t) == old(Contents(t))
      ensures Unjoinable(out, Values(entries))
      ensures onlyUnused ==> Among(old(Accessed(entries)), entries)
    {
      hide ContourLevel.Valid, ContourLevel.Contents;
      lines, out := [], [];
      ghost var touched := Accessed(entries);
      var i := 0;
      while i < |entries|
        invariant 0 <= i <= |entries| && Valid() && forall j :: 0 <= j < |entries| ==> entries[j] in old(entries)
        invariant (!onlyUnused ==> i == 0) && forall j :: 0 <= j < i ==> entries[j].recentlyAccessed
        invariant Written(lines, out) && forall t :: Contents(t) + TimesAll(out, t) == old(Contents(t))
        invariant Unjoinable(out, Values(entries))
        invariant onlyUnused ==> touched <= Accessed(entries)
        decreases |entries| - i
      {
        if onlyUnused && entries[i].recentlyAccessed {
          i := i + 1;
        } else {
          lines, out := EjectOne(i, lines, out);
        }
      }
    }

    method EjectOne(i: nat, lines: seq<Polyline>, ghost out: seq<Contour>) returns (lines': seq<Polyline>, ghost out': seq<Contour>)
      requires Valid() && i < |entries| && Written(lines, out)
      modifies this`entries, entries
      ensures Valid() && |entries| == |old(entries)| - 1
      ensures forall j :: 0 <= j < |entries| ==> entries[j] in old(entries)
      ensures (forall j :: 0 <= j < i ==> old(entries[j].recentlyAccessed)) ==> forall j :: 0 <= j < i ==> entries[j].recentlyAccessed
      ensures Written(lines', out') && forall t :: Contents(t) + TimesAll(out', t) == old(Contents(t)) + TimesAll(out, t)
      ensures Unjoinable(out, old(Values(entries))) ==> Unjoinable(out', Values(entries))
      ensures old(Accessed(entries)) - {old(entries[i])} <= Accessed(entries)
    {
      hide Sound, Unjoinable;
      ghost var values := Values(entries);
      var item := entries[i];
      ghost var segs := RemoveContour(i);
      assert Without(values, i, Values(entries));
      RestAccessed(old(entries), i, entries);
      lines', out' := MergeOrWrite(item, lines, out, values, i);
    }

    /** Merges a contour that was removed into another one, or hands it out. */
    method MergeOrWrite(item: ContourItem, lines: seq<Polyline>, ghost out: seq<Contour>, ghost values: seq<Contour>, ghost i: nat)
      returns (lines': seq<Polyline>, ghost out': seq<Contour>)
      requires Valid() && item.Valid() && item.level == level && item !in entries && Written(lines, out)
      requires Without(values, i, Values(entries)) && values[i] == item.Value()
      modifies entries
      ensures Valid() && old(Accessed(entries)) <= Accessed(entries)
      ensures forall j :: 0 <= j < |entries| && old(entries[j].recentlyAccessed) ==> entries[j].recentlyAccessed
      ensures Written(lines', out')
      ensures forall t :: Contents(t) + TimesAll(out', t) == old(Contents(t)) + Times(item.segs, t) + TimesAll(out, t)
      ensures Unjoinable(out, values) ==> Unjoinable(out', Values(entries))
    {
      hide Sound, Meets, Merged, Accessed, Times;
      ghost var rest := Values(entries);
      var ok;
      ghost var k;
      ok, k := MergeInto(item);
      if ok {
        if Unjoinable(out, values) { MergingUnjoinable(out, values, i, rest, k); }
        return lines, out;
      }
      if Unjoinable(out, values) { WritingUnjoinable(out, values, i, rest); }
      OneMoreWritten(lines, out, item.Value());
      return lines + [Polyline(item.level, item.points)], out + [item.Value()];
    }
  }

  /** The lines that were written are those of sound contours. */
  ghost predicate Written(lines: seq<Polyline>, out: seq<Contour>) {
    |lines| == |out| && forall i :: 0 <= i < |out| ==> lines[i] == out[i].line && Sound(out[i])
  }

  lemma MoreWritten(lines: seq<Polyline>, out: seq<Contour>, lines': seq<Polyline>, out': seq<Contour>)
    requires Written(lines, out) && Written(lines', out')
    ensures Written(lines + lines', out + out')
    ensures forall t :: TimesAll(out + out', t) == TimesAll(out, t) + TimesAll(out', t)
  {
    TimesAllConcat(out, out');
  }

  lemma OneMoreWritten(lines: seq<Polyline>, out: seq<Contour>, c: Contour)
    requires Written(lines, out) && Sound(c)
    ensures Written(lines + [c.line], out + [c])
    ensures forall t :: TimesAll(out + [c], t) == TimesAll(out, t) + Times(c.segs, t)
  {
    TimesWithout(out + [c], |out|, out);
  }

  // ---------------------------------------------------------------------
  //  The generator
  // ---------------------------------------------------------------------

  /** How often a stretch is in the first n levels. */
  ghost function StockTimes(stock: seq<seq<Contour>>, n: nat, t: Stretch): nat
    requires n <= |stock|
  {
    if n == 0 then 0 else StockTimes(stock, n - 1, t) + TimesAll(stock[n-1], t)
  }

  lemma {:induction false} StockSame(a: seq<seq<Contour>>, b: seq<seq<Contour>>, n: nat, t: Stretch)
    requires n <= |a| && n <= |b| && forall i :: 0 <= i < n ==> a[i] == b[i]
    ensures StockTimes(a, n, t) == StockTimes(b, n, t)
  {
    if n > 0 { StockSame(a, b, n - 1, t); }
  }

  lemma {:induction false} StockUpdate(a: seq<seq<Contour>>, b: seq<seq<Contour>>, k: nat, n: nat, t: Stretch)
    requires k < n <= |a| == |b| && forall i :: 0 <= i < |a| && i != k ==> a[i] == b[i]
    ensures StockTimes(b, n, t) - TimesAll(b[k], t) == StockTimes(a, n, t) - TimesAll(a[k], t)
  {
    if n == k + 1 { StockSame(a, b, k, t); } else { StockUpdate(a, b, k, n - 1, t); }
  }

  ghost predicate Grown(before: seq<Contour>, after: seq<Contour>, s: Segment) {
    forall t :: TimesAll(after, t) == TimesAll(before, t) + Occurs(s, t)
  }

  lemma StockGrows(a: seq<seq<Contour>>, b: seq<seq<Contour>>, k: nat, s: Segment)
    requires k < |a| == |b| && forall i :: 0 <= i < |a| && i != k ==> a[i] == b[i]
    requires Grown(a[k], b[k], s)
    ensures forall t :: StockAll(b, t) == StockAll(a, t) + Occurs(s, t)
  {
    forall t ensures StockAll(b, t) == StockAll(a, t) + Occurs(s, t) {
      StockUpdate(a, b, k, |a|, t);
    }
  }

  ghost predicate Shrunk(before: seq<Contour>, after: seq<Contour>, gone: seq<Contour>) {
    forall t :: TimesAll(after, t) + TimesAll(gone, t) == TimesAll(before, t)
  }

  lemma StockShrinks(a: seq<seq<Contour>>, b: seq<seq<Contour>>, k: nat, gone: seq<Contour>)
    requires k < |a| == |b| && forall i :: 0 <= i < |a| && i != k ==> a[i] == b[i]
    requires Shrunk(a[k], b[k], gone)
    ensures forall t :: StockAll(b, t) + TimesAll(gone, t) == StockAll(a, t)
  {
    forall t ensures StockAll(b, t) + TimesAll(gone, t) == StockAll(a, t) {
      StockUpdate(a, b, k, |a|, t);
    }
  }

  lemma {:induction false} TimesInConcat(a: seq<Contour>, b: seq<Contour>, n: nat, t: Stretch)
    requires n <= |b|
    ensures TimesIn(a + b, |a| + n, t) == TimesIn(a, |a|, t) + TimesIn(b, n, t)
  {
    hide Times;
    if n == 0 { TimesInSame(a + b, a, |a|, t); } else { TimesInConcat(a, b, n - 1, t); }
  }

  lemma TimesAllConcat(a: seq<Contour>, b: seq<Contour>)
    ensures forall t :: TimesAll(a + b, t) == TimesAll(a, t) + TimesAll(b, t)
  {
    forall t ensures TimesAll(a + b, t) == TimesAll(a, t) + TimesAll(b, t) {
      TimesInConcat(a, b, |b|, t);
    }
  }

  /** A new level that holds nothing. */
  predicate LevelInserted(a: seq<seq<Contour>>, k: nat, b: seq<seq<Contour>>) {
    && k < |b| == |a| + 1 && b[k] == []
    && (forall i :: 0 <= i < k ==> a[i] == b[i])
    && (forall i :: k <= i < |a| ==> a[i] == b[i+1])
  }

  lemma {:induction false} StockInsert(a: seq<seq<Contour>>, k: nat, b: seq<seq<Contour>>, n: nat, t: Stretch)
    requires LevelInserted(a, k, b) && k < n <= |b|
    ensures StockTimes(b, n, t) == StockTimes(a, n - 1, t)
  {
    if n == k + 1 { StockSame(a, b, k, t); } else { StockInsert(a, k, b, n - 1, t); }
  }

  ghost function StockAll(stock: seq<seq<Contour>>, t: Stretch): nat {
    StockTimes(stock, |stock|, t)
  }

  /** Levels in ascending order. */
  ghost predicate Ascending(levels: seq<ContourLevel>) {
    forall i, j :: 0 <= i < j < |levels| ==> levels[i].level < levels[j].level
  }

  ghost function EntriesOf(levels: seq<ContourLevel>): (r: seq<seq<ContourItem>>)
    reads levels
    ensures |r| == |levels| && forall i :: 0 <= i < |levels| ==> r[i] == levels[i].entries
  {
    seq(|levels|, i requires 0 <= i < |levels| reads levels => levels[i].entries)
  }

  /** The levels and their entries are among some objects, and no two levels share an entry. */
  ghost predicate Separate(levels: seq<ContourLevel>, entries: seq<seq<ContourItem>>, repr: set<object>) {
    && (forall i :: 0 <= i < |levels| ==> levels[i] in repr)
    && (forall i, a :: 0 <= i < |entries| && 0 <= a < |entries[i]| ==> entries[i][a] in repr)
    && (forall i, j, a, b :: 0 <= i < j < |entries| && 0 <= a < |entries[i]| && 0 <= b < |entries[j]| ==> entries[i][a] != entries[j][b])
  }

  ghost predicate LevelsGood(levels: seq<ContourLevel>, repr: set<object>)
    reads levels, repr
  {
    Ascending(levels) && Separate(levels, EntriesOf(levels), repr) && forall i :: 0 <= i < |levels| ==> levels[i].Valid()
  }

  /** What each level holds. */
  ghost function Stock(levels: seq<ContourLevel>, repr: set<object>): (r: seq<seq<Contour>>)
    requires LevelsGood(levels, repr)
    reads levels, repr
    ensures |r| == |levels| && forall i :: 0 <= i < |levels| ==> r[i] == Values(levels[i].entries)
  {
    seq(|levels|, i requires 0 <= i < |levels| && LevelsGood(levels, repr) reads levels, repr => Values(levels[i].entries))
  }

  /** What the last line touched in each level. */
  ghost function AccessedOf(levels: seq<ContourLevel>, repr: set<object>): (r: seq<set<ContourItem>>)
    requires LevelsGood(levels, repr)
    reads levels, repr
    ensures |r| == |levels| && forall i :: 0 <= i < |levels| ==> r[i] == Accessed(levels[i].entries)
  {
    seq(|levels|, i requires 0 <= i < |levels| && LevelsGood(levels, repr) reads levels, repr => Accessed(levels[i].entries))
  }

  predicate LevelAdded(levels: seq<ContourLevel>, k: nat, more: seq<ContourLevel>) {
    && k < |more| == |levels| + 1
    && (forall i :: 0 <= i < k ==> more[i] == levels[i])
    && (forall i :: k < i < |more| ==> more[i] == levels[i-1])
  }

  lemma AddedSeparate(levels: seq<ContourLevel>, entries: seq<seq<ContourItem>>, repr: set<object>, k: nat,
                      more: seq<ContourLevel>, entries': seq<seq<ContourItem>>)
    requires Separate(levels, entries, repr) && LevelAdded(levels, k, more) && |entries| == |levels| && |entries'| == |more|
    requires entries'[k] == [] && forall i :: 0 <= i < |more| && i != k ==> entries'[i] == entries[if i < k then i else i - 1]
    ensures Separate(more, entries', repr + {more[k]})
  {
  }

  lemma AddedAscending(levels: seq<ContourLevel>, k: nat, more: seq<ContourLevel>)
    requires Ascending(levels) && LevelAdded(levels, k, more)
    requires forall i :: 0 <= i < k ==> levels[i].level < more[k].level
    requires forall i :: k <= i < |levels| ==> levels[i].level > more[k].level
    ensures Ascending(more)
  {
  }

  lemma AddedGood(levels: seq<ContourLevel>, repr: set<object>, k: nat, more: seq<ContourLevel>)
    requires LevelsGood(levels, repr) && LevelAdded(levels, k, more) && more[k].entries == []
    requires Ascending(more)
    ensures LevelsGood(more, repr + {more[k]})
  {
    hide Ascending;
    AddedSeparate(levels, EntriesOf(levels), repr, k, more, EntriesOf(more));
    forall i | 0 <= i < |more| ensures more[i].Valid() {
      if i != k { assert levels[if i < k then i else i - 1].Valid(); }
    }
  }

  /** A level without entries, put where it belongs, changes nothing. */
  lemma LevelAddedGood(levels: seq<ContourLevel>, repr: set<object>, k: nat, more: seq<ContourLevel>)
    requires LevelsGood(levels, repr) && LevelAdded(levels, k, more) && more[k].entries == [] && more[k] !in repr
    requires forall i :: 0 <= i < k ==> levels[i].level < more[k].level
    requires forall i :: k <= i < |levels| ==> levels[i].level > more[k].level
    ensures LevelsGood(more, repr + {more[k]})
    ensures forall t :: StockAll(Stock(more, repr + {more[k]}), t) == StockAll(Stock(levels, repr), t)
  {
    AddedAscending(levels, k, more);
    AddedGood(levels, repr, k, more);
    AddedStock(levels, repr, k, more);
  }

  lemma AddedStock(levels: seq<ContourLevel>, repr: set<object>, k: nat, more: seq<ContourLevel>)
    requires LevelsGood(levels, repr) && LevelAdded(levels, k, more) && more[k].entries == []
    requires LevelsGood(more, repr + {more[k]})
    ensures forall t :: StockAll(Stock(more, repr + {more[k]}), t) == StockAll(Stock(levels, repr), t)
  {
    hide Ascending, Separate, LevelsGood;
    var a, b := Stock(levels, repr), Stock(more, repr + {more[k]});
    assert Values(more[k].entries) == [];
    assert LevelInserted(a, k, b);
    forall t ensures StockAll(b, t) == StockAll(a, t) {
      StockInsert(a, k, b, |more|, t);
    }
  }

  ghost function ItemSet(entries: seq<ContourItem>): (r: set<object>)
    ensures forall i :: 0 <= i < |entries| ==> entries[i] in r
    ensures forall o :: o in r ==> exists i :: 0 <= i < |entries| && entries[i] == o
  {
    set i | 0 <= i < |entries| :: entries[i]
  }

  /** All levels but level k are as given. */
  ghost predicate OthersAre(levels: seq<ContourLevel>, repr: set<object>, k: nat, entries: seq<seq<ContourItem>>, stock: seq<seq<Contour>>)
    reads levels, repr
  {
    && |entries| == |stock| == |levels|
    && forall i {:trigger levels[i]} :: 0 <= i < |levels| && i != k
         ==> && levels[i].entries == entries[i]
             && (forall a :: 0 <= a < |entries[i]| ==> entries[i][a] in repr)
             && levels[i].Valid() && Values(levels[i].entries) == stock[i]
  }

  lemma StillGood(levels: seq<ContourLevel>, entries: seq<seq<ContourItem>>, repr: set<object>, k: nat, stock: seq<seq<Contour>>)
    requires Ascending(levels) && Separate(levels, entries, repr) && k < |levels| && levels[k].Valid()
    requires OthersAre(levels, repr, k, entries, stock)
    requires forall a :: 0 <= a < |levels[k].entries| ==> levels[k].entries[a] in entries[k] || levels[k].entries[a] !in repr
    ensures LevelsGood(levels, repr + ItemSet(levels[k].entries))
    ensures forall i :: 0 <= i < |levels| && i != k ==> Stock(levels, repr + ItemSet(levels[k].entries))[i] == stock[i]
  {
  }

  // ---------------------------------------------------------------------
  //  The cells of a line
  // ---------------------------------------------------------------------

  datatype Setup = Setup(width: nat, height: nat, interval: real, offset: real, noDataActive: bool, noDataValue: real) {
    predicate Valid() {
      width > 0 && interval > 0.0
    }

    predicate NoData(v: real) {
      v == noDataValue
    }
  }

  function Half(a: int, b: real): real {
    a as real + b
  }

  function CornerAt(v: real, x: real, y: real): Corner {
    Corner(v, Point(x, y))
  }

  /** The mean of two values; a nodata value gives way to the other one. */
  function Mean(g: Setup, a: real, b: real): real {
    if g.NoData(a) then b else if g.NoData(b) then a else (a + b) / 2.0
  }

  function Worth(g: Setup, v: real): real { if g.NoData(v) then 0.0 else v }

  function Good(g: Setup, v: real): nat { if g.NoData(v) then 0 else 1 }

  /** The quadrants of a cell at the border or with nodata corners, those of nodata corners left out. */
  function Quadrants(g: Setup, i: nat, line: int, ul: real, ll: real, lr: real, ur: real): seq<Rect> {
    var count := Good(g, ul) + Good(g, ll) + Good(g, lr) + Good(g, ur);
    if count == 0 then []
    else
      var centre := (Worth(g, ul) + Worth(g, ll) + Worth(g, lr) + Worth(g, ur)) / count as real;
      var top, left, right, bottom := Mean(g, ul, ur), Mean(g, ul, ll), Mean(g, lr, ur), Mean(g, lr, ll);
      var x0, x, x1, y0, y, y1 := Half(i, -0.5), i as real, Half(i, 0.5), Half(line, -0.5), line as real, Half(line, 0.5);
      (if !g.NoData(ul) && i > 0 && line > 0
       then [Rect(CornerAt(ul, x0, y0), CornerAt(left, x0, y), CornerAt(centre, x, y), CornerAt(top, x, y0))] else [])
      + (if !g.NoData(ll) && i > 0 && line < g.height
         then [Rect(CornerAt(left, x0, y), CornerAt(ll, x0, y1), CornerAt(bottom, x, y1), CornerAt(centre, x, y))] else [])
      + (if !g.NoData(lr) && i < g.width && line < g.height
         then [Rect(CornerAt(centre, x, y), CornerAt(bottom, x, y1), CornerAt(lr, x1, y1), CornerAt(right, x1, y))] else [])
      + (if !g.NoData(ur) && i < g.width && line > 0
         then [Rect(CornerAt(top, x, y0), CornerAt(centre, x, y), CornerAt(right, x1, y), CornerAt(ur, x1, y0))] else [])
  }

  /** The rectangles that a pixel has processed. */
  function PixelRects(g: Setup, last: seq<real>, curr: seq<real>, line: int, i: nat): seq<Rect>
    requires g.width > 0 && |last| == |curr| == g.width && i <= g.width
  {
    var ul, ur := last[Greater(0, i - 1)], last[Lesser(g.width - 1, i)];
    var ll, lr := curr[Greater(0, i - 1)], curr[Lesser(g.width - 1, i)];
    var subdivide := g.noDataActive && (g.NoData(ul) || g.NoData(ll) || g.NoData(lr) || g.NoData(ur));
    if 0 < i < g.width && 0 < line < g.height && !subdivide then
      [Rect(CornerAt(ul, Half(i, -0.5), Half(line, -0.5)), CornerAt(ll, Half(i, -0.5), Half(line, 0.5)),
            CornerAt(lr, Half(i, 0.5), Half(line, 0.5)), CornerAt(ur, Half(i, 0.5), Half(line, -0.5)))]
    else Quadrants(g, i, line, ul, ll, lr, ur)
  }

  /** The segments of each of some rectangles. */
  function RectParts(g: Setup, rects: seq<Rect>): (r: seq<seq<Segment>>)
    requires g.Valid()
    ensures |r| == |rects| && forall k :: 0 <= k < |rects| ==> r[k] == CellSegments(rects[k], g.interval, g.offset)
  {
    seq(|rects|, k requires 0 <= k < |rects| => CellSegments(rects[k], g.interval, g.offset))
  }

  /** The segments of a pixel. */
  function PixelAdded(g: Setup, last: seq<real>, curr: seq<real>, line: int, i: nat): seq<Segment>
    requires g.Valid() && |last| == |curr| == g.width && i <= g.width
  {
    var rects := PixelRects(g, last, curr, line, i);
    Joined(RectParts(g, rects), |rects|)
  }

  /** The segments of each pixel of a line. */
  function PixelParts(g: Setup, last: seq<real>, curr: seq<real>, line: int): (r: seq<seq<Segment>>)
    requires g.Valid() && |last| == |curr| == g.width
    ensures |r| == g.width + 1 && forall i :: 0 <= i <= g.width ==> r[i] == PixelAdded(g, last, curr, line, i)
  {
    seq(g.width + 1, i requires 0 <= i <= g.width => PixelAdded(g, last, curr, line, i))
  }

  /** The segments of a line. */
  function LineAdded(g: Setup, last: seq<real>, curr: seq<real>, line: int): seq<Segment>
    requires g.Valid() && |last| == |curr| == g.width
  {
    Joined(PixelParts(g, last, curr, line), g.width + 1)
  }

  /** Collects the segments of a line, pixel by pixel. */
  method ProcessPixels(g: Setup, last: seq<real>, curr: seq<real>, line: int) returns (segs: seq<Segment>)
    requires g.Valid() && |last| == |curr| == g.width
    ensures segs == LineAdded(g, last, curr, line)
  {
    hide PixelAdded, PixelParts;
    segs := [];
    ghost var parts := PixelParts(g, last, curr, line);
    for i := 0 to g.width + 1
      invariant segs == Joined(parts, i)
    {
      var more := ProcessPixel(g, last, curr, line, i);
      segs := segs + more;
    }
  }

  /** Collects the segments of a pixel, rectangle by rectangle. */
  method ProcessPixel(g: Setup, last: seq<real>, curr: seq<real>, line: int, i: nat) returns (segs: seq<Segment>)
    requires g.Valid() && |last| == |curr| == g.width && i <= g.width
    ensures segs == PixelAdded(g, last, curr, line, i)
  {
    hide PixelRects, CellSegments;
    segs := [];
    var rects := PixelRects(g, last, curr, line, i);
    for k := 0 to |rects|
      invariant segs == Joined(RectParts(g, rects), k)
    {
      var more := ProcessRect(rects[k], g.interval, g.offset);
      segs := segs + more;
    }
  }

  function Fudged(g: Setup, v: real): real
    requires g.interval > 0.0
  {
    if g.noDataActive && g.NoData(v) then v else Perturbed(v, g.interval, g.offset)
  }

  function FudgedLine(g: Setup, line: seq<real>): (r: seq<real>)
    requires g.interval > 0.0
    ensures |r| == |line| && forall i :: 0 <= i < |line| ==> r[i] == Fudged(g, line[i])
  {
    seq(|line|, i requires 0 <= i < |line| => Fudged(g, line[i]))
  }

  /** The line that is being taken in, when the first one has not been yet. */
  function Current(line: int): int {
    if line == -1 then 0 else line
  }

  /** What feeding lines changes: the next line's number, the line before it, and the segments so far. */
  datatype Feed = Feed(line: int, last: seq<real>, added: seq<Segment>)

  function Blank(g: Setup): (r: seq<real>)
    ensures |r| == g.width
  {
    seq(g.width, _ => 0.0)
  }

  /** One line more. */
  function LineFed(g: Setup, f: Feed, scanline: seq<real>): Feed
    requires g.Valid() && |f.last| == |scanline| == g.width
  {
    var curr := FudgedLine(g, scanline);
    Feed(Current(f.line) + 1, curr,
         f.added + LineAdded(g, if f.line == -1 then curr else f.last, curr, Current(f.line)))
  }

  /** After the last line, that line once more. */
  function EndFed(g: Setup, f: Feed): Feed
    requires g.Valid() && |f.last| == g.width
  {
    if f.line == g.height then LineFed(g, f, f.last) else f
  }

  class ContourGenerator {
    const setup: Setup
    var line: int
    var lastLine: seq<real>
    var thisLine: seq<real>
    var levels: seq<ContourLevel>
    var written: seq<Polyline>
    ghost var out: seq<Contour>
    ghost var added: seq<Segment>
    ghost var repr: set<object>

    ghost predicate LevelsOk()
      reads this`levels, this`repr, levels, repr
    {
      this !in repr && LevelsGood(levels, repr)
    }

    /** How often a stretch is in the levels. */
    ghost function Live(t: Stretch): nat
      requires LevelsOk()
      reads this`levels, this`repr, levels, repr
    {
      StockAll(Stock(levels, repr), t)
    }

    /** Finds a level by binary search, or inserts it where it belongs. */
    method FindLevel(level: real) returns (k: nat)
      requires LevelsOk()
      modifies this`levels, this`repr
      ensures LevelsOk() && fresh(repr - old(repr))
      ensures k < |levels| && levels[k].level == level
      ensures forall t :: Live(t) == old(Live(t))
    {
      var start, end := 0, |levels| - 1;
      while start <= end
        invariant 0 <= start <= end + 1 <= |levels|
        invariant forall i :: 0 <= i < start ==> levels[i].level < level
        invariant forall i :: end < i < |levels| ==> levels[i].level > level
        decreases end - start
      {
        var middle := (end + start) / 2;
        var middleLevel := levels[middle].level;
        if middleLevel < level {
          start := middle + 1;
        } else if middleLevel > level {
          end := middle - 1;
        } else {
          return middle;
        }
      }
      k := end + 1;
      InsertLevel(k, level);
    }

    method InsertLevel(k: nat, level: real)
      requires LevelsOk() && k <= |levels|
      requires forall i :: 0 <= i < k ==> levels[i].level < level
      requires forall i :: k <= i < |levels| ==> levels[i].level > level
      modifies this`levels, this`repr
      ensures LevelsOk() && fresh(repr - old(repr))
      ensures k < |levels| && levels[k].level == level
      ensures forall t :: Live(t) == old(Live(t))
    {
      hide LevelsGood, ContourLevel.Valid;
      ghost var before := Stock(levels, repr);
      var newLevel := new ContourLevel(level);
      assert Stock(levels, repr) == before;
      var more := levels[..k] + [newLevel] + levels[k..];
      LevelAddedGood(levels, repr, k, more);
      SetLevels(more, repr + {newLevel});
    }

    ghost method SetRepr(newRepr: set<object>)
      requires this !in newRepr && LevelsGood(levels, newRepr)
      modifies this`repr
      ensures repr == newRepr && LevelsOk() && Stock(levels, repr) == old(Stock(levels, newRepr))
    {
      repr := newRepr;
    }

    method SetLevels(more: seq<ContourLevel>, ghost newRepr: set<object>)
      requires this !in newRepr && LevelsGood(more, newRepr)
      modifies this`levels, this`repr
      ensures levels == more && repr == newRepr && LevelsOk()
      ensures Stock(levels, repr) == old(Stock(more, newRepr))
    {
      levels := more;
      repr := newRepr;
    }

    /** Adds a segment to level k; the other levels do not notice. */
    method AttachLevel(lv: ContourLevel, ghost k: nat, a: Point, b: Point)
      requires LevelsOk() && k < |levels| && levels[k] == lv
      modifies lv`entries, lv.entries
      ensures lv.Valid() && OthersAre(levels, repr, k, old(EntriesOf(levels)), old(Stock(levels, repr)))
      ensures forall i :: 0 <= i < |lv.entries| ==> lv.entries[i] in old(lv.entries) || fresh(lv.entries[i])
      ensures Grown(old(Values(lv.entries)), Values(lv.entries), Segment(lv.level, a, b))
    {
      ghost var before, entries := Stock(levels, repr), EntriesOf(levels);
      lv.Attach(a, b);
      forall i | 0 <= i < |levels| && i != k
        ensures levels[i].entries == entries[i] && levels[i].Valid() && Values(levels[i].entries) == before[i]
      {
        assert levels[i].level != lv.level;
      }
      assert forall t :: TimesAll(Values(lv.entries), t) == lv.Contents(t);
    }

    method AttachAt(lv: ContourLevel, ghost k: nat, a: Point, b: Point)
      requires LevelsOk() && k < |levels| && levels[k] == lv
      modifies this`levels, this`repr, lv`entries, lv.entries
      ensures LevelsOk() && fresh(repr - old(repr))
      ensures levels == old(levels) && forall t :: Live(t) == old(Live(t)) + Occurs(Segment(lv.level, a, b), t)
    {
      hide TimesAll, ContourLevel.Valid;
      ghost var before, entries := Stock(levels, repr), EntriesOf(levels);
      AttachLevel(lv, k, a, b);
      StillGood(levels, entries, repr, k, before);
      StockGrows(before, Stock(levels, repr + ItemSet(lv.entries)), k, Segment(lv.level, a, b));
      SetRepr(repr + ItemSet(lv.entries));
    }

    /** Every segment that was added is in one live contour or in one that was written, as often as it was added. */
    ghost predicate Valid()
      reads this`levels, this`repr, this`written, this`out, this`added, levels, repr
    {
      LevelsOk() && Written(written, out) && Accounted(out, added)
    }

    ghost predicate Accounted(gone: seq<Contour>, all: seq<Segment>)
      requires LevelsOk()
      reads this`levels, this`repr, levels, repr
    {
      forall t :: Live(t) + TimesAll(gone, t) == Times(all, t)
    }

    method AddSegment(s: Segment)
      requires Valid()
      modifies this`levels, this`added, this`repr, repr
      ensures Valid() && fresh(repr - old(repr))
      ensures added == old(added) + [s]
    {
      hide TimesAll, ContourLevel.Valid;
      var k := FindLevel(s.level);
      assert Accounted(out, added);
      AttachAt(levels[k], k, s.a, s.b);
      Count(s);
    }

    ghost method Count(s: Segment)
      requires LevelsOk() && Written(written, out) && forall t :: Live(t) + TimesAll(out, t) == Times(added, t) + Occurs(s, t)
      modifies this`added
      ensures Valid() && added == old(added) + [s]
    {
      OneMoreAtEnd(added, s, s);
      assert Accounted(out, added + [s]);
      added := added + [s];
    }

    /** Hands lines to the writer. */
    method Write(lines: seq<Polyline>, ghost gone: seq<Contour>)
      requires LevelsOk() && Written(written, out) && Written(lines, gone)
      requires forall t :: Live(t) + TimesAll(gone, t) + TimesAll(out, t) == Times(added, t)
      modifies this`written, this`out
      ensures Valid() && written == old(written) + lines
    {
      MoreWritten(written, out, lines, gone);
      SetWritten(written + lines, out + gone);
    }

    method SetWritten(lines: seq<Polyline>, ghost gone: seq<Contour>)
      requires LevelsOk() && Written(lines, gone) && Accounted(gone, added)
      modifies this`written, this`out
      ensures Valid() && written == lines && out == gone
    {
      hide Written, TimesAll, Times;
      written := lines;
      out := gone;
    }

    /** Takes contours out of level k; the other levels do not notice. */
    method EjectLevel(lv: ContourLevel, ghost k: nat, onlyUnused: bool) returns (lines: seq<Polyline>, ghost gone: seq<Contour>)
      requires LevelsOk() && k < |levels| && levels[k] == lv
      modifies lv`entries, lv.entries
      ensures lv.Valid() && OthersAre(levels, repr, k, old(EntriesOf(levels)), old(Stock(levels, repr)))
      ensures forall i :: 0 <= i < |lv.entries| ==> lv.entries[i] in old(lv.entries)
      ensures Written(lines, gone) && Shrunk(old(Values(lv.entries)), Values(lv.entries), gone)
      ensures AllAccessed(lv.entries) && (!onlyUnused ==> lv.entries == [])
      ensures forall i :: 0 <= i < |levels| && i != k && old(AllAccessed(levels[i].entries)) ==> AllAccessed(levels[i].entries)
      ensures onlyUnused ==> Among(old(Accessed(lv.entries)), lv.entries)
      ensures forall i :: 0 <= i < |levels| && i != k ==> Accessed(levels[i].entries) == old(Accessed(levels[i].entries))
    {
      hide TimesAll, ContourLevel.Valid;
      ghost var before, entries := Stock(levels, repr), EntriesOf(levels);
      lines, gone := lv.Eject(onlyUnused);
      forall i | 0 <= i < |levels| && i != k
        ensures levels[i].entries == entries[i] && levels[i].Valid() && Values(levels[i].entries) == before[i]
      {
        assert levels[i].level != lv.level;
      }
      assert forall t :: TimesAll(Values(lv.entries), t) == lv.Contents(t);
    }

    method EjectAt(lv: ContourLevel, ghost k: nat, onlyUnused: bool) returns (lines: seq<Polyline>, ghost gone: seq<Contour>)
      requires LevelsOk() && k < |levels| && levels[k] == lv
      modifies this`levels, this`repr, lv`entries, lv.entries
      ensures LevelsOk() && fresh(repr - old(repr))
      ensures levels == old(levels) && Written(lines, gone)
      ensures forall t :: Live(t) + TimesAll(gone, t) == old(Live(t))
      ensures AllAccessed(lv.entries) && (!onlyUnused ==> lv.entries == [])
      ensures forall i :: 0 <= i < |levels| && i != k ==> levels[i].entries == old(levels[i].entries)
      ensures forall i :: 0 <= i < |levels| && i != k && old(AllAccessed(levels[i].entries)) ==> AllAccessed(levels[i].entries)
      ensures onlyUnused ==> Among(old(Accessed(lv.entries)), lv.entries)
      ensures forall i :: 0 <= i < |levels| && i != k ==> Accessed(levels[i].entries) == old(Accessed(levels[i].entries))
    {
      hide TimesAll, ContourLevel.Valid, Among, Written, Accessed, AllAccessed, Distinct;
      ghost var before, entries := Stock(levels, repr), EntriesOf(levels);
      lines, gone := EjectLevel(lv, k, onlyUnused);
      StillGood(levels, entries, repr, k, before);
      StockShrinks(before, Stock(levels, repr + ItemSet(lv.entries)), k, gone);
      SetRepr(repr + ItemSet(lv.entries));
    }

    /** Merges and writes contours: all of them, or those that the last line did not touch. What stays, the last
        line did touch. */
    method EjectContours(onlyUnused: bool)
      requires Valid()
      modifies this`levels, this`repr, this`written, this`out, repr
      ensures Valid() && fresh(repr - old(repr))
      ensures added == old(added) && levels == old(levels)
      ensures forall i :: 0 <= i < |levels| ==> AllAccessed(levels[i].entries)
      ensures !onlyUnused ==> forall i :: 0 <= i < |levels| ==> levels[i].entries == []
      ensures onlyUnused ==> forall i :: 0 <= i < |levels| ==> Among(old(AccessedOf(levels, repr)[i]), levels[i].entries)
    {
      hide Among, AllAccessed;
      ghost var touched := AccessedOf(levels, repr);
      for i := 0 to |levels|
        invariant Valid() && fresh(repr - old(repr))
        invariant added == old(added) && levels == old(levels)
        invariant forall j :: 0 <= j < i ==> AllAccessed(levels[j].entries)
        invariant !onlyUnused ==> forall j :: 0 <= j < i ==> levels[j].entries == []
        invariant onlyUnused ==> forall j :: 0 <= j < i ==> Among(touched[j], levels[j].entries)
        invariant forall j :: i <= j < |levels| ==> Accessed(levels[j].entries) == touched[j]
      {
        EjectNext(levels[i], i, onlyUnused);
      }
    }

    method EjectNext(lv: ContourLevel, ghost k: nat, onlyUnused: bool)
      requires Valid() && k < |levels| && levels[k] == lv
      modifies this`levels, this`repr, this`written, this`out, repr
      ensures Valid() && fresh(repr - old(repr))
      ensures added == old(added) && levels == old(levels)
      ensures AllAccessed(lv.entries) && (!onlyUnused ==> lv.entries == [])
      ensures forall i :: 0 <= i < |levels| && i != k ==> levels[i].entries == old(levels[i].entries)
      ensures forall i :: 0 <= i < |levels| && i != k && old(AllAccessed(levels[i].entries)) ==> AllAccessed(levels[i].entries)
      ensures onlyUnused ==> Among(old(Accessed(lv.entries)), lv.entries)
      ensures forall i :: 0 <= i < |levels| && i != k ==> Accessed(levels[i].entries) == old(Accessed(levels[i].entries))
    {
      hide AllAccessed, TimesAll, ContourLevel.Valid, Written;
      var lines;
      ghost var gone;
      lines, gone := EjectAt(lv, k, onlyUnused);
      Write(lines, gone);
    }

    /** Forgets which contours the last line has touched. */
    method ClearAccessed()
      requires Valid()
      modifies repr
      ensures Valid() && Forgotten(|levels|)
    {
      for i := 0 to |levels|
        invariant Valid() && Forgotten(i)
      {
        ClearLevel(levels[i], i);
      }
    }

    /** The first n levels have no entry that was touched. */
    ghost predicate Forgotten(n: nat)
      requires n <= |levels| && LevelsOk()
      reads this`levels, this`repr, levels, repr
    {
      forall i :: 0 <= i < n ==> Accessed(levels[i].entries) == {}
    }

    method ClearLevel(lv: ContourLevel, ghost k: nat)
      requires Valid() && k < |levels| && levels[k] == lv && Forgotten(k)
      modifies lv.entries
      ensures Valid() && Forgotten(k + 1)
    {
      hide Sound, Near, TimesAll, Times, Distinct;
      ghost var before, entries := Stock(levels, repr), EntriesOf(levels);
      lv.ClearAccessed();
      assert EntriesOf(levels) == entries;
      forall i | 0 <= i < |levels|
        ensures levels[i].Valid() && Values(levels[i].entries) == before[i]
      {
        if i != k { assert levels[i].level != lv.level; }
      }
      assert LevelsGood(levels, repr);
      assert Stock(levels, repr) == before;
    }

    /** Adds segments one after another. */
    method AddSegments(segs: seq<Segment>)
      requires Valid()
      modifies this`levels, this`added, this`repr, repr
      ensures Valid() && fresh(repr - old(repr))
      ensures added == old(added) + segs
    {
      hide *;
      for i := 0 to |segs|
        invariant Valid() && fresh(repr - old(repr))
        invariant added == old(added) + segs[..i]
      {
        AddSegment(segs[i]);
      }
    }

    /** Moves the pixels of a line off the levels. */
    method Perturb(values: seq<real>) returns (r: seq<real>)
      requires setup.interval > 0.0
      ensures r == FudgedLine(setup, values)
      ensures forall k :: 0 <= k < |values| ==>
                if setup.noDataActive && values[k] == setup.noDataValue then r[k] == values[k]
                else OffLevels(r[k], setup.interval, setup.offset) && (r[k] == values[k] || r[k] == values[k] + setup.interval / 1000.0)
    {
      forall k | 0 <= k < |values|
        ensures OffLevels(Perturbed(values[k], setup.interval, setup.offset), setup.interval, setup.offset)
        ensures Perturbed(values[k], setup.interval, setup.offset) == values[k]
                || Perturbed(values[k], setup.interval, setup.offset) == values[k] + setup.interval / 1000.0
      {
        PerturbedOffLevels(values[k], setup.interval, setup.offset);
      }
      r := values;
      for i := 0 to |values|
        invariant |r| == |values|
        invariant forall k :: 0 <= k < |values| ==> r[k] == if k < i then Fudged(setup, values[k]) else values[k]
      {
        if setup.noDataActive && r[i] == setup.noDataValue {
          continue;
        }
        var level := Scaled(r[i] - setup.offset, setup.interval);
        if level - level.Floor as real == 0.0 {
          r := r[i := r[i] + setup.interval * FUDGE_EXACT];
        }
      }
    }

    constructor (g: Setup)
      requires g.Valid()
      ensures setup == g && Valid() && Ready() && fresh(repr) && written == [] && out == []
      ensures Stage() == Feed(-1, Blank(g), []) && levels == []
    {
      setup, line, lastLine, thisLine := g, -1, Blank(g), Blank(g);
      levels, written, out, added, repr := [], [], [], [], {};
    }

    ghost function Stage(): Feed
      reads this`line, this`thisLine, this`added
    {
      Feed(line, thisLine, added)
    }

    ghost predicate Drained()
      reads this`levels, levels
    {
      forall i :: 0 <= i < |levels| ==> levels[i].entries == []
    }

    ghost predicate Ready()
      reads this`lastLine, this`thisLine
    {
      setup.Valid() && |lastLine| == |thisLine| == setup.width
    }

    /** Makes the next line current. */
    method NextLine(scanline: seq<real>)
      requires Ready() && |scanline| == setup.width
      modifies this`line, this`lastLine, this`thisLine
      ensures Ready() && thisLine == FudgedLine(setup, scanline)
      ensures lastLine == (if old(line) == -1 then thisLine else old(thisLine)) && line == Current(old(line))
    {
      lastLine, thisLine := thisLine, lastLine;
      thisLine := Perturb(scanline);
      if line == -1 {
        lastLine := thisLine;
        line := 0;
      }
    }

    /** Makes the next line current and forgets what the one before has touched. */
    method OpenLine(scanline: seq<real>)
      requires Valid() && Ready() && |scanline| == setup.width
      modifies this`line, this`lastLine, this`thisLine, repr
      ensures Valid() && Ready() && Forgotten(|levels|) && thisLine == FudgedLine(setup, scanline)
      ensures lastLine == (if old(line) == -1 then thisLine else old(thisLine)) && line == Current(old(line))
    {
      hide ContourLevel.Valid, Written, FudgedLine;
      NextLine(scanline);
      ClearAccessed();
    }

    /** Adds all segments of the current line. */
    method ProcessLine()
      requires Valid() && Ready()
      modifies this`levels, this`added, this`repr, repr
      ensures Valid() && fresh(repr - old(repr))
      ensures added == old(added) + LineAdded(setup, lastLine, thisLine, line)
    {
      hide LineAdded, Written, LevelsGood;
      var segs := ProcessPixels(setup, lastLine, thisLine, line);
      AddSegments(segs);
    }

    /** Adds the segments of the current line and hands the writer what the line did not touch, or everything. */
    method FinishLine(onlyUnused: bool)
      requires Valid() && Ready()
      modifies this`levels, this`written, this`out, this`added, this`repr, repr
      ensures Valid() && fresh(repr - old(repr))
      ensures added == old(added) + LineAdded(setup, lastLine, thisLine, line)
      ensures !onlyUnused ==> Drained()
    {
      ProcessLine();
      EjectContours(onlyUnused);
    }

    method CloseLine(onlyUnused: bool)
      requires Valid() && Ready()
      modifies this`line, this`levels, this`written, this`out, this`added, this`repr, repr
      ensures Valid() && fresh(repr - old(repr)) && line == old(line) + 1
      ensures added == old(added) + LineAdded(setup, lastLine, thisLine, old(line))
      ensures !onlyUnused ==> Drained()
    {
      hide LineAdded;
      FinishLine(onlyUnused);
      line := line + 1;
    }

    /** Takes in one line, and hands the writer what it did not touch, or everything. */
    method FeedOne(scanline: seq<real>, onlyUnused: bool)
      requires Valid() && Ready() && |scanline| == setup.width
      modifies this`line, this`lastLine, this`thisLine, this`levels, this`written, this`out, this`added, this`repr, repr
      ensures Valid() && Ready() && fresh(repr - old(repr))
      ensures Stage() == LineFed(setup, old(Stage()), scanline)
      ensures !onlyUnused ==> Drained()
    {
      OpenLine(scanline);
      CloseLine(onlyUnused);
    }

    /** After the last line, feeds it once more and writes everything. */
    method FeedEnd()
      requires Valid() && Ready()
      modifies this`line, this`lastLine, this`thisLine, this`levels, this`written, this`out, this`added, this`repr, repr
      ensures Valid() && Ready() && fresh(repr - old(repr))
      ensures Stage() == EndFed(setup, old(Stage()))
      ensures old(line) == setup.height ==> Drained()
    {
      if line == setup.height {
        FeedOne(thisLine, false);
      }
    }

    /** Takes in a line. */
    method FeedLine(scanline: seq<real>)
      requires Valid() && Ready() && |scanline| == setup.width
      modifies this`line, this`lastLine, this`thisLine, this`levels, this`written, this`out, this`added, this`repr, repr
      ensures Valid() && Ready() && fresh(repr - old(repr))
      ensures Stage() == EndFed(setup, LineFed(setup, old(Stage()), scanline))
      ensures Current(old(line)) + 1 == setup.height ==> Drained()
    {
      FeedOne(scanline, true);
      FeedEnd();
    }
  }

  lemma {:induction false} NothingInStock(stock: seq<seq<Contour>>, n: nat, t: Stretch)
    requires n <= |stock| && forall i :: 0 <= i < |stock| ==> stock[i] == []
    ensures StockTimes(stock, n, t) == 0
  {
    if n > 0 { NothingInStock(stock, n - 1, t); }
  }

  /** Feeding the first n lines of an image. */
  function FedLines(g: Setup, rows: seq<seq<real>>, n: nat): (f: Feed)
    requires g.Valid() && n <= |rows| && forall j :: 0 <= j < |rows| ==> |rows[j]| == g.width
    ensures |f.last| == g.width
  {
    if n == 0 then Feed(-1, Blank(g), []) else EndFed(g, LineFed(g, FedLines(g, rows, n - 1), rows[n-1]))
  }

  lemma OneLineFed(g: Setup, f: Feed, scanline: seq<real>)
    requires g.Valid() && |f.last| == |scanline| == g.width
    ensures var h := EndFed(g, LineFed(g, f, scanline));
            && h.line == Current(f.line) + (if Current(f.line) + 1 == g.height then 2 else 1)
            && (Current(f.line) + 1 != g.height ==> h.last == FudgedLine(g, scanline))
  {
  }

  lemma {:induction false} LineNumber(g: Setup, rows: seq<seq<real>>, n: nat)
    requires g.Valid() && n <= |rows| == g.height && forall j :: 0 <= j < |rows| ==> |rows[j]| == g.width
    ensures FedLines(g, rows, n).line == if n == 0 then -1 else if n == g.height then n + 1 else n
    ensures 0 < n < g.height ==> FedLines(g, rows, n).last == FudgedLine(g, rows[n-1])
  {
    hide LineAdded;
    if n > 0 {
      LineNumber(g, rows, n - 1);
      var f := FedLines(g, rows, n - 1);
      assert Current(f.line) == n - 1;
      OneLineFed(g, f, rows[n-1]);
      assert FedLines(g, rows, n) == EndFed(g, LineFed(g, f, rows[n-1]));
    }
  }

  /** All segments of some contours, one contour after another. */
  ghost function SegsOf(values: seq<Contour>, n: nat): seq<Segment>
    requires n <= |values|
  {
    if n == 0 then [] else SegsOf(values, n - 1) + values[n-1].segs
  }

  lemma {:induction false} SegsOfTimes(values: seq<Contour>, n: nat, t: Stretch)
    requires n <= |values|
    ensures Times(SegsOf(values, n), t) == TimesIn(values, n, t)
  {
    if n > 0 {
      SegsOfTimes(values, n - 1, t);
      TimesConcat(SegsOf(values, n - 1), values[n-1].segs, t);
    }
  }

  /** The edges of the first n lines: one less than the points of each. */
  function EdgeCount(lines: seq<Polyline>, n: nat): int
    requires n <= |lines|
  {
    if n == 0 then 0 else EdgeCount(lines, n - 1) + |lines[n-1].points| - 1
  }

  lemma {:induction false} EdgesAreSegs(lines: seq<Polyline>, out: seq<Contour>, n: nat)
    requires Written(lines, out) && n <= |lines|
    ensures EdgeCount(lines, n) == |SegsOf(out, n)|
  {
    if n > 0 {
      EdgesAreSegs(lines, out, n - 1);
      assert Sound(out[n-1]);
    }
  }

  lemma SameTimesSameLength(a: seq<Segment>, b: seq<Segment>)
    requires forall t :: Times(a, t) == Times(b, t)
    ensures |a| == |b|
  {
    var x, y := multiset(Stretches(a)), multiset(Stretches(b));
    forall t ensures x[t] == y[t] {
      assert Times(a, t) == Times(b, t);
    }
    assert x == y && |x| == |a| && |y| == |b|;
  }

  /** What was written has one edge for every segment. */
  lemma EdgesAddUp(lines: seq<Polyline>, out: seq<Contour>, all: seq<Segment>)
    requires Written(lines, out) && forall t :: TimesAll(out, t) == Times(all, t)
    ensures EdgeCount(lines, |lines|) == |all|
  {
    EdgesAreSegs(lines, out, |lines|);
    forall t ensures Times(SegsOf(out, |out|), t) == Times(all, t) {
      SegsOfTimes(out, |out|, t);
      assert TimesAll(out, t) == Times(all, t);
    }
    SameTimesSameLength(SegsOf(out, |out|), all);
  }

  /** Feeds all lines of an image. */
  method FeedAll(generator: ContourGenerator, rows: seq<seq<real>>)
    requires generator.Valid() && generator.Ready() && generator.Stage() == Feed(-1, Blank(generator.setup), []) && generator.Drained()
    requires |rows| == generator.setup.height && forall j :: 0 <= j < |rows| ==> |rows[j]| == generator.setup.width
    modifies generator, generator.repr
    ensures generator.Valid() && generator.Drained() && generator.Stage() == FedLines(generator.setup, rows, |rows|)
  {
    hide LineFed, EndFed;
    for i := 0 to |rows|
      invariant generator.Valid() && generator.Ready() && fresh(generator.repr - old(generator.repr))
      invariant generator.Stage() == FedLines(generator.setup, rows, i)
      invariant i == |rows| ==> generator.Drained()
    {
      LineNumber(generator.setup, rows, i);
      generator.FeedLine(rows[i]);
    }
  }

  /** Once no level has an entry, everything is written. */
  lemma AllWritten(generator: ContourGenerator)
    requires generator.Valid() && generator.Drained()
    ensures forall t :: TimesAll(generator.out, t) == Times(generator.added, t)
  {
    forall t ensures generator.Live(t) == 0 {
      NothingInStock(Stock(generator.levels, generator.repr), |generator.levels|, t);
    }
  }
}
