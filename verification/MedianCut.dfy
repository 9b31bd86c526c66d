/** Median cut colour quantisation (gdalmediancut.cpp): boxes over a 32 x 32 x 32 colour
    histogram are split at the median of their longest axis and shrunk to fit. */
module MedianCut {
  import opened Basics

  const B_LEN := 32
  const COLOR_SHIFT_FACTOR := 8

  datatype Axis = Red | Green | Blue

  datatype Cell = Cell(r: int, g: int, b: int) {
    function On(axis: Axis): int {
      match axis case Red => r case Green => g case Blue => b
    }

    predicate InCube() {
      0 <= r < B_LEN && 0 <= g < B_LEN && 0 <= b < B_LEN
    }
  }

  /** The cell at position s along an axis and u, v along its inner loops' axes. */
  function CellAt(axis: Axis, s: int, u: int, v: int): (c: Cell)
    ensures c.On(axis) == s && c.On(Inner(axis)) == u && c.On(Innermost(axis)) == v
  {
    match axis
    case Red => Cell(s, u, v)
    case Green => Cell(u, s, v)
    case Blue => Cell(u, v, s)
  }

  function Inner(axis: Axis): Axis {
    match axis case Red => Green case Green => Red case Blue => Red
  }

  function Innermost(axis: Axis): Axis {
    match axis case Red => Blue case Green => Blue case Blue => Green
  }

  /** A box of cells, bounds included. */
  datatype Extent = Extent(rmin: int, rmax: int, gmin: int, gmax: int, bmin: int, bmax: int) {
    function Lo(axis: Axis): int {
      match axis case Red => rmin case Green => gmin case Blue => bmin
    }

    function Hi(axis: Axis): int {
      match axis case Red => rmax case Green => gmax case Blue => bmax
    }

    function With(axis: Axis, lo: int, hi: int): (e: Extent)
      ensures forall a: Axis :: e.Lo(a) == (if a == axis then lo else Lo(a)) && e.Hi(a) == (if a == axis then hi else Hi(a))
    {
      match axis
      case Red => this.(rmin := lo, rmax := hi)
      case Green => this.(gmin := lo, gmax := hi)
      case Blue => this.(bmin := lo, bmax := hi)
    }

    predicate Contains(c: Cell) {
      rmin <= c.r <= rmax && gmin <= c.g <= gmax && bmin <= c.b <= bmax
    }

    predicate InCube() {
      0 <= rmin <= rmax < B_LEN && 0 <= gmin <= gmax < B_LEN && 0 <= bmin <= bmax < B_LEN
    }

    /** More than one cell. */
    predicate Splittable() {
      rmax > rmin || gmax > gmin || bmax > bmin
    }
  }

  lemma ContainsByAxis(e: Extent, axis: Axis, c: Cell)
    ensures e.Contains(c) <==> e.Lo(axis) <= c.On(axis) <= e.Hi(axis)
                               && e.Lo(Inner(axis)) <= c.On(Inner(axis)) <= e.Hi(Inner(axis))
                               && e.Lo(Innermost(axis)) <= c.On(Innermost(axis)) <= e.Hi(Innermost(axis))
  {
  }

  // ---------------------------------------------------------------------
  //  Counting pixels
  // ---------------------------------------------------------------------

  ghost function PixelsIn(pixels: seq<Cell>, e: Extent): set<int> {
    set k | 0 <= k < |pixels| && e.Contains(pixels[k])
  }

  /** The number of pixels in a box. */
  ghost function Total(pixels: seq<Cell>, e: Extent): nat {
    |PixelsIn(pixels, e)|
  }

  ghost predicate Occupied(pixels: seq<Cell>, e: Extent) {
    exists k :: 0 <= k < |pixels| && e.Contains(pixels[k])
  }

  lemma OccupiedTotal(pixels: seq<Cell>, e: Extent)
    ensures Occupied(pixels, e) <==> Total(pixels, e) > 0
  {
    if Occupied(pixels, e) {
      var k :| 0 <= k < |pixels| && e.Contains(pixels[k]);
      assert k in PixelsIn(pixels, e);
    }
    if Total(pixels, e) > 0 {
      var k :| k in PixelsIn(pixels, e);
    }
  }

  /** Cutting a box across an axis divides its pixels. */
  lemma TotalSplit(pixels: seq<Cell>, e: Extent, axis: Axis, m: int)
    requires e.Lo(axis) <= m <= e.Hi(axis) + 1
    ensures Total(pixels, e) == Total(pixels, e.With(axis, e.Lo(axis), m - 1)) + Total(pixels, e.With(axis, m, e.Hi(axis)))
  {
    var lower, upper := e.With(axis, e.Lo(axis), m - 1), e.With(axis, m, e.Hi(axis));
    assert PixelsIn(pixels, e) == PixelsIn(pixels, lower) + PixelsIn(pixels, upper);
    assert PixelsIn(pixels, lower) !! PixelsIn(pixels, upper);
  }

  /** One more slice. */
  lemma TotalGrows(pixels: seq<Cell>, e: Extent, axis: Axis, lo: int, m: int)
    requires lo <= m
    ensures Total(pixels, e.With(axis, lo, m)) == Total(pixels, e.With(axis, lo, m - 1)) + Total(pixels, e.With(axis, m, m))
  {
    var whole := e.With(axis, lo, m);
    assert whole.With(axis, lo, m - 1) == e.With(axis, lo, m - 1) && whole.With(axis, m, m) == e.With(axis, m, m);
    TotalSplit(pixels, whole, axis, m);
  }

  lemma TotalNone(pixels: seq<Cell>, e: Extent, axis: Axis, lo: int)
    ensures Total(pixels, e.With(axis, lo, lo - 1)) == 0
  {
  }

  ghost function Single(c: Cell): Extent {
    Extent(c.r, c.r, c.g, c.g, c.b, c.b)
  }

  ghost predicate IsHistogram(hist: array3<int>, pixels: seq<Cell>)
    reads hist
  {
    && hist.Length0 == hist.Length1 == hist.Length2 == B_LEN
    && forall c: Cell :: c.InCube() ==> hist[c.r, c.g, c.b] == Total(pixels, Single(c))
  }

  lemma EmptyCell(hist: array3<int>, pixels: seq<Cell>, c: Cell)
    requires IsHistogram(hist, pixels) && c.InCube()
    ensures hist[c.r, c.g, c.b] != 0 <==> exists k :: 0 <= k < |pixels| && pixels[k] == c
  {
    OccupiedTotal(pixels, Single(c));
    if Occupied(pixels, Single(c)) {
      var k :| 0 <= k < |pixels| && Single(c).Contains(pixels[k]);
      assert pixels[k] == c;
    }
    if exists k :: 0 <= k < |pixels| && pixels[k] == c {
      var k :| 0 <= k < |pixels| && pixels[k] == c;
      assert Single(c).Contains(pixels[k]);
    }
  }

  // ---------------------------------------------------------------------
  //  Tight boxes and the partition they form
  // ---------------------------------------------------------------------

  ghost predicate TouchedAt(pixels: seq<Cell>, e: Extent, axis: Axis, s: int) {
    exists k :: 0 <= k < |pixels| && e.Contains(pixels[k]) && pixels[k].On(axis) == s
  }

  ghost predicate TightOn(pixels: seq<Cell>, e: Extent, axis: Axis) {
    TouchedAt(pixels, e, axis, e.Lo(axis)) && TouchedAt(pixels, e, axis, e.Hi(axis))
  }

  /** Pixels touch every face. */
  ghost predicate Tight(pixels: seq<Cell>, e: Extent) {
    TightOn(pixels, e, Red) && TightOn(pixels, e, Green) && TightOn(pixels, e, Blue)
  }

  ghost predicate Fitting(pixels: seq<Cell>, e: Extent) {
    e.InCube() && Tight(pixels, e)
  }

  /** Some axis separates the two boxes. */
  ghost predicate Apart(e: Extent, f: Extent) {
    || e.rmax < f.rmin || f.rmax < e.rmin
    || e.gmax < f.gmin || f.gmax < e.gmin
    || e.bmax < f.bmin || f.bmax < e.bmin
  }

  ghost predicate Covered(exts: seq<Extent>, c: Cell) {
    exists i :: 0 <= i < |exts| && exts[i].Contains(c)
  }

  ghost predicate AllFitting(pixels: seq<Cell>, exts: seq<Extent>) {
    forall i :: 0 <= i < |exts| ==> Fitting(pixels, exts[i])
  }

  ghost predicate AllApart(exts: seq<Extent>) {
    forall i, j :: 0 <= i < j < |exts| ==> Apart(exts[i], exts[j])
  }

  ghost predicate AllCovered(pixels: seq<Cell>, exts: seq<Extent>) {
    forall k {:trigger Covered(exts, pixels[k])} :: 0 <= k < |pixels| ==> Covered(exts, pixels[k])
  }

  /** The boxes are inside the cube, tight and disjoint, and together hold every pixel. */
  ghost predicate Partition(pixels: seq<Cell>, exts: seq<Extent>) {
    AllFitting(pixels, exts) && AllApart(exts) && AllCovered(pixels, exts)
  }

  ghost predicate Inside(e: Extent, f: Extent) {
    f.rmin <= e.rmin && e.rmax <= f.rmax && f.gmin <= e.gmin && e.gmax <= f.gmax && f.bmin <= e.bmin && e.bmax <= f.bmax
  }

  /** e is f with nothing but empty cells cut off. */
  ghost predicate Shrunk(pixels: seq<Cell>, e: Extent, f: Extent) {
    Inside(e, f) && forall k :: 0 <= k < |pixels| && f.Contains(pixels[k]) ==> e.Contains(pixels[k])
  }

  lemma ShrunkTotal(pixels: seq<Cell>, e: Extent, f: Extent)
    requires Shrunk(pixels, e, f)
    ensures Total(pixels, e) == Total(pixels, f)
  {
    assert PixelsIn(pixels, e) == PixelsIn(pixels, f);
  }

  /** A cut divides the cells of a box. */
  lemma CutCells(e: Extent, axis: Axis, m: int)
    requires e.Lo(axis) <= m <= e.Hi(axis) + 1
    ensures var lo, up := e.With(axis, e.Lo(axis), m - 1), e.With(axis, m, e.Hi(axis));
            && Inside(lo, e) && Inside(up, e) && Apart(lo, up)
            && forall c: Cell :: e.Contains(c) ==> lo.Contains(c) || up.Contains(c)
  {
  }

  lemma PieceCovers(pixels: seq<Cell>, exts: seq<Extent>, k: nat, lo: Extent, up: Extent, lower: Extent, upper: Extent, p: nat)
    requires k < |exts| && p < |pixels| && Covered(exts, pixels[p])
    requires forall c: Cell :: exts[k].Contains(c) ==> lo.Contains(c) || up.Contains(c)
    requires Shrunk(pixels, lower, lo) && Shrunk(pixels, upper, up)
    ensures Covered([lower] + exts[k := upper], pixels[p])
  {
    var exts' := [lower] + exts[k := upper];
    var i :| 0 <= i < |exts| && exts[i].Contains(pixels[p]);
    if i == k && lo.Contains(pixels[p]) {
      assert exts'[0].Contains(pixels[p]);
    } else {
      assert exts'[i+1].Contains(pixels[p]);
    }
  }

  lemma PiecesFit(pixels: seq<Cell>, exts: seq<Extent>, k: nat, lower: Extent, upper: Extent)
    requires k < |exts| && Fitting(pixels, lower) && Fitting(pixels, upper) && AllFitting(pixels, exts)
    ensures AllFitting(pixels, [lower] + exts[k := upper])
  {
  }

  lemma AllPiecesApart(exts: seq<Extent>, k: nat, lo: Extent, up: Extent, lower: Extent, upper: Extent)
    requires k < |exts| && AllApart(exts)
    requires Inside(lower, lo) && Inside(upper, up) && Inside(lo, exts[k]) && Inside(up, exts[k]) && Apart(lo, up)
    ensures AllApart([lower] + exts[k := upper])
  {
  }

  lemma PiecesCover(pixels: seq<Cell>, exts: seq<Extent>, k: nat, lo: Extent, up: Extent, lower: Extent, upper: Extent)
    requires k < |exts| && AllCovered(pixels, exts)
    requires forall c: Cell :: exts[k].Contains(c) ==> lo.Contains(c) || up.Contains(c)
    requires Shrunk(pixels, lower, lo) && Shrunk(pixels, upper, up)
    ensures AllCovered(pixels, [lower] + exts[k := upper])
  {
    forall p | 0 <= p < |pixels| ensures Covered([lower] + exts[k := upper], pixels[p]) {
      PieceCovers(pixels, exts, k, lo, up, lower, upper, p);
    }
  }

  /** Cutting one box in two and shrinking both keeps the partition. */
  lemma SplitKeepsPartition(pixels: seq<Cell>, exts: seq<Extent>, k: nat, axis: Axis, m: int, lower: Extent, upper: Extent)
    requires Partition(pixels, exts) && k < |exts| && exts[k].Lo(axis) <= m <= exts[k].Hi(axis) + 1
    requires Fitting(pixels, lower) && Shrunk(pixels, lower, exts[k].With(axis, exts[k].Lo(axis), m - 1))
    requires Fitting(pixels, upper) && Shrunk(pixels, upper, exts[k].With(axis, m, exts[k].Hi(axis)))
    ensures Partition(pixels, [lower] + exts[k := upper])
  {
    var e := exts[k];
    var lo, up := e.With(axis, e.Lo(axis), m - 1), e.With(axis, m, e.Hi(axis));
    CutCells(e, axis, m);
    PiecesFit(pixels, exts, k, lower, upper);
    AllPiecesApart(exts, k, lo, up, lower, upper);
    PiecesCover(pixels, exts, k, lo, up, lower, upper);
  }

  // ---------------------------------------------------------------------
  //  How many boxes there are
  // ---------------------------------------------------------------------

  ghost function OccupiedCells(pixels: seq<Cell>): set<Cell> {
    set k | 0 <= k < |pixels| :: pixels[k]
  }

  /** The occupied cells of the boxes. */
  ghost function CellsHeld(pixels: seq<Cell>, exts: seq<Extent>): set<Cell> {
    set c | c in OccupiedCells(pixels) && Covered(exts, c)
  }

  lemma HeldByInit(pixels: seq<Cell>, exts: seq<Extent>, c: Cell)
    requires |exts| > 0
    ensures Covered(exts, c) <==> Covered(exts[..|exts|-1], c) || exts[|exts|-1].Contains(c)
  {
  }

  /** The last of some disjoint tight boxes holds an occupied cell that the others do not hold. */
  lemma OwnCell(pixels: seq<Cell>, exts: seq<Extent>) returns (c: Cell)
    requires |exts| > 0 && Fitting(pixels, exts[|exts|-1]) && AllApart(exts)
    ensures c in CellsHeld(pixels, exts) && c !in CellsHeld(pixels, exts[..|exts|-1])
  {
    var n := |exts| - 1;
    assert TouchedAt(pixels, exts[n], Red, exts[n].rmin);
    var k :| 0 <= k < |pixels| && exts[n].Contains(pixels[k]);
    c := pixels[k];
    assert c in OccupiedCells(pixels) && Covered(exts, c);
    forall i | 0 <= i < n ensures !exts[..n][i].Contains(c) {
      assert Apart(exts[i], exts[n]);
    }
  }

  lemma OneMoreCell(pixels: seq<Cell>, exts: seq<Extent>)
    requires |exts| > 0 && Fitting(pixels, exts[|exts|-1]) && AllApart(exts)
    ensures |CellsHeld(pixels, exts)| >= |CellsHeld(pixels, exts[..|exts|-1])| + 1
  {
    hide Fitting, AllApart;
    var c := OwnCell(pixels, exts);
    var fewer := CellsHeld(pixels, exts[..|exts|-1]);
    forall d | d in fewer ensures d in CellsHeld(pixels, exts) {
      HeldByInit(pixels, exts, d);
    }
    SubsetSize(fewer + {c}, CellsHeld(pixels, exts));
  }

  /** Disjoint tight boxes hold at least one occupied cell each. */
  lemma {:induction false} AtLeastOneEach(pixels: seq<Cell>, exts: seq<Extent>)
    requires AllFitting(pixels, exts) && AllApart(exts)
    ensures |exts| <= |CellsHeld(pixels, exts)|
  {
    hide Fitting, CellsHeld, Apart;
    if |exts| > 0 {
      AtLeastOneEach(pixels, exts[..|exts|-1]);
      OneMoreCell(pixels, exts);
    }
  }

  lemma {:induction false} SubsetSize<T>(a: set<T>, b: set<T>)
    requires a <= b
    ensures |a| <= |b|
  {
    if a != {} {
      var x :| x in a;
      SubsetSize(a - {x}, b - {x});
    }
  }

  /** Boxes of a single cell hold at most one cell each. */
  lemma {:induction false} AtMostOneEach(pixels: seq<Cell>, exts: seq<Extent>)
    requires forall i :: 0 <= i < |exts| ==> !exts[i].Splittable()
    ensures |CellsHeld(pixels, exts)| <= |exts|
  {
    if |exts| == 0 {
      assert CellsHeld(pixels, exts) == {};
    } else {
      var n := |exts| - 1;
      AtMostOneEach(pixels, exts[..n]);
      var c := Cell(exts[n].rmin, exts[n].gmin, exts[n].bmin);
      forall d | d in CellsHeld(pixels, exts) ensures d in CellsHeld(pixels, exts[..n]) + {c} {
        HeldByInit(pixels, exts, d);
      }
      SubsetSize(CellsHeld(pixels, exts), CellsHeld(pixels, exts[..n]) + {c});
    }
  }

  lemma AllHeld(pixels: seq<Cell>, exts: seq<Extent>)
    requires AllCovered(pixels, exts)
    ensures CellsHeld(pixels, exts) == OccupiedCells(pixels)
  {
  }

  /** There are never more boxes than occupied cells, and as many once no box can be split. */
  lemma BoxCount(pixels: seq<Cell>, exts: seq<Extent>)
    requires Partition(pixels, exts)
    ensures |exts| <= |OccupiedCells(pixels)|
    ensures (forall i :: 0 <= i < |exts| ==> !exts[i].Splittable()) ==> |exts| == |OccupiedCells(pixels)|
  {
    AllHeld(pixels, exts);
    AtLeastOneEach(pixels, exts);
    if forall i :: 0 <= i < |exts| ==> !exts[i].Splittable() {
      AtMostOneEach(pixels, exts);
    }
  }

  ghost function SumTotals(pixels: seq<Cell>, exts: seq<Extent>): nat {
    if |exts| == 0 then 0 else SumTotals(pixels, exts[..|exts|-1]) + Total(pixels, exts[|exts|-1])
  }

  ghost function PixelsHeld(pixels: seq<Cell>, exts: seq<Extent>): set<int> {
    set k | 0 <= k < |pixels| && Covered(exts, pixels[k])
  }

  lemma {:induction false} SumOfHeld(pixels: seq<Cell>, exts: seq<Extent>)
    requires AllApart(exts)
    ensures SumTotals(pixels, exts) == |PixelsHeld(pixels, exts)|
  {
    if |exts| == 0 {
      assert PixelsHeld(pixels, exts) == {};
    } else {
      var n := |exts| - 1;
      SumOfHeld(pixels, exts[..n]);
      forall k | 0 <= k < |pixels|
        ensures k in PixelsHeld(pixels, exts) <==> k in PixelsHeld(pixels, exts[..n]) || k in PixelsIn(pixels, exts[n])
        ensures !(k in PixelsHeld(pixels, exts[..n]) && k in PixelsIn(pixels, exts[n]))
      {
        HeldByInit(pixels, exts, pixels[k]);
        if Covered(exts[..n], pixels[k]) {
          var i :| 0 <= i < n && exts[..n][i].Contains(pixels[k]);
          assert Apart(exts[i], exts[n]);
        }
      }
      assert PixelsHeld(pixels, exts) == PixelsHeld(pixels, exts[..n]) + PixelsIn(pixels, exts[n]);
      assert PixelsHeld(pixels, exts[..n]) !! PixelsIn(pixels, exts[n]);
    }
  }

  /** The totals of the boxes add up to the number of pixels. */
  lemma TotalsAddUp(pixels: seq<Cell>, exts: seq<Extent>)
    requires Partition(pixels, exts)
    ensures SumTotals(pixels, exts) == |pixels|
  {
    SumOfHeld(pixels, exts);
    forall k | 0 <= k < |pixels| ensures k in PixelsHeld(pixels, exts) {
      assert Covered(exts, pixels[k]);
    }
    assert PixelsHeld(pixels, exts) == Indices(|pixels|);
  }

  ghost function Indices(n: nat): (r: set<int>)
    ensures |r| == n && forall k :: k in r <==> 0 <= k < n
  {
    if n == 0 then {} else Indices(n - 1) + {n - 1}
  }

  // ---------------------------------------------------------------------
  //  Boxes
  // ---------------------------------------------------------------------

  class Colorbox {
    var rmin: int
    var rmax: int
    var gmin: int
    var gmax: int
    var bmin: int
    var bmax: int
    var total: int

    function Extents(): Extent
      reads this
    {
      Extent(rmin, rmax, gmin, gmax, bmin, bmax)
    }

    constructor (e: Extent, total: int)
      ensures Extents() == e && this.total == total
    {
      rmin, rmax, gmin, gmax, bmin, bmax := e.rmin, e.rmax, e.gmin, e.gmax, e.bmin, e.bmax;
      this.total := total;
    }

    method SetRange(axis: Axis, lo: int, hi: int)
      modifies this
      ensures Extents() == old(Extents()).With(axis, lo, hi) && total == old(total)
    {
      match axis
      case Red => rmin, rmax := lo, hi;
      case Green => gmin, gmax := lo, hi;
      case Blue => bmin, bmax := lo, hi;
    }
  }

  /** The slices of e before position s are empty. */
  ghost predicate EmptyBefore(pixels: seq<Cell>, e: Extent, axis: Axis, s: int) {
    forall k :: 0 <= k < |pixels| && e.Contains(pixels[k]) ==> pixels[k].On(axis) >= s
  }

  ghost predicate EmptyAfter(pixels: seq<Cell>, e: Extent, axis: Axis, s: int) {
    forall k :: 0 <= k < |pixels| && e.Contains(pixels[k]) ==> pixels[k].On(axis) <= s
  }

  /** Whether the slice of e at position s holds a pixel. */
  method SliceOccupied(hist: array3<int>, e: Extent, axis: Axis, s: int, ghost pixels: seq<Cell>) returns (found: bool)
    requires IsHistogram(hist, pixels) && e.InCube() && e.Lo(axis) <= s <= e.Hi(axis)
    ensures found <==> TouchedAt(pixels, e, axis, s)
  {
    var inner, innermost := Inner(axis), Innermost(axis);
    for u := e.Lo(inner) to e.Hi(inner) + 1
      invariant forall k :: 0 <= k < |pixels| && e.Contains(pixels[k]) && pixels[k].On(axis) == s ==> pixels[k].On(inner) >= u
    {
      for v := e.Lo(innermost) to e.Hi(innermost) + 1
        invariant forall k :: 0 <= k < |pixels| && e.Contains(pixels[k]) && pixels[k].On(axis) == s && pixels[k].On(inner) == u
                         ==> pixels[k].On(innermost) >= v
      {
        var c := CellAt(axis, s, u, v);
        ContainsByAxis(e, axis, c);
        EmptyCell(hist, pixels, c);
        if hist[c.r, c.g, c.b] != 0 {
          return true;
        }
        NotThere(pixels, e, axis, s, u, v);
      }
      forall k | 0 <= k < |pixels| && e.Contains(pixels[k]) && pixels[k].On(axis) == s && pixels[k].On(inner) == u ensures false {
        ContainsByAxis(e, axis, pixels[k]);
      }
    }
    forall k | 0 <= k < |pixels| && e.Contains(pixels[k]) && pixels[k].On(axis) == s ensures false {
      ContainsByAxis(e, axis, pixels[k]);
    }
    return false;
  }

  lemma NotThere(pixels: seq<Cell>, e: Extent, axis: Axis, s: int, u: int, v: int)
    requires forall k :: 0 <= k < |pixels| ==> pixels[k] != CellAt(axis, s, u, v)
    ensures forall k :: 0 <= k < |pixels| && pixels[k].On(axis) == s && pixels[k].On(Inner(axis)) == u
                   ==> pixels[k].On(Innermost(axis)) != v
  {
  }

  // ---------------------------------------------------------------------
  //  Shrinking
  // ---------------------------------------------------------------------

  /** The first occupied slice of a box that holds pixels. */
  method FirstOccupied(hist: array3<int>, e: Extent, axis: Axis, ghost pixels: seq<Cell>) returns (s: int)
    requires IsHistogram(hist, pixels) && e.InCube() && Occupied(pixels, e)
    ensures e.Lo(axis) <= s <= e.Hi(axis) && TouchedAt(pixels, e, axis, s) && EmptyBefore(pixels, e, axis, s)
  {
    s := e.Lo(axis);
    assert EmptyBefore(pixels, e, axis, s);
    while s <= e.Hi(axis)
      invariant e.Lo(axis) <= s <= e.Hi(axis) + 1 && EmptyBefore(pixels, e, axis, s)
    {
      var found := SliceOccupied(hist, e, axis, s, pixels);
      if found { return; }
      s := s + 1;
    }
    assert false;
  }

  method LastOccupied(hist: array3<int>, e: Extent, axis: Axis, ghost pixels: seq<Cell>) returns (s: int)
    requires IsHistogram(hist, pixels) && e.InCube() && Occupied(pixels, e)
    ensures e.Lo(axis) <= s <= e.Hi(axis) && TouchedAt(pixels, e, axis, s) && EmptyAfter(pixels, e, axis, s)
  {
    s := e.Hi(axis);
    assert EmptyAfter(pixels, e, axis, s);
    while s >= e.Lo(axis)
      invariant e.Lo(axis) - 1 <= s <= e.Hi(axis) && EmptyAfter(pixels, e, axis, s)
      decreases s - e.Lo(axis)
    {
      var found := SliceOccupied(hist, e, axis, s, pixels);
      if found { return; }
      s := s - 1;
    }
    assert false;
  }

  lemma ShrinkLow(pixels: seq<Cell>, e: Extent, axis: Axis, s: int)
    requires e.InCube() && e.Lo(axis) <= s <= e.Hi(axis) && TouchedAt(pixels, e, axis, s) && EmptyBefore(pixels, e, axis, s)
    ensures var f := e.With(axis, s, e.Hi(axis));
            f.InCube() && Shrunk(pixels, f, e) && TouchedAt(pixels, f, axis, s) && Occupied(pixels, f)
  {
  }

  lemma ShrinkHigh(pixels: seq<Cell>, e: Extent, axis: Axis, s: int)
    requires e.InCube() && e.Lo(axis) <= s <= e.Hi(axis) && TouchedAt(pixels, e, axis, s) && EmptyAfter(pixels, e, axis, s)
    ensures var f := e.With(axis, e.Lo(axis), s);
            f.InCube() && Shrunk(pixels, f, e) && TouchedAt(pixels, f, axis, s) && Occupied(pixels, f)
  {
  }

  lemma ShrunkTrans(pixels: seq<Cell>, e: Extent, f: Extent, g: Extent)
    requires Shrunk(pixels, e, f) && Shrunk(pixels, f, g)
    ensures Shrunk(pixels, e, g)
  {
  }

  /** Shrinking keeps a face that pixels touch. */
  lemma ShrunkTouched(pixels: seq<Cell>, e: Extent, f: Extent, axis: Axis, s: int)
    requires Shrunk(pixels, e, f) && TouchedAt(pixels, f, axis, s)
    ensures TouchedAt(pixels, e, axis, s)
  {
  }

  /** A box one slice thick is tight on that axis. */
  lemma ThinIsTight(pixels: seq<Cell>, e: Extent, axis: Axis)
    requires Occupied(pixels, e) && e.Lo(axis) == e.Hi(axis)
    ensures TightOn(pixels, e, axis)
  {
  }

  /** Pulls both faces across one axis in to the nearest pixels. */
  method ShrinkAxis(box: Colorbox, hist: array3<int>, axis: Axis, ghost pixels: seq<Cell>)
    requires IsHistogram(hist, pixels) && box.Extents().InCube() && Occupied(pixels, box.Extents())
    modifies box
    ensures box.Extents().InCube() && Occupied(pixels, box.Extents()) && box.total == old(box.total)
    ensures Shrunk(pixels, box.Extents(), old(box.Extents())) && TightOn(pixels, box.Extents(), axis)
    ensures forall a: Axis :: a != axis ==> box.Extents().Lo(a) == old(box.Extents()).Lo(a) && box.Extents().Hi(a) == old(box.Extents()).Hi(a)
  {
    hide Occupied;
    ghost var e := box.Extents();
    if box.Extents().Hi(axis) > box.Extents().Lo(axis) {
      var lo := FirstOccupied(hist, box.Extents(), axis, pixels);
      ShrinkLow(pixels, e, axis, lo);
      box.SetRange(axis, lo, box.Extents().Hi(axis));
      ghost var f := box.Extents();
      if box.Extents().Hi(axis) > box.Extents().Lo(axis) {
        var hi := LastOccupied(hist, box.Extents(), axis, pixels);
        ShrinkHigh(pixels, f, axis, hi);
        box.SetRange(axis, box.Extents().Lo(axis), hi);
        ShrunkTouched(pixels, box.Extents(), f, axis, lo);
        ShrunkTrans(pixels, box.Extents(), f, e);
      } else {
        ThinIsTight(pixels, f, axis);
      }
    } else {
      ThinIsTight(pixels, e, axis);
    }
  }

  lemma ShrunkTight(pixels: seq<Cell>, e: Extent, f: Extent, axis: Axis)
    requires Shrunk(pixels, e, f) && TightOn(pixels, f, axis) && e.Lo(axis) == f.Lo(axis) && e.Hi(axis) == f.Hi(axis)
    ensures TightOn(pixels, e, axis)
  {
  }

  method ShrinkBox(box: Colorbox, hist: array3<int>, ghost pixels: seq<Cell>)
    requires IsHistogram(hist, pixels) && box.Extents().InCube() && Occupied(pixels, box.Extents())
    modifies box
    ensures Fitting(pixels, box.Extents()) && Shrunk(pixels, box.Extents(), old(box.Extents())) && box.total == old(box.total)
  {
    ghost var e := box.Extents();
    ShrinkAxis(box, hist, Red, pixels);
    ghost var f := box.Extents();
    ShrinkAxis(box, hist, Green, pixels);
    ghost var g := box.Extents();
    ShrunkTight(pixels, g, f, Red);
    ShrunkTrans(pixels, g, f, e);
    ShrinkAxis(box, hist, Blue, pixels);
    ShrunkTight(pixels, box.Extents(), g, Red);
    ShrunkTight(pixels, box.Extents(), g, Green);
    ShrunkTrans(pixels, box.Extents(), g, e);
  }

  // ---------------------------------------------------------------------
  //  Splitting
  // ---------------------------------------------------------------------

  function LongestAxis(e: Extent): (axis: Axis)
    ensures forall a: Axis :: e.Hi(a) - e.Lo(a) <= e.Hi(axis) - e.Lo(axis)
    ensures axis != Red ==> e.rmax - e.rmin < e.Hi(axis) - e.Lo(axis)
    ensures axis == Blue ==> e.gmax - e.gmin < e.bmax - e.bmin
  {
    var r, g, b := e.rmax - e.rmin, e.gmax - e.gmin, e.bmax - e.bmin;
    if r >= g && r >= b then Red else if g >= b then Green else Blue
  }

  lemma SliceCell(e: Extent, axis: Axis, s: int, u: int, v: int)
    ensures e.With(axis, s, s).With(Inner(axis), u, u).With(Innermost(axis), v, v) == Single(CellAt(axis, s, u, v))
  {
  }

  /** The pixels of one slice. */
  method SliceTotal(hist: array3<int>, e: Extent, axis: Axis, s: int, ghost pixels: seq<Cell>) returns (sum: int)
    requires IsHistogram(hist, pixels) && e.InCube() && e.Lo(axis) <= s <= e.Hi(axis)
    ensures sum == Total(pixels, e.With(axis, s, s))
  {
    var inner := Inner(axis);
    ghost var slice := e.With(axis, s, s);
    sum := 0;
    TotalNone(pixels, slice, inner, e.Lo(inner));
    for u := e.Lo(inner) to e.Hi(inner) + 1
      invariant sum == Total(pixels, slice.With(inner, e.Lo(inner), u - 1))
    {
      sum := AddRow(hist, e, axis, s, u, sum, pixels);
      TotalGrows(pixels, slice, inner, e.Lo(inner), u);
    }
    assert slice.With(inner, e.Lo(inner), e.Hi(inner)) == slice;
  }

  /** Adds the pixels of one row of a slice: the innermost loop. */
  method AddRow(hist: array3<int>, e: Extent, axis: Axis, s: int, u: int, sum0: int, ghost pixels: seq<Cell>) returns (sum: int)
    requires IsHistogram(hist, pixels) && e.InCube() && e.Lo(axis) <= s <= e.Hi(axis) && e.Lo(Inner(axis)) <= u <= e.Hi(Inner(axis))
    ensures sum == sum0 + Total(pixels, e.With(axis, s, s).With(Inner(axis), u, u))
  {
    hide Total;
    var innermost := Innermost(axis);
    ghost var row := e.With(axis, s, s).With(Inner(axis), u, u);
    sum := sum0;
    TotalNone(pixels, row, innermost, e.Lo(innermost));
    for v := e.Lo(innermost) to e.Hi(innermost) + 1
      invariant sum == sum0 + Total(pixels, row.With(innermost, e.Lo(innermost), v - 1))
    {
      var c := CellAt(axis, s, u, v);
      ContainsByAxis(e, axis, c);
      TotalGrows(pixels, row, innermost, e.Lo(innermost), v);
      SliceCell(e, axis, s, u, v);
      sum := sum + hist[c.r, c.g, c.b];
    }
    assert row.With(innermost, e.Lo(innermost), e.Hi(innermost)) == row;
  }

  /** The histogram of a box along one axis. */
  method AxisHistogram(hist: array3<int>, e: Extent, axis: Axis, ghost pixels: seq<Cell>) returns (hist2: array<int>)
    requires IsHistogram(hist, pixels) && e.InCube()
    ensures fresh(hist2) && hist2.Length == B_LEN
    ensures forall s :: e.Lo(axis) <= s <= e.Hi(axis) ==> hist2[s] == Total(pixels, e.With(axis, s, s))
  {
    hist2 := new int[B_LEN];
    for s := e.Lo(axis) to e.Hi(axis) + 1
      invariant forall t :: e.Lo(axis) <= t < s ==> hist2[t] == Total(pixels, e.With(axis, t, t))
    {
      var sum := SliceTotal(hist, e, axis, s, pixels);
      hist2[s] := sum;
    }
  }

  /** The first position whose cumulated slices reach half the total, but never the first slice. */
  method MedianCutPoint(hist2: array<int>, e: Extent, axis: Axis, total: int, ghost pixels: seq<Cell>) returns (i: int)
    requires e.InCube() && e.Hi(axis) > e.Lo(axis) && hist2.Length == B_LEN && total == Total(pixels, e)
    requires forall s :: e.Lo(axis) <= s <= e.Hi(axis) ==> hist2[s] == Total(pixels, e.With(axis, s, s))
    ensures e.Lo(axis) < i <= e.Hi(axis)
    ensures i > e.Lo(axis) + 1 ==> Total(pixels, e.With(axis, e.Lo(axis), i - 1)) < total / 2
    ensures Total(pixels, e.With(axis, e.Lo(axis), i)) >= total / 2
  {
    var first, last := e.Lo(axis), e.Hi(axis);
    i := first;
    var sum := hist2[first];
    TotalNone(pixels, e, axis, first);
    TotalGrows(pixels, e, axis, first, first);
    assert e.With(axis, first, last) == e;
    while i <= last && sum < total / 2
      invariant first <= i <= last
      invariant sum == Total(pixels, e.With(axis, first, i))
      invariant i > first ==> Total(pixels, e.With(axis, first, i - 1)) < total / 2
      decreases last - i
    {
      i := i + 1;
      TotalGrows(pixels, e, axis, first, i);
      sum := sum + hist2[i];
    }
    if i == first {
      i := i + 1;
      TotalGrows(pixels, e, axis, first, i);
    }
  }

  /** The pixels of a range of slices. */
  method SumSlices(hist2: array<int>, e: Extent, axis: Axis, lo: int, hi: int, ghost pixels: seq<Cell>) returns (sum: int)
    requires e.InCube() && hist2.Length == B_LEN && e.Lo(axis) <= lo <= hi + 1 <= e.Hi(axis) + 1
    requires forall s :: e.Lo(axis) <= s <= e.Hi(axis) ==> hist2[s] == Total(pixels, e.With(axis, s, s))
    ensures sum == Total(pixels, e.With(axis, lo, hi))
  {
    sum := 0;
    TotalNone(pixels, e, axis, lo);
    for j := lo to hi + 1
      invariant sum == Total(pixels, e.With(axis, lo, j - 1))
    {
      TotalGrows(pixels, e, axis, lo, j);
      sum := sum + hist2[j];
    }
  }

  // ---------------------------------------------------------------------
  //  The rules of a cut
  // ---------------------------------------------------------------------

  /** The position after the first slices that hold half of the pixels, but never the first slice. */
  ghost predicate AtMedian(pixels: seq<Cell>, e: Extent, axis: Axis, cut: int) {
    && e.Lo(axis) < cut <= e.Hi(axis)
    && Total(pixels, e.With(axis, e.Lo(axis), cut)) >= Total(pixels, e) / 2
    && (cut > e.Lo(axis) + 1 ==> Total(pixels, e.With(axis, e.Lo(axis), cut - 1)) < Total(pixels, e) / 2)
  }

  /** A box in two at its median: each part is the smallest box of its pixels. */
  ghost predicate CutInTwo(pixels: seq<Cell>, e: Extent, axis: Axis, cut: int, lower: Extent, upper: Extent) {
    && axis == LongestAxis(e) && AtMedian(pixels, e, axis, cut)
    && Fitting(pixels, lower) && Shrunk(pixels, lower, e.With(axis, e.Lo(axis), cut - 1))
    && Fitting(pixels, upper) && Shrunk(pixels, upper, e.With(axis, cut, e.Hi(axis)))
  }

  /** The first of the splittable boxes with the most pixels. */
  ghost predicate FirstLargest(pixels: seq<Cell>, exts: seq<Extent>, k: nat) {
    && k < |exts| && exts[k].Splittable()
    && (forall i :: 0 <= i < |exts| && exts[i].Splittable() ==> Total(pixels, exts[i]) <= Total(pixels, exts[k]))
    && (forall i :: 0 <= i < k && exts[i].Splittable() ==> Total(pixels, exts[i]) < Total(pixels, exts[k]))
  }

  /** One turn: the lower part of the largest box goes to the front, the upper part stays in its place. */
  ghost predicate Turn(pixels: seq<Cell>, exts: seq<Extent>, next: seq<Extent>, k: nat, axis: Axis, cut: int) {
    && FirstLargest(pixels, exts, k) && |next| == |exts| + 1
    && next[1..] == exts[k := next[k+1]] && CutInTwo(pixels, exts[k], axis, cut, next[0], next[k+1])
  }

  ghost predicate Follows(pixels: seq<Cell>, exts: seq<Extent>, next: seq<Extent>) {
    exists k: nat, axis, cut :: Turn(pixels, exts, next, k, axis, cut)
  }

  /** Boxes that come about by such turns from the smallest box of all pixels. */
  ghost predicate ByTurns(pixels: seq<Cell>, exts: seq<Extent>)
    decreases |exts|
  {
    if |exts| <= 1 then |exts| == 1 && Bounds(pixels, exts[0])
    else exists before: seq<Extent> :: |before| == |exts| - 1 && ByTurns(pixels, before) && Follows(pixels, before, exts)
  }

  /** There is only one smallest box of some pixels. */
  lemma OneSmallest(pixels: seq<Cell>, e: Extent, a: Extent, b: Extent)
    requires Fitting(pixels, a) && Shrunk(pixels, a, e) && Fitting(pixels, b) && Shrunk(pixels, b, e)
    ensures a == b
  {
    forall axis: Axis ensures a.Lo(axis) == b.Lo(axis) && a.Hi(axis) == b.Hi(axis) {
      SmallestWithin(pixels, e, a, b, axis);
      SmallestWithin(pixels, e, b, a, axis);
    }
    assert a.Lo(Red) == b.Lo(Red) && a.Lo(Green) == b.Lo(Green) && a.Lo(Blue) == b.Lo(Blue);
    assert a.Hi(Red) == b.Hi(Red) && a.Hi(Green) == b.Hi(Green) && a.Hi(Blue) == b.Hi(Blue);
  }

  lemma SmallestWithin(pixels: seq<Cell>, e: Extent, a: Extent, b: Extent, axis: Axis)
    requires TightOn(pixels, a, axis) && Shrunk(pixels, a, e) && Shrunk(pixels, b, e)
    ensures b.Lo(axis) <= a.Lo(axis) && a.Hi(axis) <= b.Hi(axis)
  {
    var low :| 0 <= low < |pixels| && a.Contains(pixels[low]) && pixels[low].On(axis) == a.Lo(axis);
    var high :| 0 <= high < |pixels| && a.Contains(pixels[high]) && pixels[high].On(axis) == a.Hi(axis);
    assert e.Contains(pixels[low]) && e.Contains(pixels[high]);
    ContainsByAxis(b, axis, pixels[low]);
    ContainsByAxis(b, axis, pixels[high]);
  }

  /** The further a range of slices goes, the more pixels it has. */
  lemma {:induction false} TotalUpTo(pixels: seq<Cell>, e: Extent, axis: Axis, m: int, n: int)
    requires e.Lo(axis) <= m <= n
    ensures Total(pixels, e.With(axis, e.Lo(axis), m)) <= Total(pixels, e.With(axis, e.Lo(axis), n))
    decreases n - m
  {
    if m < n {
      TotalUpTo(pixels, e, axis, m, n - 1);
      TotalGrows(pixels, e, axis, e.Lo(axis), n);
    }
  }

  lemma OneMedian(pixels: seq<Cell>, e: Extent, axis: Axis, a: int, b: int)
    requires AtMedian(pixels, e, axis, a) && AtMedian(pixels, e, axis, b)
    ensures a == b
  {
    hide Total;
    if a < b { TotalUpTo(pixels, e, axis, a, b - 1); }
    if b < a { TotalUpTo(pixels, e, axis, b, a - 1); }
  }

  lemma OneCut(pixels: seq<Cell>, e: Extent, axis: Axis, cut: int, lower: Extent, upper: Extent,
               axis': Axis, cut': int, lower': Extent, upper': Extent)
    requires CutInTwo(pixels, e, axis, cut, lower, upper) && CutInTwo(pixels, e, axis', cut', lower', upper')
    ensures lower == lower' && upper == upper'
  {
    hide Fitting, Shrunk, AtMedian;
    OneMedian(pixels, e, axis, cut, cut');
    OneSmallest(pixels, e.With(axis, e.Lo(axis), cut - 1), lower, lower');
    OneSmallest(pixels, e.With(axis, cut, e.Hi(axis)), upper, upper');
  }

  lemma OneTurn(pixels: seq<Cell>, exts: seq<Extent>, a: seq<Extent>, b: seq<Extent>)
    requires Follows(pixels, exts, a) && Follows(pixels, exts, b)
    ensures a == b
  {
    hide CutInTwo, Total;
    var k: nat, axis, cut :| Turn(pixels, exts, a, k, axis, cut);
    var k': nat, axis', cut' :| Turn(pixels, exts, b, k', axis', cut');
    assert k == k';
    OneCut(pixels, exts[k], axis, cut, a[0], a[k+1], axis', cut', b[0], b[k+1]);
    assert a == [a[0]] + a[1..] && b == [b[0]] + b[1..];
  }

  /** The rules leave no choice: as many boxes come about in one way only. */
  lemma {:induction false} TurnsLeaveNoChoice(pixels: seq<Cell>, a: seq<Extent>, b: seq<Extent>)
    requires |pixels| > 0 && |a| == |b| && ByTurns(pixels, a) && ByTurns(pixels, b)
    ensures a == b
    decreases |a|
  {
    hide Follows;
    if |a| == 1 {
      OneSmallest(pixels, a[0], a[0], b[0]);
      assert a == [a[0]] && b == [b[0]];
    } else {
      var c: seq<Extent> :| |c| == |a| - 1 && ByTurns(pixels, c) && Follows(pixels, c, a);
      var d: seq<Extent> :| |d| == |b| - 1 && ByTurns(pixels, d) && Follows(pixels, d, b);
      TurnsLeaveNoChoice(pixels, c, d);
      OneTurn(pixels, c, a, b);
    }
  }

  lemma HalvesOccupied(pixels: seq<Cell>, e: Extent, axis: Axis, i: int)
    requires Fitting(pixels, e) && e.Lo(axis) < i <= e.Hi(axis)
    ensures var lower, upper := e.With(axis, e.Lo(axis), i - 1), e.With(axis, i, e.Hi(axis));
            lower.InCube() && upper.InCube() && Occupied(pixels, lower) && Occupied(pixels, upper)
  {
  }

  /** Cuts a box in two at its median: the box keeps the upper part, a new one takes the lower. */
  method SplitBox(box: Colorbox, hist: array3<int>, ghost pixels: seq<Cell>)
    returns (newBox: Colorbox, ghost axis: Axis, ghost cut: int)
    requires IsHistogram(hist, pixels) && Fitting(pixels, box.Extents()) && box.Extents().Splittable()
    requires box.total == Total(pixels, box.Extents())
    modifies box
    ensures fresh(newBox)
    ensures CutInTwo(pixels, old(box.Extents()), axis, cut, newBox.Extents(), box.Extents())
    ensures newBox.total == Total(pixels, newBox.Extents()) && box.total == Total(pixels, box.Extents())
  {
    var e := box.Extents();
    var ax := LongestAxis(e);
    var i, sum1, sum2 := ChooseCut(hist, e, ax, box.total, pixels);
    axis, cut := ax, i;
    HalvesOccupied(pixels, e, ax, i);
    newBox := TakeHalves(box, hist, e, ax, i, sum1, sum2, pixels);
    ShrunkTotal(pixels, newBox.Extents(), e.With(ax, e.Lo(ax), i - 1));
    ShrunkTotal(pixels, box.Extents(), e.With(ax, i, e.Hi(ax)));
  }

  /** The cut position and the totals on both sides of it. */
  method ChooseCut(hist: array3<int>, e: Extent, axis: Axis, total: int, ghost pixels: seq<Cell>)
    returns (i: int, sum1: int, sum2: int)
    requires IsHistogram(hist, pixels) && e.InCube() && e.Hi(axis) > e.Lo(axis) && total == Total(pixels, e)
    ensures e.Lo(axis) < i <= e.Hi(axis)
    ensures i > e.Lo(axis) + 1 ==> Total(pixels, e.With(axis, e.Lo(axis), i - 1)) < total / 2
    ensures Total(pixels, e.With(axis, e.Lo(axis), i)) >= total / 2
    ensures sum1 == Total(pixels, e.With(axis, e.Lo(axis), i - 1)) && sum2 == Total(pixels, e.With(axis, i, e.Hi(axis)))
  {
    var hist2 := AxisHistogram(hist, e, axis, pixels);
    i := MedianCutPoint(hist2, e, axis, total, pixels);
    sum1 := SumSlices(hist2, e, axis, e.Lo(axis), i - 1, pixels);
    sum2 := SumSlices(hist2, e, axis, i, e.Hi(axis), pixels);
  }

  method TakeHalves(box: Colorbox, hist: array3<int>, e: Extent, axis: Axis, i: int, sum1: int, sum2: int, ghost pixels: seq<Cell>)
    returns (newBox: Colorbox)
    requires IsHistogram(hist, pixels) && e == box.Extents()
    requires var lower, upper := e.With(axis, e.Lo(axis), i - 1), e.With(axis, i, e.Hi(axis));
             lower.InCube() && upper.InCube() && Occupied(pixels, lower) && Occupied(pixels, upper)
    modifies box
    ensures fresh(newBox) && newBox.total == sum1 && box.total == sum2
    ensures Fitting(pixels, newBox.Extents()) && Shrunk(pixels, newBox.Extents(), e.With(axis, e.Lo(axis), i - 1))
    ensures Fitting(pixels, box.Extents()) && Shrunk(pixels, box.Extents(), e.With(axis, i, e.Hi(axis)))
  {
    newBox := new Colorbox(e, sum1);
    box.total := sum2;
    newBox.SetRange(axis, e.Lo(axis), i - 1);
    box.SetRange(axis, i, e.Hi(axis));
    ShrinkBox(newBox, hist, pixels);
    ShrinkBox(box, hist, pixels);
  }

  // ---------------------------------------------------------------------
  //  The subdivision loop
  // ---------------------------------------------------------------------

  ghost function ExtentsOf(used: seq<Colorbox>): (r: seq<Extent>)
    reads used
    ensures |r| == |used| && forall i :: 0 <= i < |used| ==> r[i] == used[i].Extents()
  {
    seq(|used|, i requires 0 <= i < |used| reads used => used[i].Extents())
  }

  ghost predicate TotalsRight(pixels: seq<Cell>, used: seq<Colorbox>)
    reads used
  {
    forall i :: 0 <= i < |used| ==> used[i].total == Total(pixels, used[i].Extents())
  }

  ghost predicate Distinct(used: seq<Colorbox>) {
    forall i, j :: 0 <= i < j < |used| ==> used[i] != used[j]
  }

  /** The first splittable box with the most pixels; -1 when every box is a single cell. */
  method LargestBox(used: seq<Colorbox>) returns (b: int)
    requires forall i :: 0 <= i < |used| ==> used[i].total >= 0
    ensures -1 <= b < |used|
    ensures b == -1 <==> forall i :: 0 <= i < |used| ==> !used[i].Extents().Splittable()
    ensures b != -1 ==> used[b].Extents().Splittable()
                        && forall i :: 0 <= i < |used| && used[i].Extents().Splittable() ==> used[i].total <= used[b].total
    ensures b != -1 ==> forall i :: 0 <= i < b && used[i].Extents().Splittable() ==> used[i].total < used[b].total
  {
    b := -1;
    var size := -1;
    for p := 0 to |used|
      invariant -1 <= b < p
      invariant b == -1 ==> size == -1 && forall i :: 0 <= i < p ==> !used[i].Extents().Splittable()
      invariant b != -1 ==> used[b].Extents().Splittable() && size == used[b].total
      invariant forall i :: 0 <= i < p && used[i].Extents().Splittable() ==> used[i].total <= size
      invariant forall i :: 0 <= i < b && used[i].Extents().Splittable() ==> used[i].total < size
    {
      if used[p].Extents().Splittable() && used[p].total > size {
        b := p;
        size := used[p].total;
      }
    }
  }

  /** Distinct boxes that partition the pixels, with the right totals. */
  ghost predicate BoxesRight(pixels: seq<Cell>, used: seq<Colorbox>)
    reads used
  {
    Distinct(used) && Partition(pixels, ExtentsOf(used)) && TotalsRight(pixels, used)
  }

  class Subdivision {
    var used: seq<Colorbox>
    var free: nat

    ghost predicate Valid(pixels: seq<Cell>)
      reads this, used
    {
      BoxesRight(pixels, used)
    }

    constructor (first: Colorbox, colors: nat)
      requires colors > 0
      ensures used == [first] && free == colors - 1
    {
      used, free := [first], colors - 1;
    }

    /** Splits box k; the new box goes to the front of the list. */
    method Split(k: nat, hist: array3<int>, ghost pixels: seq<Cell>)
      requires IsHistogram(hist, pixels) && Valid(pixels) && free > 0 && k < |used| && FirstLargest(pixels, ExtentsOf(used), k)
      modifies this, used[k]
      ensures Valid(pixels) && Follows(pixels, old(ExtentsOf(used)), ExtentsOf(used))
      ensures |used| == |old(used)| + 1 && used[1..] == old(used) && fresh(used[0]) && free == old(free) - 1
      ensures forall i :: 0 <= i < |used| ==> used[i] in old(used) || fresh(used[i])
    {
      hide Partition, IsHistogram, TotalsRight, Follows, Total, FirstLargest, Distinct;
      var newBox := SplitAmong(used, k, hist, pixels);
      BoxInFront(newBox, used, pixels);
      PutInFront(newBox, pixels);
    }

    /** Moves a box from the free list to the front of the used ones. */
    method PutInFront(newBox: Colorbox, ghost pixels: seq<Cell>)
      requires free > 0 && BoxesRight(pixels, [newBox] + used)
      modifies this
      ensures Valid(pixels) && used == [newBox] + old(used) && free == old(free) - 1
      ensures ExtentsOf(used) == [newBox.Extents()] + old(ExtentsOf(used))
    {
      hide BoxesRight;
      free := free - 1;
      used := [newBox] + used;
    }

    /** No more boxes than colours, and none left to split once no box is free. */
    ghost predicate Underway(pixels: seq<Cell>, colors: nat)
      reads this, used
    {
      && Valid(pixels) && |used| <= colors
      && (free > 0 ==> |used| + free == colors)
      && (free == 0 ==> |used| == colors || forall i :: 0 <= i < |used| ==> !used[i].Extents().Splittable())
      && ByTurns(pixels, ExtentsOf(used))
    }

    /** One turn: splits the largest box, or gives up the free boxes when none can be split. */
    method Step(hist: array3<int>, colors: nat, ghost pixels: seq<Cell>)
      requires IsHistogram(hist, pixels) && Underway(pixels, colors) && free > 0
      modifies this, used
      ensures Underway(pixels, colors) && free < old(free)
      ensures forall i :: 0 <= i < |used| ==> used[i] in old(used) || fresh(used[i])
    {
      hide Partition, IsHistogram, Follows, Total, Distinct;
      var b := LargestBox(used);
      if b != -1 {
        assert FirstLargest(pixels, ExtentsOf(used), b);
        Split(b, hist, pixels);
      } else {
        free := 0;
      }
    }
  }

  /** Splits one of several distinct boxes; the others stay as they are. */
  method SplitAmong(used: seq<Colorbox>, k: nat, hist: array3<int>, ghost pixels: seq<Cell>) returns (newBox: Colorbox)
    requires IsHistogram(hist, pixels) && k < |used| && FirstLargest(pixels, ExtentsOf(used), k)
    requires Distinct(used) && Partition(pixels, ExtentsOf(used)) && TotalsRight(pixels, used)
    modifies used[k]
    ensures fresh(newBox) && newBox.total == Total(pixels, newBox.Extents()) && TotalsRight(pixels, used)
    ensures Partition(pixels, [newBox.Extents()] + ExtentsOf(used))
    ensures Follows(pixels, old(ExtentsOf(used)), [newBox.Extents()] + ExtentsOf(used))
  {
    ghost var exts := ExtentsOf(used);
    assert Fitting(pixels, exts[k]);
    ghost var axis, cut;
    newBox, axis, cut := SplitBox(used[k], hist, pixels);
    SplitKeepsPartition(pixels, exts, k, axis, cut, newBox.Extents(), used[k].Extents());
    assert ExtentsOf(used) == exts[k := used[k].Extents()];
    assert Turn(pixels, exts, [newBox.Extents()] + ExtentsOf(used), k, axis, cut);
  }

  lemma BoxInFront(newBox: Colorbox, used: seq<Colorbox>, pixels: seq<Cell>)
    requires newBox !in used && Distinct(used) && TotalsRight(pixels, used) && newBox.total == Total(pixels, newBox.Extents())
    requires Partition(pixels, [newBox.Extents()] + ExtentsOf(used))
    ensures BoxesRight(pixels, [newBox] + used)
  {
    assert ExtentsOf([newBox] + used) == [newBox.Extents()] + ExtentsOf(used);
  }

  // ---------------------------------------------------------------------
  //  The whole computation
  // ---------------------------------------------------------------------

  /** A colour of three bytes. */
  datatype Rgb = Rgb(r: int, g: int, b: int) {
    predicate IsBytes() {
      0 <= r < 256 && 0 <= g < 256 && 0 <= b < 256
    }

    function ToCell(): Cell {
      Cell(r / COLOR_SHIFT_FACTOR, g / COLOR_SHIFT_FACTOR, b / COLOR_SHIFT_FACTOR)
    }
  }

  ghost function CellsOf(img: seq<Rgb>): (r: seq<Cell>)
    ensures |r| == |img| && forall k :: 0 <= k < |img| ==> r[k] == img[k].ToCell()
  {
    seq(|img|, k requires 0 <= k < |img| => img[k].ToCell())
  }

  lemma CountOne(pixels: seq<Cell>, c: Cell, d: Cell)
    ensures Total(pixels + [c], Single(d)) == Total(pixels, Single(d)) + (if c == d then 1 else 0)
  {
    OnePixelMore(pixels, c, d);
  }

  lemma OnePixelMore(pixels: seq<Cell>, c: Cell, d: Cell)
    ensures PixelsIn(pixels + [c], Single(d)) == PixelsIn(pixels, Single(d)) + (if c == d then {|pixels|} else {})
  {
  }

  function Widened(e: Extent, c: Cell): Extent {
    Extent(Lesser(e.rmin, c.r), Greater(e.rmax, c.r), Lesser(e.gmin, c.g), Greater(e.gmax, c.g), Lesser(e.bmin, c.b), Greater(e.bmax, c.b))
  }

  const NOTHING_SEEN := Extent(999, -1, 999, -1, 999, -1)

  /** The bounds of the pixels seen so far. */
  ghost predicate Bounds(pixels: seq<Cell>, e: Extent) {
    if |pixels| == 0 then e == NOTHING_SEEN
    else Fitting(pixels, e) && forall k :: 0 <= k < |pixels| ==> e.Contains(pixels[k])
  }

  lemma WidenKeepsBounds(pixels: seq<Cell>, e: Extent, c: Cell)
    requires Bounds(pixels, e) && c.InCube()
    ensures Bounds(pixels + [c], Widened(e, c))
  {
    var more, f := pixels + [c], Widened(e, c);
    assert more[|pixels|] == c && f.Contains(c);
    forall k | 0 <= k < |more| ensures f.Contains(more[k]) {
      if k < |pixels| { assert more[k] == pixels[k]; }
    }
    forall axis: Axis ensures TightOn(more, f, axis) {
      forall s | s == f.Lo(axis) || s == f.Hi(axis) ensures TouchedAt(more, f, axis, s) {
        if s != c.On(axis) {
          assert TightOn(pixels, e, axis);
          var k :| 0 <= k < |pixels| && e.Contains(pixels[k]) && pixels[k].On(axis) == s;
          assert more[k] == pixels[k];
        }
      }
    }
  }

  method EmptyHistogram() returns (hist: array3<int>)
    ensures fresh(hist) && IsHistogram(hist, [])
  {
    hist := new int[B_LEN, B_LEN, B_LEN]((i, j, k) => 0);
    assert forall c: Cell :: PixelsIn([], Single(c)) == {};
  }

  method CountPixel(hist: array3<int>, c: Cell, ghost pixels: seq<Cell>)
    requires IsHistogram(hist, pixels) && c.InCube()
    modifies hist
    ensures IsHistogram(hist, pixels + [c])
  {
    hist[c.r, c.g, c.b] := hist[c.r, c.g, c.b] + 1;
    forall d: Cell | d.InCube() ensures hist[d.r, d.g, d.b] == Total(pixels + [c], Single(d)) {
      CountOne(pixels, c, d);
    }
  }

  /** Counts one more pixel and widens the bounds to hold it. */
  method AddPixel(hist: array3<int>, e: Extent, c: Cell, ghost pixels: seq<Cell>) returns (e': Extent)
    requires IsHistogram(hist, pixels) && Bounds(pixels, e) && c.InCube()
    modifies hist
    ensures IsHistogram(hist, pixels + [c]) && Bounds(pixels + [c], e')
  {
    WidenKeepsBounds(pixels, e, c);
    e' := Widened(e, c);
    CountPixel(hist, c, pixels);
  }

  /** The histogram of the image and the box that bounds all of it. */
  method CollectHistogram(img: seq<Rgb>) returns (hist: array3<int>, box: Colorbox)
    requires forall k :: 0 <= k < |img| ==> img[k].IsBytes()
    ensures fresh(hist) && fresh(box) && IsHistogram(hist, CellsOf(img))
    ensures Bounds(CellsOf(img), box.Extents()) && box.total == |img|
  {
    hide Total, PixelsIn, CellsOf;
    ghost var pixels := CellsOf(img);
    hist := EmptyHistogram();
    var e := NOTHING_SEEN;
    for i := 0 to |img|
      invariant IsHistogram(hist, pixels[..i]) && Bounds(pixels[..i], e)
    {
      assert pixels[..i+1] == pixels[..i] + [img[i].ToCell()];
      e := AddPixel(hist, e, img[i].ToCell(), pixels[..i]);
    }
    assert pixels[..|img|] == pixels;
    box := new Colorbox(e, |img|);
  }

  lemma OneBox(pixels: seq<Cell>, e: Extent)
    requires |pixels| > 0 && Bounds(pixels, e)
    ensures Partition(pixels, [e]) && Total(pixels, e) == |pixels|
  {
    assert PixelsIn(pixels, e) == Indices(|pixels|);
    forall k | 0 <= k < |pixels| ensures Covered([e], pixels[k]) {
      assert [e][0].Contains(pixels[k]);
    }
  }

  /** Splits until the boxes run out or none can be split. */
  method Subdivide(first: Colorbox, hist: array3<int>, colors: nat, ghost pixels: seq<Cell>) returns (used: seq<Colorbox>, ghost exts: seq<Extent>)
    requires IsHistogram(hist, pixels) && |pixels| > 0 && colors > 0
    requires Bounds(pixels, first.Extents()) && first.total == |pixels|
    modifies first
    ensures |exts| == |used| && forall i :: 0 <= i < |used| ==> exts[i] == used[i].Extents() && used[i].total == Total(pixels, exts[i])
    ensures Partition(pixels, exts) && |exts| == Lesser(colors, |OccupiedCells(pixels)|)
    ensures ByTurns(pixels, exts)
  {
    hide Follows, ByTurns, IsHistogram, Partition;
    var sub := Begin(first, colors, pixels);
    while sub.free > 0
      invariant fresh(sub) && sub.Underway(pixels, colors)
      invariant forall i :: 0 <= i < |sub.used| ==> sub.used[i] == first || fresh(sub.used[i])
      decreases sub.free
    {
      sub.Step(hist, colors, pixels);
    }
    used := sub.used;
    exts := ExtentsOf(used);
    BoxCount(pixels, exts);
  }

  method Begin(first: Colorbox, colors: nat, ghost pixels: seq<Cell>) returns (sub: Subdivision)
    requires |pixels| > 0 && colors > 0 && Bounds(pixels, first.Extents()) && first.total == |pixels|
    ensures fresh(sub) && sub.Underway(pixels, colors) && sub.used == [first]
  {
    OneBox(pixels, first.Extents());
    sub := new Subdivision(first, colors);
    assert ExtentsOf(sub.used) == [first.Extents()];
  }

  /** The colour of a box: the middle of its cells. */
  function Entry(e: Extent): Rgb {
    Rgb(((e.rmin + e.rmax) * COLOR_SHIFT_FACTOR) / 2, ((e.gmin + e.gmax) * COLOR_SHIFT_FACTOR) / 2,
        ((e.bmin + e.bmax) * COLOR_SHIFT_FACTOR) / 2)
  }

  datatype Palette = BadColorCount | Palette(colors: seq<Rgb>)

  /** The colours are those of a partition of the pixels into boxes that came about by the turns. */
  ghost predicate ColorsOf(pixels: seq<Cell>, exts: seq<Extent>, colors: seq<Rgb>) {
    && Partition(pixels, exts) && ByTurns(pixels, exts)
    && |exts| == |colors| && forall i :: 0 <= i < |exts| ==> colors[i] == Entry(exts[i])
  }

  ghost predicate PaletteOf(pixels: seq<Cell>, colors: seq<Rgb>) {
    exists exts :: ColorsOf(pixels, exts, colors)
  }

  /** So there is only one palette of a number of colours. */
  lemma OnePalette(pixels: seq<Cell>, a: seq<Rgb>, b: seq<Rgb>)
    requires |pixels| > 0 && |a| == |b| && PaletteOf(pixels, a) && PaletteOf(pixels, b)
    ensures a == b
  {
    hide Partition, ByTurns, Entry;
    var c :| ColorsOf(pixels, c, a);
    var d :| ColorsOf(pixels, d, b);
    TurnsLeaveNoChoice(pixels, c, d);
  }

  lemma ColorsDistinct(pixels: seq<Cell>, exts: seq<Extent>, colors: seq<Rgb>, i: nat, j: nat)
    requires ColorsOf(pixels, exts, colors) && i < j < |colors|
    ensures colors[i] != colors[j] && colors[i].IsBytes() && colors[j].IsBytes()
  {
  }

  lemma AllColorsDistinct(pixels: seq<Cell>, exts: seq<Extent>, colors: seq<Rgb>)
    requires ColorsOf(pixels, exts, colors)
    ensures forall i, j :: 0 <= i < j < |colors| ==> colors[i] != colors[j]
  {
    forall i, j | 0 <= i < j < |colors| ensures colors[i] != colors[j] {
      ColorsDistinct(pixels, exts, colors, i, j);
    }
  }

  /** c is halfway between the lowest and the highest cell of a group on one channel, a cell being eight bytes wide. */
  ghost predicate Midway(bytes: seq<int>, group: seq<int>, i: int, c: int)
    requires |group| == |bytes|
  {
    exists low, high :: 0 <= low < |bytes| && 0 <= high < |bytes| && Midst(bytes, group, i, c, low, high)
  }

  ghost predicate Midst(bytes: seq<int>, group: seq<int>, i: int, c: int, low: int, high: int)
    requires |group| == |bytes| && 0 <= low < |bytes| && 0 <= high < |bytes|
  {
    && group[low] == group[high] == i && 2 * c == 8 * (bytes[low] / 8 + bytes[high] / 8)
    && forall k :: 0 <= k < |bytes| && group[k] == i ==> bytes[low] / 8 <= bytes[k] / 8 <= bytes[high] / 8
  }

  /** Every pixel belongs to a colour, and every colour is in the middle of its pixels on each channel. */
  ghost predicate Groups(img: seq<Rgb>, colors: seq<Rgb>, group: seq<int>) {
    && |group| == |img|
    && (forall k :: 0 <= k < |img| ==> 0 <= group[k] < |colors|)
    && forall i :: 0 <= i < |colors| ==>
         && Midway(seq(|img|, k requires 0 <= k < |img| => img[k].r), group, i, colors[i].r)
         && Midway(seq(|img|, k requires 0 <= k < |img| => img[k].g), group, i, colors[i].g)
         && Midway(seq(|img|, k requires 0 <= k < |img| => img[k].b), group, i, colors[i].b)
  }

  /** The box of each of the first n pixels. */
  lemma {:induction false} BoxesOf(pixels: seq<Cell>, exts: seq<Extent>, n: nat) returns (group: seq<int>)
    requires AllCovered(pixels, exts) && n <= |pixels|
    ensures |group| == n && forall k :: 0 <= k < n ==> 0 <= group[k] < |exts| && exts[group[k]].Contains(pixels[k])
  {
    if n == 0 {
      group := [];
    } else {
      group := BoxesOf(pixels, exts, n - 1);
      assert Covered(exts, pixels[n-1]);
      var i :| 0 <= i < |exts| && exts[i].Contains(pixels[n-1]);
      group := group + [i];
    }
  }

  lemma OnlyBox(exts: seq<Extent>, i: nat, j: nat, c: Cell)
    requires AllApart(exts) && i < |exts| && j < |exts| && exts[i].Contains(c) && exts[j].Contains(c)
    ensures i == j
  {
    NotApart(exts[i], exts[j], c);
  }

  lemma NotApart(e: Extent, f: Extent, c: Cell)
    requires e.Contains(c) && f.Contains(c)
    ensures !Apart(e, f) && !Apart(f, e)
  {
  }

  /** A pixel of the box on one of its faces, which no other box holds. */
  lemma OwnPixel(pixels: seq<Cell>, exts: seq<Extent>, group: seq<int>, i: nat, axis: Axis, s: int) returns (k: nat)
    requires AllApart(exts) && |group| == |pixels| && i < |exts| && TouchedAt(pixels, exts[i], axis, s)
    requires forall k :: 0 <= k < |pixels| ==> 0 <= group[k] < |exts| && exts[group[k]].Contains(pixels[k])
    ensures k < |pixels| && group[k] == i && pixels[k].On(axis) == s
  {
    hide Extent.Contains, AllApart;
    k :| k < |pixels| && exts[i].Contains(pixels[k]) && pixels[k].On(axis) == s;
    OnlyBox(exts, i, group[k], pixels[k]);
  }

  ghost predicate CellsOn(bytes: seq<int>, pixels: seq<Cell>, axis: Axis) {
    |bytes| == |pixels| && forall k :: 0 <= k < |pixels| ==> pixels[k].On(axis) == bytes[k] / 8
  }

  /** On one channel the middle of a tight box is in the middle of its pixels. */
  lemma BoxMidway(bytes: seq<int>, pixels: seq<Cell>, exts: seq<Extent>, group: seq<int>, i: nat, axis: Axis, c: int)
    requires AllApart(exts) && |group| == |pixels| && i < |exts| && TightOn(pixels, exts[i], axis) && CellsOn(bytes, pixels, axis)
    requires forall k :: 0 <= k < |pixels| ==> 0 <= group[k] < |exts| && exts[group[k]].Contains(pixels[k])
    requires 2 * c == 8 * (exts[i].Lo(axis) + exts[i].Hi(axis))
    ensures Midway(bytes, group, i, c)
  {
    hide AllApart, TouchedAt, Extent.Contains, Extent.Lo, Extent.Hi, Cell.On;
    var low := OwnPixel(pixels, exts, group, i, axis, exts[i].Lo(axis));
    var high := OwnPixel(pixels, exts, group, i, axis, exts[i].Hi(axis));
    forall k | 0 <= k < |bytes| && group[k] == i ensures bytes[low] / 8 <= bytes[k] / 8 <= bytes[high] / 8 {
      ContainsByAxis(exts[i], axis, pixels[k]);
    }
    assert Midst(bytes, group, i, c, low, high);
  }

  lemma CellsOnChannels(img: seq<Rgb>)
    ensures CellsOn(seq(|img|, k requires 0 <= k < |img| => img[k].r), CellsOf(img), Red)
    ensures CellsOn(seq(|img|, k requires 0 <= k < |img| => img[k].g), CellsOf(img), Green)
    ensures CellsOn(seq(|img|, k requires 0 <= k < |img| => img[k].b), CellsOf(img), Blue)
  {
  }

  lemma EntryMidway(e: Extent)
    ensures 2 * Entry(e).r == 8 * (e.Lo(Red) + e.Hi(Red))
    ensures 2 * Entry(e).g == 8 * (e.Lo(Green) + e.Hi(Green))
    ensures 2 * Entry(e).b == 8 * (e.Lo(Blue) + e.Hi(Blue))
  {
    HalfOfEight(e.rmin + e.rmax);
    HalfOfEight(e.gmin + e.gmax);
    HalfOfEight(e.bmin + e.bmax);
  }

  lemma HalfOfEven(n: int, half: int)
    requires n == 2 * half
    ensures n / 2 == half
  {
  }

  lemma HalfOfEight(k: int)
    ensures 2 * ((k * COLOR_SHIFT_FACTOR) / 2) == 8 * k
  {
    HalfOfEven(k * COLOR_SHIFT_FACTOR, 4 * k);
  }

  lemma PaletteGroups(img: seq<Rgb>, exts: seq<Extent>, colors: seq<Rgb>) returns (group: seq<int>)
    requires ColorsOf(CellsOf(img), exts, colors)
    ensures Groups(img, colors, group)
  {
    hide Midway, CellsOn, CellsOf, Extent.Lo, Extent.Hi, Entry, Extent.Contains, AllApart, TightOn, AllCovered;
    var pixels := CellsOf(img);
    group := BoxesOf(pixels, exts, |pixels|);
    CellsOnChannels(img);
    forall i | 0 <= i < |colors|
      ensures Midway(seq(|img|, k requires 0 <= k < |img| => img[k].r), group, i, colors[i].r)
      ensures Midway(seq(|img|, k requires 0 <= k < |img| => img[k].g), group, i, colors[i].g)
      ensures Midway(seq(|img|, k requires 0 <= k < |img| => img[k].b), group, i, colors[i].b)
    {
      assert Fitting(pixels, exts[i]);
      EntryMidway(exts[i]);
      BoxMidway(seq(|img|, k requires 0 <= k < |img| => img[k].r), pixels, exts, group, i, Red, colors[i].r);
      BoxMidway(seq(|img|, k requires 0 <= k < |img| => img[k].g), pixels, exts, group, i, Green, colors[i].g);
      BoxMidway(seq(|img|, k requires 0 <= k < |img| => img[k].b), pixels, exts, group, i, Blue, colors[i].b);
    }
  }

  /** One colour for each box. */
  method Entries(used: seq<Colorbox>, ghost exts: seq<Extent>) returns (colors: seq<Rgb>)
    requires |exts| == |used| && forall i :: 0 <= i < |used| ==> used[i].Extents() == exts[i]
    ensures |colors| == |exts| && forall i :: 0 <= i < |exts| ==> colors[i] == Entry(exts[i])
  {
    colors := [];
    for i := 0 to |used|
      invariant |colors| == i && forall k :: 0 <= k < i ==> colors[k] == Entry(exts[k])
    {
      colors := colors + [Entry(used[i].Extents())];
    }
  }

  /** The palette: as many distinct colours as asked for, or one for every occupied cell if those are fewer. */
  method ComputeMedianCutPct(img: seq<Rgb>, nColors: int) returns (p: Palette)
    requires |img| > 0 && forall k :: 0 <= k < |img| ==> img[k].IsBytes()
    ensures p.BadColorCount? <==> nColors <= 0 || nColors > 256
    ensures p.Palette? ==> |p.colors| == Lesser(nColors, |OccupiedCells(CellsOf(img))|)
    ensures p.Palette? ==> PaletteOf(CellsOf(img), p.colors)
    ensures p.Palette? ==> exists group :: Groups(img, p.colors, group)
    ensures p.Palette? ==> forall i, j :: 0 <= i < j < |p.colors| ==> p.colors[i] != p.colors[j]
  {
    if nColors <= 0 || nColors > 256 {
      return BadColorCount;
    }
    ghost var pixels := CellsOf(img);
    var hist, first := CollectHistogram(img);
    var used, exts := Subdivide(first, hist, nColors, pixels);
    var colors := Entries(used, exts);
    AllColorsDistinct(pixels, exts, colors);
    assert ColorsOf(pixels, exts, colors);
    assert PaletteOf(pixels, colors);
    ghost var group := PaletteGroups(img, exts, colors);
    return Palette(colors);
  }
}
