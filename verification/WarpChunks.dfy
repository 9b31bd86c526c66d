/** Splitting a warp into chunks that fit in memory, and warping them one after another
    (gdalwarpoperation.cpp). */
module WarpChunks {
  import opened Basics

  datatype Window = Window(xOff: int, yOff: int, xSize: int, ySize: int) {
    predicate Contains(p: Pixel) {
      xOff <= p.x < xOff + xSize && yOff <= p.y < yOff + ySize
    }

    function Area(): int {
      xSize * ySize
    }
  }

  /** A part of the destination and the part of the source that it needs. */
  datatype Chunk = Chunk(dst: Window, src: Window)

  datatype WarpOptions = WarpOptions(
    wordBits: nat,
    bandCount: nat,
    srcDensityMask: bool,
    srcBandValidityMask: bool,
    srcValidityMask: bool,
    dstDensityMask: bool,
    dstValidityMask: bool,
    skipNoSource: bool,
    warpMemoryLimit: real,
    initDest: Option<int>)
  {
    function SrcPixelBits(): nat {
      wordBits * bandCount + (if srcDensityMask then 32 else 0)
      + (if srcBandValidityMask then bandCount else 0) + (if srcValidityMask then 1 else 0)
    }

    function DstPixelBits(): nat {
      wordBits * bandCount + (if dstDensityMask then 32 else 0) + (if dstValidityMask then bandCount else 0)
    }

    /** The bytes needed to warp a chunk. */
    function MemoryUse(c: Chunk): real {
      ((SrcPixelBits() * c.src.Area()) as real + (DstPixelBits() * c.dst.Area()) as real) / 8.0
    }

    predicate Exceeds(c: Chunk) {
      MemoryUse(c) > warpMemoryLimit
    }
  }

  /** The bits that a chunk needs for its bands, masks and densities are more than the limit's. */
  lemma ExceedsInBits(options: WarpOptions, c: Chunk)
    ensures options.Exceeds(c) <==>
              (options.wordBits * options.bandCount
               + (if options.srcDensityMask then 32 else 0)
               + (if options.srcBandValidityMask then options.bandCount else 0)
               + (if options.srcValidityMask then 1 else 0)) as real * (c.src.xSize * c.src.ySize) as real
              + (options.wordBits * options.bandCount
                 + (if options.dstDensityMask then 32 else 0)
                 + (if options.dstValidityMask then options.bandCount else 0)) as real * (c.dst.xSize * c.dst.ySize) as real
              > 8.0 * options.warpMemoryLimit
  {
    ProductAsReal(options.SrcPixelBits(), c.src.Area());
    ProductAsReal(options.DstPixelBits(), c.dst.Area());
  }

  lemma ProductAsReal(a: int, b: int)
    ensures (a * b) as real == a as real * b as real
  {
  }

  predicate MustSplit(options: WarpOptions, c: Chunk) {
    options.Exceeds(c) && (c.dst.xSize > 2 || c.dst.ySize > 2)
  }

  /** The halves of a window across its longer side. */
  function Halves(w: Window): (h: (Window, Window)) {
    if w.xSize > w.ySize then
      (w.(xSize := w.xSize / 2), w.(xOff := w.xOff + w.xSize / 2, xSize := w.xSize - w.xSize / 2))
    else
      (w.(ySize := w.ySize / 2), w.(yOff := w.yOff + w.ySize / 2, ySize := w.ySize - w.ySize / 2))
  }

  function Size(w: Window): nat {
    (if w.xSize > 0 then w.xSize else 0) + (if w.ySize > 0 then w.ySize else 0)
  }

  lemma HalvesSmaller(w: Window)
    requires w.xSize > 2 || w.ySize > 2
    ensures Size(Halves(w).0) < Size(w) && Size(Halves(w).1) < Size(w)
  {
  }

  /** A window is halved across its longer side, and evenly. */
  lemma HalvesEven(w: Window)
    ensures var (a, b) := Halves(w);
            && (w.xSize > w.ySize ==> a.ySize == b.ySize == w.ySize && 0 <= b.xSize - a.xSize <= 1)
            && (w.xSize <= w.ySize ==> a.xSize == b.xSize == w.xSize && 0 <= b.ySize - a.ySize <= 1)
  {
  }

  lemma HalvesPartition(w: Window, p: Pixel)
    requires w.xSize > 2 || w.ySize > 2
    ensures w.Contains(p) <==> Halves(w).0.Contains(p) || Halves(w).1.Contains(p)
    ensures !(Halves(w).0.Contains(p) && Halves(w).1.Contains(p))
  {
  }

  lemma HalvesArea(w: Window)
    ensures Halves(w).0.Area() + Halves(w).1.Area() == w.Area()
  {
  }

  // ---------------------------------------------------------------------
  //  What is collected
  // ---------------------------------------------------------------------

  /** The chunks of a window, the windows left out because they have no source, and whether every
      source window could be computed. */
  datatype Collection = Collection(chunks: seq<Chunk>, dropped: seq<Window>, ok: bool) {
    /** Collecting goes on only after success. */
    function Then(next: Collection): Collection {
      if !ok then this else Collection(chunks + next.chunks, dropped + next.dropped, next.ok)
    }
  }

  type Finder = Window -> Option<Window>

  function Collected(options: WarpOptions, sourceWindow: Finder, w: Window): Collection
    decreases Size(w)
  {
    match sourceWindow(w)
    case None => Collection([], [], false)
    case Some(src) =>
      if (src.xSize == 0 || src.ySize == 0) && options.skipNoSource then
        Collection([], [w], true)
      else if MustSplit(options, Chunk(w, src)) then
        HalvesSmaller(w);
        Collected(options, sourceWindow, Halves(w).0).Then(Collected(options, sourceWindow, Halves(w).1))
      else
        Collection([Chunk(w, src)], [], true)
  }

  function Windows(chunks: seq<Chunk>): (r: seq<Window>)
    ensures |r| == |chunks| && forall i :: 0 <= i < |chunks| ==> r[i] == chunks[i].dst
  {
    seq(|chunks|, i requires 0 <= i < |chunks| => chunks[i].dst)
  }

  /** How many of some windows hold a point. */
  function Holding(ws: seq<Window>, p: Pixel): nat {
    if |ws| == 0 then 0 else Holding(ws[..|ws|-1], p) + (if ws[|ws|-1].Contains(p) then 1 else 0)
  }

  lemma {:induction false} HoldingConcat(a: seq<Window>, b: seq<Window>, p: Pixel)
    ensures Holding(a + b, p) == Holding(a, p) + Holding(b, p)
  {
    if |b| == 0 {
      assert a + b == a;
    } else {
      var n := |a + b| - 1;
      assert (a + b)[..n] == a + b[..|b|-1] && (a + b)[n] == b[|b|-1];
      HoldingConcat(a, b[..|b|-1], p);
    }
  }

  lemma {:induction false} HoldingOne(ws: seq<Window>, i: nat, p: Pixel)
    requires i < |ws| && ws[i].Contains(p)
    ensures Holding(ws, p) >= 1
    ensures Holding(ws, p) == 1 ==> forall j :: 0 <= j < |ws| && ws[j].Contains(p) ==> j == i
  {
    var n := |ws| - 1;
    forall j | 0 <= j < n && ws[j].Contains(p) ensures Holding(ws[..n], p) >= 1 {
      HoldingOne(ws[..n], j, p);
    }
    if i < n {
      HoldingOne(ws[..n], i, p);
      assert forall j :: 0 <= j < n ==> ws[..n][j] == ws[j];
    }
  }

  lemma {:induction false} HoldingSome(ws: seq<Window>, p: Pixel) returns (i: nat)
    requires Holding(ws, p) > 0
    ensures i < |ws| && ws[i].Contains(p)
  {
    var n := |ws| - 1;
    if ws[n].Contains(p) {
      i := n;
    } else {
      i := HoldingSome(ws[..n], p);
    }
  }

  lemma WindowsConcat(a: seq<Chunk>, b: seq<Chunk>)
    ensures Windows(a + b) == Windows(a) + Windows(b)
  {
  }

  /** The chunks and the dropped windows tile the window: they hold each of its points once, and no
      other point. After a failure they still hold no point twice. */
  lemma {:induction false} CollectedTiles(options: WarpOptions, sourceWindow: Finder, w: Window, p: Pixel)
    ensures var c := Collected(options, sourceWindow, w);
            var n := Holding(Windows(c.chunks), p) + Holding(c.dropped, p);
            && (w.Contains(p) ==> n <= 1 && (c.ok ==> n == 1))
            && (!w.Contains(p) ==> n == 0)
    decreases Size(w)
  {
    var c := Collected(options, sourceWindow, w);
    if sourceWindow(w).Some? {
      var src := sourceWindow(w).value;
      if (src.xSize == 0 || src.ySize == 0) && options.skipNoSource {
        HoldingSingle(w, p);
      } else if MustSplit(options, Chunk(w, src)) {
        HalvesSmaller(w);
        HalvesPartition(w, p);
        var first := Collected(options, sourceWindow, Halves(w).0);
        CollectedTiles(options, sourceWindow, Halves(w).0, p);
        if first.ok {
          var second := Collected(options, sourceWindow, Halves(w).1);
          CollectedTiles(options, sourceWindow, Halves(w).1, p);
          WindowsConcat(first.chunks, second.chunks);
          HoldingConcat(Windows(first.chunks), Windows(second.chunks), p);
          HoldingConcat(first.dropped, second.dropped, p);
        }
      } else {
        assert Windows(c.chunks) == [w];
        HoldingSingle(w, p);
      }
    }
  }

  lemma HoldingSingle(w: Window, p: Pixel)
    ensures Holding([w], p) == if w.Contains(p) then 1 else 0
  {
  }

  /** A chunk as it should be: with its own source window, and no larger than the limit allows unless
      it is at most 2 by 2. */
  predicate RightChunk(options: WarpOptions, sourceWindow: Finder, c: Chunk) {
    && sourceWindow(c.dst) == Some(c.src)
    && !((c.src.xSize == 0 || c.src.ySize == 0) && options.skipNoSource)
    && (!options.Exceeds(c) || (c.dst.xSize <= 2 && c.dst.ySize <= 2))
  }

  predicate Empty(w: Window) {
    w.xSize <= 0 || w.ySize <= 0
  }

  predicate HasNoSource(sourceWindow: Finder, w: Window) {
    sourceWindow(w).Some? && (sourceWindow(w).value.xSize == 0 || sourceWindow(w).value.ySize == 0)
  }

  ghost predicate AllRight(options: WarpOptions, sourceWindow: Finder, chunks: seq<Chunk>) {
    forall i :: 0 <= i < |chunks| ==> RightChunk(options, sourceWindow, chunks[i])
  }

  ghost predicate AllSourceless(sourceWindow: Finder, ws: seq<Window>) {
    forall i :: 0 <= i < |ws| ==> HasNoSource(sourceWindow, ws[i])
  }

  ghost predicate NoneEmpty(chunks: seq<Chunk>) {
    forall i :: 0 <= i < |chunks| ==> !Empty(chunks[i].dst)
  }

  /** Every chunk is right, every dropped window has no source and is dropped only when the options
      say so, and no part of a non-empty window is empty. */
  lemma {:induction false} CollectedRight(options: WarpOptions, sourceWindow: Finder, w: Window)
    ensures var c := Collected(options, sourceWindow, w);
            && AllRight(options, sourceWindow, c.chunks)
            && AllSourceless(sourceWindow, c.dropped) && (options.skipNoSource || c.dropped == [])
            && (!Empty(w) ==> NoneEmpty(c.chunks))
    decreases Size(w)
  {
    if sourceWindow(w).Some? {
      var src := sourceWindow(w).value;
      if (src.xSize == 0 || src.ySize == 0) && options.skipNoSource {
        assert Collected(options, sourceWindow, w).dropped == [w];
      } else if MustSplit(options, Chunk(w, src)) {
        HalvesSmaller(w);
        CollectedRight(options, sourceWindow, Halves(w).0);
        CollectedRight(options, sourceWindow, Halves(w).1);
        var first, second := Collected(options, sourceWindow, Halves(w).0), Collected(options, sourceWindow, Halves(w).1);
        assert Collected(options, sourceWindow, w) == first.Then(second);
      } else {
        assert Collected(options, sourceWindow, w) == Collection([Chunk(w, src)], [], true);
      }
    }
  }

  predicate Within(a: Window, w: Window) {
    w.xOff <= a.xOff && a.xOff + a.xSize <= w.xOff + w.xSize && w.yOff <= a.yOff && a.yOff + a.ySize <= w.yOff + w.ySize
  }

  /** a lies left of b or above it. */
  predicate Precedes(a: Window, b: Window) {
    a.xOff + a.xSize <= b.xOff || a.yOff + a.ySize <= b.yOff
  }

  ghost predicate InOrder(ws: seq<Window>, w: Window) {
    && (forall i :: 0 <= i < |ws| ==> Within(ws[i], w))
    && (forall i, j :: 0 <= i < j < |ws| ==> Precedes(ws[i], ws[j]))
  }

  lemma HalvesInOrder(w: Window, a: seq<Window>, b: seq<Window>)
    requires w.xSize > 2 || w.ySize > 2
    requires InOrder(a, Halves(w).0) && InOrder(b, Halves(w).1)
    ensures InOrder(a, w) && InOrder(a + b, w)
  {
    var (u, v) := Halves(w);
    HalvesWithin(w);
    assert Precedes(u, v);
    forall i, j | 0 <= i < |a| && 0 <= j < |b| ensures Precedes(a[i], b[j]) {
      assert Within(a[i], u) && Within(b[j], v);
    }
  }

  /** Chunks come left before right and top before bottom. */
  lemma {:induction false} CollectedInOrder(options: WarpOptions, sourceWindow: Finder, w: Window)
    ensures InOrder(Windows(Collected(options, sourceWindow, w).chunks), w)
    decreases Size(w)
  {
    hide InOrder;
    if sourceWindow(w).None? || ((sourceWindow(w).value.xSize == 0 || sourceWindow(w).value.ySize == 0) && options.skipNoSource) {
      NothingInOrder(w);
      assert Windows(Collected(options, sourceWindow, w).chunks) == [];
    } else if MustSplit(options, Chunk(w, sourceWindow(w).value)) {
      HalvesSmaller(w);
      var first, second := Collected(options, sourceWindow, Halves(w).0), Collected(options, sourceWindow, Halves(w).1);
      CollectedInOrder(options, sourceWindow, Halves(w).0);
      CollectedInOrder(options, sourceWindow, Halves(w).1);
      HalvesInOrder(w, Windows(first.chunks), Windows(second.chunks));
      WindowsConcat(first.chunks, second.chunks);
    } else {
      NothingInOrder(w);
      assert Windows(Collected(options, sourceWindow, w).chunks) == [w];
    }
  }

  lemma NothingInOrder(w: Window)
    ensures InOrder([], w) && InOrder([w], w)
  {
  }

  /** a is a half of some part of w that is too large for one chunk. */
  ghost predicate HalfOfTooLarge(options: WarpOptions, sourceWindow: Finder, a: Window, w: Window) {
    exists v :: Within(v, w) && (a == Halves(v).0 || a == Halves(v).1) && (v.xSize > 2 || v.ySize > 2)
                && sourceWindow(v).Some? && options.Exceeds(Chunk(v, sourceWindow(v).value))
  }

  lemma HalvesWithin(w: Window)
    requires w.xSize > 2 || w.ySize > 2
    ensures Within(Halves(w).0, w) && Within(Halves(w).1, w)
  {
  }

  lemma HalvesNeeded(options: WarpOptions, sourceWindow: Finder, a: Window, u: Window, w: Window)
    requires (w.xSize > 2 || w.ySize > 2) && sourceWindow(w).Some? && options.Exceeds(Chunk(w, sourceWindow(w).value))
    requires (u == Halves(w).0 || u == Halves(w).1) && Within(u, w) && (a == u || HalfOfTooLarge(options, sourceWindow, a, u))
    ensures HalfOfTooLarge(options, sourceWindow, a, w)
  {
    hide Halves, WarpOptions.Exceeds;
    assert Within(w, w);
    if a != u {
      var v :| Within(v, u) && (a == Halves(v).0 || a == Halves(v).1) && (v.xSize > 2 || v.ySize > 2)
               && sourceWindow(v).Some? && options.Exceeds(Chunk(v, sourceWindow(v).value));
      assert Within(v, w);
    }
  }

  /** No window is halved without need: a chunk is the whole window or a half of one that is too large. */
  lemma {:induction false} CollectedNeeded(options: WarpOptions, sourceWindow: Finder, w: Window, i: nat)
    requires i < |Collected(options, sourceWindow, w).chunks|
    ensures var a := Collected(options, sourceWindow, w).chunks[i].dst; a == w || HalfOfTooLarge(options, sourceWindow, a, w)
    decreases Size(w)
  {
    hide HalfOfTooLarge, Halves, WarpOptions.Exceeds, Size;
    var src := sourceWindow(w).value;
    if !((src.xSize == 0 || src.ySize == 0) && options.skipNoSource) && MustSplit(options, Chunk(w, src)) {
      HalvesSmaller(w);
      HalvesWithin(w);
      var u, v, a := Halves(w).0, Halves(w).1, Collected(options, sourceWindow, w).chunks[i].dst;
      var n := |Collected(options, sourceWindow, u).chunks|;
      if i < n {
        CollectedNeeded(options, sourceWindow, u, i);
        HalvesNeeded(options, sourceWindow, a, u, w);
      } else {
        CollectedNeeded(options, sourceWindow, v, i - n);
        HalvesNeeded(options, sourceWindow, a, v, w);
      }
    }
  }

  /** Collection fails exactly when some window that it has to look at has no computable source window. */
  lemma {:induction false} CollectedOk(options: WarpOptions, sourceWindow: Finder, w: Window)
    ensures Collected(options, sourceWindow, w).ok <==> AllComputable(options, sourceWindow, w)
    decreases Size(w)
  {
    if sourceWindow(w).Some? && LookedInto(options, sourceWindow, w) {
      HalvesSmaller(w);
      CollectedOk(options, sourceWindow, Halves(w).0);
      CollectedOk(options, sourceWindow, Halves(w).1);
      forall v | PartOf(options, sourceWindow, v, w) ensures v == w || PartOf(options, sourceWindow, v, Halves(w).0)
                                                             || PartOf(options, sourceWindow, v, Halves(w).1) {
      }
      assert forall v :: PartOf(options, sourceWindow, v, Halves(w).0) ==> PartOf(options, sourceWindow, v, w);
      assert forall v :: PartOf(options, sourceWindow, v, Halves(w).1) ==> PartOf(options, sourceWindow, v, w);
    }
    assert PartOf(options, sourceWindow, w, w);
  }

  ghost predicate LookedInto(options: WarpOptions, sourceWindow: Finder, w: Window) {
    && sourceWindow(w).Some?
    && !(HasNoSource(sourceWindow, w) && options.skipNoSource)
    && MustSplit(options, Chunk(w, sourceWindow(w).value))
  }

  /** v is w or a repeated half of it that is reached by splitting. */
  ghost predicate PartOf(options: WarpOptions, sourceWindow: Finder, v: Window, w: Window)
    decreases Size(w)
  {
    || v == w
    || (LookedInto(options, sourceWindow, w)
        && (HalvesSmaller(w);
            PartOf(options, sourceWindow, v, Halves(w).0) || PartOf(options, sourceWindow, v, Halves(w).1)))
  }

  ghost predicate AllComputable(options: WarpOptions, sourceWindow: Finder, w: Window) {
    forall v :: PartOf(options, sourceWindow, v, w) ==> sourceWindow(v).Some?
  }

  function TotalArea(ws: seq<Window>): int {
    if |ws| == 0 then 0 else TotalArea(ws[..|ws|-1]) + ws[|ws|-1].Area()
  }

  lemma {:induction false} TotalAreaConcat(a: seq<Window>, b: seq<Window>)
    ensures TotalArea(a + b) == TotalArea(a) + TotalArea(b)
  {
    if |b| == 0 {
      assert a + b == a;
    } else {
      var n := |a + b| - 1;
      assert (a + b)[..n] == a + b[..|b|-1] && (a + b)[n] == b[|b|-1];
      TotalAreaConcat(a, b[..|b|-1]);
    }
  }

  /** The pixels of the chunks and of the dropped windows are those of the window, so that the progress
      of the chunks adds up to the whole. */
  lemma {:induction false} CollectedArea(options: WarpOptions, sourceWindow: Finder, w: Window)
    requires Collected(options, sourceWindow, w).ok
    ensures var c := Collected(options, sourceWindow, w);
            TotalArea(Windows(c.chunks)) + TotalArea(c.dropped) == w.Area()
    decreases Size(w)
  {
    var c := Collected(options, sourceWindow, w);
    var src := sourceWindow(w).value;
    if (src.xSize == 0 || src.ySize == 0) && options.skipNoSource {
      assert c.dropped[..0] == [];
    } else if MustSplit(options, Chunk(w, src)) {
      HalvesSmaller(w);
      var first := Collected(options, sourceWindow, Halves(w).0);
      var second := Collected(options, sourceWindow, Halves(w).1);
      CollectedArea(options, sourceWindow, Halves(w).0);
      CollectedArea(options, sourceWindow, Halves(w).1);
      WindowsConcat(first.chunks, second.chunks);
      TotalAreaConcat(Windows(first.chunks), Windows(second.chunks));
      TotalAreaConcat(first.dropped, second.dropped);
      HalvesArea(w);
    } else {
      assert Windows(c.chunks) == [w] && [w][..0] == [];
    }
  }

  // ---------------------------------------------------------------------
  //  Warping
  // ---------------------------------------------------------------------

  /** The pixels of a dataset or of a buffer. */
  type Image = map<Pixel, int>

  /** The value that a warp computes at a point from the chunk's destination buffer. */
  type Kernel = (Chunk, Image, Pixel) -> int

  function TopRows(w: Window, n: int): Window {
    w.(ySize := n)
  }

  /** The destination buffer of a window: read from the dataset, or filled with a given value. */
  function Buffered(options: WarpOptions, img: Image, w: Window): (buf: Image)
    ensures forall p :: p in buf <==> p in img && w.Contains(p)
  {
    map p | p in img && w.Contains(p) :: if options.initDest.Some? then options.initDest.value else img[p]
  }

  /** buf has the points of the dataset in a window, each with the dataset's value unless a value is given to start with. */
  ghost predicate IsBuffer(options: WarpOptions, img: Image, w: Window, buf: Image) {
    && (forall p :: p in buf <==> p in img && w.xOff <= p.x < w.xOff + w.xSize && w.yOff <= p.y < w.yOff + w.ySize)
    && (forall p :: p in buf ==> buf[p] == match options.initDest case Some(value) => value case None => img[p])
  }

  lemma BufferedIsBuffer(options: WarpOptions, img: Image, w: Window)
    ensures IsBuffer(options, img, w, Buffered(options, img, w))
  {
  }

  /** A buffer that starts from a given value does not depend on what the dataset held. */
  lemma InitDestForgets(options: WarpOptions, kernel: Kernel, chunks: seq<Chunk>, a: Image, b: Image, p: Pixel, i: nat)
    requires options.initDest.Some? && a.Keys == b.Keys && Disjoint(chunks) && p in a && i < |chunks| && chunks[i].dst.Contains(p)
    ensures WarpedAll(options, kernel, chunks, a).Keys == WarpedAll(options, kernel, chunks, b).Keys == a.Keys
    ensures WarpedAll(options, kernel, chunks, a)[p] == WarpedAll(options, kernel, chunks, b)[p]
  {
    hide WarpedAll, WarpOf;
    WarpedAllRight(options, kernel, chunks, a);
    WarpedAllRight(options, kernel, chunks, b);
    assert Buffered(options, a, chunks[i].dst) == Buffered(options, b, chunks[i].dst);
    assert WarpedAt(options, kernel, chunks, a, p, WarpedAll(options, kernel, chunks, a)[p]);
    assert WarpedAt(options, kernel, chunks, b, p, WarpedAll(options, kernel, chunks, b)[p]);
  }

  function Performed(kernel: Kernel, c: Chunk, buf: Image): (r: Image)
    ensures r.Keys == buf.Keys
  {
    map p | p in buf :: kernel(c, buf, p)
  }

  function WarpedBuffer(options: WarpOptions, kernel: Kernel, c: Chunk, img: Image): Image {
    Performed(kernel, c, Buffered(options, img, c.dst))
  }

  /** The dataset after one chunk. */
  function Warped(options: WarpOptions, kernel: Kernel, c: Chunk, img: Image): Image {
    img + WarpedBuffer(options, kernel, c, img)
  }

  function WarpedAll(options: WarpOptions, kernel: Kernel, chunks: seq<Chunk>, img: Image): Image {
    if |chunks| == 0 then img
    else Warped(options, kernel, chunks[|chunks|-1], WarpedAll(options, kernel, chunks[..|chunks|-1], img))
  }

  ghost predicate Disjoint(chunks: seq<Chunk>) {
    forall i, j, p :: 0 <= i < j < |chunks| && chunks[i].dst.Contains(p) ==> !chunks[j].dst.Contains(p)
  }

  /** A point of a chunk holds what the chunk makes of the original image; a point outside all chunks is untouched. */
  ghost predicate WarpedAt(options: WarpOptions, kernel: Kernel, chunks: seq<Chunk>, img: Image, p: Pixel, value: int)
    requires p in img
  {
    && (forall i :: 0 <= i < |chunks| && chunks[i].dst.Contains(p) ==> value == WarpedBuffer(options, kernel, chunks[i], img)[p])
    && ((forall i :: 0 <= i < |chunks| ==> !chunks[i].dst.Contains(p)) ==> value == img[p])
  }

  ghost predicate WarpOf(options: WarpOptions, kernel: Kernel, chunks: seq<Chunk>, img: Image, img': Image) {
    img'.Keys == img.Keys && forall p :: p in img ==> WarpedAt(options, kernel, chunks, img, p, img'[p])
  }

  /** Only one image is the warp of another. */
  lemma WarpOfUnique(options: WarpOptions, kernel: Kernel, chunks: seq<Chunk>, img: Image, a: Image, b: Image)
    requires WarpOf(options, kernel, chunks, img, a) && WarpOf(options, kernel, chunks, img, b)
    ensures a == b
  {
  }

  /** Warping disjoint chunks in turn never lets one chunk see what another one wrote. */
  lemma {:induction false} WarpedAllRight(options: WarpOptions, kernel: Kernel, chunks: seq<Chunk>, img: Image)
    requires Disjoint(chunks)
    ensures WarpOf(options, kernel, chunks, img, WarpedAll(options, kernel, chunks, img))
  {
    if |chunks| > 0 {
      var n := |chunks| - 1;
      var prev := WarpedAll(options, kernel, chunks[..n], img);
      WarpedAllRight(options, kernel, chunks[..n], img);
      SameBuffer(options, kernel, chunks, img, prev);
      assert Warped(options, kernel, chunks[n], prev).Keys == img.Keys;
      forall p | p in img ensures WarpedAt(options, kernel, chunks, img, p, Warped(options, kernel, chunks[n], prev)[p]) {
        OneMoreChunk(options, kernel, chunks, img, prev, p);
      }
    }
  }

  lemma OneMoreChunk(options: WarpOptions, kernel: Kernel, chunks: seq<Chunk>, img: Image, prev: Image, p: Pixel)
    requires Disjoint(chunks) && |chunks| > 0 && p in img && p in prev
    requires WarpedAt(options, kernel, chunks[..|chunks|-1], img, p, prev[p])
    requires Buffered(options, prev, chunks[|chunks|-1].dst) == Buffered(options, img, chunks[|chunks|-1].dst)
    ensures WarpedAt(options, kernel, chunks, img, p, Warped(options, kernel, chunks[|chunks|-1], prev)[p])
  {
    var n := |chunks| - 1;
    assert forall i :: 0 <= i < n ==> chunks[..n][i] == chunks[i];
    if chunks[n].dst.Contains(p) {
      forall i | 0 <= i < n ensures !chunks[i].dst.Contains(p) {
      }
    }
  }

  lemma SameBuffer(options: WarpOptions, kernel: Kernel, chunks: seq<Chunk>, img: Image, prev: Image)
    requires Disjoint(chunks) && |chunks| > 0 && WarpOf(options, kernel, chunks[..|chunks|-1], img, prev)
    ensures Buffered(options, prev, chunks[|chunks|-1].dst) == Buffered(options, img, chunks[|chunks|-1].dst)
  {
    hide WarpedBuffer;
    var n := |chunks| - 1;
    forall p | p in img && chunks[n].dst.Contains(p) ensures prev[p] == img[p] {
      assert WarpedAt(options, kernel, chunks[..n], img, p, prev[p]);
      forall i | 0 <= i < n ensures !chunks[..n][i].dst.Contains(p) {
        assert chunks[..n][i] == chunks[i];
      }
    }
  }

  lemma CollectedDisjoint(options: WarpOptions, sourceWindow: Finder, w: Window)
    ensures Disjoint(Collected(options, sourceWindow, w).chunks)
  {
    var chunks := Collected(options, sourceWindow, w).chunks;
    forall i, j, p | 0 <= i < j < |chunks| && chunks[i].dst.Contains(p) ensures !chunks[j].dst.Contains(p) {
      CollectedTiles(options, sourceWindow, w, p);
      HoldingOne(Windows(chunks), i, p);
    }
  }

  // ---------------------------------------------------------------------
  //  The operation
  // ---------------------------------------------------------------------

  class WarpOperation {
    const options: WarpOptions
    const sourceWindow: Finder
    const kernel: Kernel
    var chunkList: seq<Chunk>
    var dataset: Image

    constructor (options: WarpOptions, sourceWindow: Finder, kernel: Kernel, dataset: Image)
      ensures this.options == options && this.sourceWindow == sourceWindow && this.kernel == kernel
      ensures this.dataset == dataset && chunkList == []
    {
      this.options, this.sourceWindow, this.kernel, this.dataset := options, sourceWindow, kernel, dataset;
      chunkList := [];
    }

    method WipeChunkList()
      modifies this`chunkList
      ensures chunkList == []
    {
      chunkList := [];
    }

    /** Appends the chunks of a window. */
    method CollectChunkList(w: Window) returns (ok: bool)
      modifies this`chunkList
      ensures chunkList == old(chunkList) + Collected(options, sourceWindow, w).chunks
      ensures ok == Collected(options, sourceWindow, w).ok
      decreases Size(w), 1
    {
      var found := sourceWindow(w);
      if found.None? {
        return false;
      }
      var src := found.value;
      if (src.xSize == 0 || src.ySize == 0) && options.skipNoSource {
        return true;
      }
      if options.Exceeds(Chunk(w, src)) && (w.xSize > 2 || w.ySize > 2) {
        ok := CollectHalves(w);
        return;
      }
      chunkList := chunkList + [Chunk(w, src)];
      return true;
    }

    /** Appends the chunks of both halves of a window, unless the first half fails. */
    method CollectHalves(w: Window) returns (ok: bool)
      requires w.xSize > 2 || w.ySize > 2
      modifies this`chunkList
      ensures var c := Collected(options, sourceWindow, Halves(w).0).Then(Collected(options, sourceWindow, Halves(w).1));
              chunkList == old(chunkList) + c.chunks && ok == c.ok
      decreases Size(w), 0
    {
      hide Collected;
      HalvesSmaller(w);
      var half1, half2;
      if w.xSize > w.ySize {
        var chunk1 := w.xSize / 2;
        half1, half2 := Window(w.xOff, w.yOff, chunk1, w.ySize), Window(w.xOff + chunk1, w.yOff, w.xSize - chunk1, w.ySize);
      } else {
        var chunk1 := w.ySize / 2;
        half1, half2 := Window(w.xOff, w.yOff, w.xSize, chunk1), Window(w.xOff, w.yOff + chunk1, w.xSize, w.ySize - chunk1);
      }
      assert (half1, half2) == Halves(w);
      ok := CollectChunkList(half1);
      if ok {
        ok := CollectChunkList(half2);
      }
    }

    /** Reads the buffer of a chunk, warps it and writes it back: the points of the chunk, and no others, get
        what the kernel makes of the buffer as it was read. */
    method WarpRegion(c: Chunk)
      modifies this`dataset
      ensures dataset.Keys == old(dataset).Keys
      ensures forall p :: p in old(dataset) && !c.dst.Contains(p) ==> dataset[p] == old(dataset)[p]
      ensures forall p :: p in old(dataset) && c.dst.Contains(p)
                          ==> dataset[p] == kernel(c, Buffered(options, old(dataset), c.dst), p)
      ensures IsBuffer(options, old(dataset), c.dst, Buffered(options, old(dataset), c.dst))
      ensures dataset == Warped(options, kernel, c, old(dataset))
    {
      BufferedIsBuffer(options, dataset, c.dst);
      var buf := Buffered(options, dataset, c.dst);
      buf := Performed(kernel, c, buf);
      dataset := dataset + buf;
    }

    /** Warps a window chunk by chunk: a failed collection only leaves the rest of the window untouched. */
    method ChunkAndWarpImage(w: Window)
      modifies this
      ensures WarpOf(options, kernel, Collected(options, sourceWindow, w).chunks, old(dataset), dataset)
      ensures dataset == WarpedAll(options, kernel, Collected(options, sourceWindow, w).chunks, old(dataset))
      ensures chunkList == []
    {
      WipeChunkList();
      var _ := CollectChunkList(w);
      CollectedDisjoint(options, sourceWindow, w);
      for i := 0 to |chunkList|
        invariant chunkList == Collected(options, sourceWindow, w).chunks
        invariant dataset == WarpedAll(options, kernel, chunkList[..i], old(dataset))
      {
        WarpRegion(chunkList[i]);
        assert chunkList[..i+1][..i] == chunkList[..i];
      }
      assert chunkList[..|chunkList|] == chunkList;
      WarpedAllRight(options, kernel, chunkList, old(dataset));
      WipeChunkList();
    }
  }

  /** Where the whole window has a source, every one of its points is warped exactly by the one chunk that holds it. */
  lemma EveryPointWarped(options: WarpOptions, sourceWindow: Finder, kernel: Kernel, w: Window, img: Image, img': Image, p: Pixel)
    requires !options.skipNoSource && AllComputable(options, sourceWindow, w) && w.Contains(p) && p in img
    requires WarpOf(options, kernel, Collected(options, sourceWindow, w).chunks, img, img')
    ensures exists i :: 0 <= i < |Collected(options, sourceWindow, w).chunks|
                        && Collected(options, sourceWindow, w).chunks[i].dst.Contains(p)
                        && img'[p] == WarpedBuffer(options, kernel, Collected(options, sourceWindow, w).chunks[i], img)[p]
  {
    var c := Collected(options, sourceWindow, w);
    CollectedOk(options, sourceWindow, w);
    CollectedTiles(options, sourceWindow, w, p);
    CollectedRight(options, sourceWindow, w);
    assert |c.dropped| == 0;
    var i := HoldingSome(Windows(c.chunks), p);
    assert c.chunks[i].dst.Contains(p) && WarpedAt(options, kernel, c.chunks, img, p, img'[p]);
  }
}
