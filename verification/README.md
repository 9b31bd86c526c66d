# Raster algorithms of GDAL's `alg` directory

A model of eight in-memory algorithms of GDAL 1.6.1 and proofs about them. Reals stand for doubles and
unbounded integers for ints.

- `Raster`, `PolygonEnumerator`, `Labelling`, `SieveFilter`: connected pixels of equal value are numbered
  line by line in a union-find forest; the sieve filter replays this numbering twice to give every small
  polygon the value of its largest neighbour.
- `LinearSolve`, `GcpFit`: Gauss-Jordan elimination, and the polynomial fit to ground control points
  (exact or least squares) in both directions.
- `Proximity`: distances to the nearest target by four sweeps that hand targets on. Distances are kept squared.
- `MedianCut`: a palette from colour boxes that are split at the median and shrunk.
- `ScanFill`, `LineDraw`, `Rasterize`: polygon fill by paired crossings, Bresenham lines, and burning
  geometries chunk by chunk of rows.
- `WarpChunks`, `WarpThreads`: a window is halved until its chunks fit in memory; they are warped one after
  another, or by threads, two slots, an I/O mutex and a warp mutex. The threads are a state machine whose steps
  are those of the code; reads and writes go row by row.
- `ContourCells`, `ContourLines`, `ContourImage`: crossings of grid cells, polylines that grow, merge and are
  written out, and what this comes to for a whole image.
- `ApproxTransform`: a run of points is interpolated between its ends, or halved.

Methods that change arrays or objects in the original do so here; each is tied to a function of the old
state, and the lemmas speak about those functions. Four things that the proofs turned up:
with 8 neighbours the labelling overlooks some upper-right corners (`Labelling8ExactIff` says when this
matters); the approximating transformer interpolates every y and z although it checks only three y and no z
(`AffineExactIff` says when it is exact all the same); the search for a contour to extend overlooks all tails but
the leftmost ones (`FoundIff`), in an order that inserting does not keep (`InsertedInOrder`); and next to nodata a contour quadrant can have a
crossing that no segment uses (`NoDataLeavesOver`, `LeftOverIff`), which happens nowhere else in an image
(`EveryCrossingUsed`). `Basics` holds what several modules share.

## Model

| member | source | states |
|---|---|---|
| PolygonEnumerator.ShortcutKeepsForest | gdal-1.6.1-tcl_patched/alg/gdalrasterpolygonenumerator.cpp:134-148 | Pointing an id at its own parent's parent, the path shortening of CompleteMerges, keeps every root and the chains acyclic. |
| PolygonEnumerator.RasterPolygonEnumerator.FindRoot | gdal-1.6.1-tcl_patched/alg/gdalrasterpolygonenumerator.cpp:89-93 | Chasing parents ends, and ends at the id's root. |
| PolygonEnumerator.RasterPolygonEnumerator.NewPolygon | gdal-1.6.1-tcl_patched/alg/gdalrasterpolygonenumerator.cpp:106-124 | A new id is its own root and carries the given value; older ids keep theirs. |
| PolygonEnumerator.RasterPolygonEnumerator.MergePolygon | gdal-1.6.1-tcl_patched/alg/gdalrasterpolygonenumerator.cpp:84-97 | Exactly the two trees become one; every other root stays, and the map stays a forest. |
| PolygonEnumerator.RasterPolygonEnumerator.CompleteMerges | gdal-1.6.1-tcl_patched/alg/gdalrasterpolygonenumerator.cpp:134-153 | Every id points straight at its root, and no id changes its root. |
| PolygonEnumerator.RasterPolygonEnumerator.CompletePolygon | gdal-1.6.1-tcl_patched/alg/gdalrasterpolygonenumerator.cpp:136-148 | One parent chain is replaced by its root; no id changes its root. |
| PolygonEnumerator.RasterPolygonEnumerator.ProcessLine | gdal-1.6.1-tcl_patched/alg/gdalrasterpolygonenumerator.cpp:161-222 | Ids, next id, values and roots after a line are given functions of the two lines; the ids do not depend on the parent map. |
| PolygonEnumerator.LineIdsPrefix | gdal-1.6.1-tcl_patched/alg/gdalrasterpolygonenumerator.cpp:161-222 | The ids of a line depend only on the pixels read so far. |
| PolygonEnumerator.RasterPolygonEnumerator.Clear | gdal-1.6.1-tcl_patched/alg/gdalrasterpolygonenumerator.cpp:65-76 | Forgets all polygons. |
| Labelling.ScanGood | gdal-1.6.1-tcl_patched/alg/gdalrasterpolygonenumerator.cpp:161-222 | After any number of lines, ids are equal up to roots exactly when the pixels are linked by a path, and carry their pixels' value. |
| Labelling.LabellingExact | gdal-1.6.1-tcl_patched/alg/gdalrasterpolygonenumerator.cpp:161-222 | For connectedness 4 and 8: two pixels end up with the same final id if and only if a path of equal pixels over the enumerator's links joins them; for 4 these are all side neighbours. |
| Labelling.Labelling8Sound | gdal-1.6.1-tcl_patched/alg/gdalrasterpolygonenumerator.cpp:193-217 | With connectedness 8, the same final id implies true 8-connectedness. |
| Labelling.Labelling8ExactIff | gdal-1.6.1-tcl_patched/alg/gdalrasterpolygonenumerator.cpp:193-217 | With connectedness 8 the labelling is exact if and only if every overlooked upper-right corner is bridged by other links. |
| Labelling.Labelling8ExactLocally | gdal-1.6.1-tcl_patched/alg/gdalrasterpolygonenumerator.cpp:193-217 | So it is exact wherever no pixel is overlooked, which its own neighbours in the image decide. |
| Labelling.Labelling8CanFail | gdal-1.6.1-tcl_patched/alg/gdalrasterpolygonenumerator.cpp:193-217 | A 2 by 3 image on which two 8-connected pixels get different final ids. |
| SieveFilter.MaskImageData | gdal-1.6.1-tcl_patched/alg/gdalsievefilter.cpp:64-88 | A pixel of the line becomes the nodata marker exactly where its mask is zero; the others stay. |
| SieveFilter.CompareNeighbour | gdal-1.6.1-tcl_patched/alg/gdalsievefilter.cpp:104-131 | Each of the two polygons remembers the other if both are valid and the other is larger than what it remembered. |
| SieveFilter.CountPixel | gdal-1.6.1-tcl_patched/alg/gdalsievefilter.cpp:216-270 | One more pixel adds one to its own id's size and to no other. |
| SieveFilter.FoldStep | gdal-1.6.1-tcl_patched/alg/gdalsievefilter.cpp:279-290 | Folding one id into its root moves its whole size there. |
| SieveFilter.FoldSizes | gdal-1.6.1-tcl_patched/alg/gdalsievefilter.cpp:279-290 | After folding, the size at every root is the exact number of pixels with that final id, and merged ids have size zero. |
| SieveFilter.FirstPass | gdal-1.6.1-tcl_patched/alg/gdalsievefilter.cpp:205-290 | The first pass builds the labelling of the masked source and the sizes of its provisional ids. |
| SieveFilter.ScanPrefix | gdal-1.6.1-tcl_patched/alg/gdalsievefilter.cpp:308-334 | A pass that replays the labelling gives every line the ids it had in the first pass. |
| SieveFilter.LabelLineAgain | gdal-1.6.1-tcl_patched/alg/gdalsievefilter.cpp:464-497 | In the replay each line gets the finished labelling's ids, whatever is merged by then. |
| SieveFilter.ComparePixel | gdal-1.6.1-tcl_patched/alg/gdalsievefilter.cpp:337-371 | A pixel is compared with the earlier neighbours that it meets, above, above left, above right and left; every biggest neighbour stays right for the comparisons made so far. |
| SieveFilter.SecondPass | gdal-1.6.1-tcl_patched/alg/gdalsievefilter.cpp:296-398 | Every polygon remembers, of all valid neighbours in the image, a largest one and of these the one that the scan meets first. |
| SieveFilter.SelectTargets | gdal-1.6.1-tcl_patched/alg/gdalsievefilter.cpp:409-453 | A polygon keeps its target exactly if it is valid, below the threshold, and the target reaches the threshold. |
| SieveFilter.TargetIsLargest | gdal-1.6.1-tcl_patched/alg/gdalsievefilter.cpp:337-453 | The remembered target is the first of the largest neighbouring polygons in terms of connected pixels. |
| SieveFilter.RewrittenLine | gdal-1.6.1-tcl_patched/alg/gdalsievefilter.cpp:464-528 | A line is read before it is overwritten, so that destination and source may be the same band. |
| SieveFilter.ThirdPass | gdal-1.6.1-tcl_patched/alg/gdalsievefilter.cpp:460-541 | Every row of the destination holds the source row with targeted polygons rewritten. |
| SieveFilter.SieveCorrect | gdal-1.6.1-tcl_patched/alg/gdalsievefilter.cpp:183-551 | From exact sizes, targets and rows to the statement about the whole image. |
| SieveFilter.MaskedOutCopied | gdal-1.6.1-tcl_patched/alg/gdalsievefilter.cpp:64-88 | A pixel whose mask is zero is in no valid polygon, so that it keeps its source value. |
| SieveFilter.OneResult | gdal-1.6.1-tcl_patched/alg/gdalsievefilter.cpp:183-551 | These rules leave only one result: the value of every pixel is determined by the image and its polygons. |
| SieveFilter.SieveFilter | gdal-1.6.1-tcl_patched/alg/gdalsievefilter.cpp:183-551 | The image that is sieved has the marker where the mask is zero and the source value elsewhere. A pixel changes only if its polygon there is valid, too small, and has a large enough neighbour; it then takes the value of the largest one, of several as large the one that the scan meets first, and so does its whole polygon. All others are copied, and so is every pixel whose mask is zero. |
| LinearSolve.FindPivot | gdal-1.6.1-tcl_patched/alg/gdal_crs.c:850-861 | The pivot is the entry of largest absolute value at or below the diagonal. |
| LinearSolve.SwapRows | gdal-1.6.1-tcl_patched/alg/gdal_crs.c:872-879 | Two rows are exchanged as a whole. |
| LinearSolve.SwapKeepsSolutions | gdal-1.6.1-tcl_patched/alg/gdal_crs.c:872-889 | Exchanging two equations keeps the solutions. |
| LinearSolve.EliminateLine | gdal-1.6.1-tcl_patched/alg/gdal_crs.c:896-904 | A multiple of the pivot row is subtracted from a row and from both right-hand sides. |
| LinearSolve.EliminationKeepsSolutions | gdal-1.6.1-tcl_patched/alg/gdal_crs.c:894-906 | Eliminating a column keeps the solutions. |
| LinearSolve.EliminationReduces | gdal-1.6.1-tcl_patched/alg/gdal_crs.c:894-906 | After elimination the column is zero off the diagonal, and earlier columns stay so. |
| LinearSolve.StuckIsSingular | gdal-1.6.1-tcl_patched/alg/gdal_crs.c:867-868 | No pivot in a reduced system means that the original matrix is singular: a non-zero vector is mapped to zero. |
| LinearSolve.DiagonalUnique | gdal-1.6.1-tcl_patched/alg/gdal_crs.c:909-914 | A reduced system has exactly one solution, the quotients by the diagonal. |
| LinearSolve.SolveMat | gdal-1.6.1-tcl_patched/alg/gdal_crs.c:838-916 | MUNSOLVABLE exactly when the given matrix is singular; otherwise both results are the unique solutions of the given systems. |
| GcpFit.GeorefIsPoly | gdal-1.6.1-tcl_patched/alg/gdal_crs.c:509-569 | The written-out evaluation equals the sum of coefficients times terms. |
| GcpFit.SumSquaresMoved | gdal-1.6.1-tcl_patched/alg/gdal_crs.c:737-788 | How the sum of squared residuals changes under any change of the coefficients. |
| GcpFit.NormalSolutionIsBest | gdal-1.6.1-tcl_patched/alg/gdal_crs.c:737-788 | A solution of the normal equations minimises the sum of squares, strictly if the system is regular. |
| GcpFit.NormalSingular | gdal-1.6.1-tcl_patched/alg/gdal_crs.c:737-788 | The normal equations are singular if and only if a non-zero polynomial of the order vanishes at every active point. |
| GcpFit.SquareSingular | gdal-1.6.1-tcl_patched/alg/gdal_crs.c:691-727 | The same for the square system of the minimum number of points. |
| GcpFit.NormalSystem | gdal-1.6.1-tcl_patched/alg/gdal_crs.c:737-788 | The accumulated and mirrored matrix and vectors are the normal equations of the active points. |
| GcpFit.ExactSystem | gdal-1.6.1-tcl_patched/alg/gdal_crs.c:691-727 | One equation for each active point, in order. |
| GcpFit.ExactDet | gdal-1.6.1-tcl_patched/alg/gdal_crs.c:691-727 | Exact fit: the outcome below for exactly as many points as terms. |
| GcpFit.CalcLs | gdal-1.6.1-tcl_patched/alg/gdal_crs.c:737-788 | Least squares: the outcome below for more points than terms. |
| GcpFit.CalcCoef | gdal-1.6.1-tcl_patched/alg/gdal_crs.c:626-682 | Not enough points, unsolvable exactly for degenerate points, or else coefficients that beat every other vector strictly, and interpolate when the points are as few as the terms. |
| GcpFit.ComputeGeorefEquations | gdal-1.6.1-tcl_patched/alg/gdal_crs.c:577-618 | Which status is returned, each if and only if: bad order, too few points, degenerate points in one of the two directions, or success with the outcome of both. |
| GcpFit.CalcBackward | gdal-1.6.1-tcl_patched/alg/gdal_crs.c:577-618 | The backward fit works on exchanged coordinates, which are exchanged back. |
| GcpFit.ExactFitInterpolates | gdal-1.6.1-tcl_patched/alg/gdal_crs.c:509-569 | With exactly 3, 6 or 10 active points the polynomials pass through every active point. |
| GcpFit.ExactFitRoundTrip | gdal-1.6.1-tcl_patched/alg/gdal_crs.c:278-314 | On every active point of an exact fit, forward and backward polynomial undo each other, both ways round. |
| GcpFit.FittedIsLeast | gdal-1.6.1-tcl_patched/alg/gdal_crs.c:737-788 | The values of the fitted polynomial have the least sum of squared differences over the points, and none of another polynomial has as small a one. |
| GcpFit.ImagesFit | gdal-1.6.1-tcl_patched/alg/gdal_crs.c:278-314 | So points evaluated with the fitted coefficients fit the control points. |
| GcpFit.GcpTransformer.Transform | gdal-1.6.1-tcl_patched/alg/gdal_crs.c:278-314 | Every point without a HUGE_VAL coordinate is replaced and marked successful; the others stay and are marked failed. The outputs are those of polynomials of the order that fit the control points in the wanted direction: from pixel and line to x and y exactly if dstToSrc equals reversed. They hit every control point when there are as few as terms, and their sum of squares is least when there are more. |
| GcpFit.CreateGcpTransformer | gdal-1.6.1-tcl_patched/alg/gdal_crs.c:142-224 | Order 1 for fewer than six points and 2 otherwise unless one is asked for; each error if and only if the input calls for it; and otherwise a transformer whose two directions fit the points. |
| Proximity.StepAway | gdal-1.6.1-tcl_patched/alg/gdalproximity.cpp:418-520 | A target at k steps, handed on by a neighbour, costs at most the square of one step more. |
| Proximity.StepsSquared | gdal-1.6.1-tcl_patched/alg/gdalproximity.cpp:396-521 | The square of the city-block distance is at most twice the squared distance. |
| Proximity.UpdatePixel | gdal-1.6.1-tcl_patched/alg/gdalproximity.cpp:420-520 | A pixel takes the nearest of its own, its previous and its next column's target, and improves its proximity only by it. |
| Proximity.SweepStep | gdal-1.6.1-tcl_patched/alg/gdalproximity.cpp:418-520 | One pixel keeps the bound for every target behind the sweep. |
| Proximity.ProcessProximityLine | gdal-1.6.1-tcl_patched/alg/gdalproximity.cpp:396-521 | One sweep of a line keeps targets valid and bounds them for all columns behind. |
| Proximity.ProximityLine | gdal-1.6.1-tcl_patched/alg/gdalproximity.cpp:280-300 | Both sweeps of a line: every pixel is bounded for every target up to this line. |
| Proximity.BothDirections | gdal-1.6.1-tcl_patched/alg/gdalproximity.cpp:266-356 | The top-down and the bottom-up pass together bound every target. |
| Proximity.ComputeProximity | gdal-1.6.1-tcl_patched/alg/gdalproximity.cpp:266-372 | Every pixel gets the value for none exactly when no target is within reach of what was found, else the given value or the multiplied squared distance to a target that is at most the squared city-block distance to any target within reach, and zero on targets. |
| Proximity.WrittenOutcome | gdal-1.6.1-tcl_patched/alg/gdalproximity.cpp:344-356 | What the value, fixed or measured, of a pixel means in coordinates and target values. |
| Proximity.ProximityBound | gdal-1.6.1-tcl_patched/alg/gdalproximity.cpp:146-149 | With the default search distance: no target if and only if no proximity; zero exactly on targets; otherwise between the true squared distance and twice it. |
| Proximity.ProximityReach | gdal-1.6.1-tcl_patched/alg/gdalproximity.cpp:396-521 | With any search distance no target whose steps are within it is missed. |
| MedianCut.TotalSplit | gdal-1.6.1-tcl_patched/alg/gdalmediancut.cpp:427-433 | Cutting a box across an axis divides its pixels. |
| MedianCut.SplitKeepsPartition | gdal-1.6.1-tcl_patched/alg/gdalmediancut.cpp:439-455 | Cutting one box and shrinking both parts keeps all boxes disjoint, tight, and covering every pixel. |
| MedianCut.BoxCount | gdal-1.6.1-tcl_patched/alg/gdalmediancut.cpp:278-284 | There are never more boxes than occupied cells, and exactly as many once none can be split. |
| MedianCut.TotalsAddUp | gdal-1.6.1-tcl_patched/alg/gdalmediancut.cpp:201-212 | The totals of the boxes add up to the number of pixels. |
| MedianCut.SliceOccupied | gdal-1.6.1-tcl_patched/alg/gdalmediancut.cpp:463-544 | A slice is found occupied exactly when a pixel is in it. |
| MedianCut.FirstOccupied | gdal-1.6.1-tcl_patched/alg/gdalmediancut.cpp:467-477 | The first occupied slice of a box. |
| MedianCut.LastOccupied | gdal-1.6.1-tcl_patched/alg/gdalmediancut.cpp:478-489 | The last occupied slice of a box. |
| MedianCut.ShrinkBox | gdal-1.6.1-tcl_patched/alg/gdalmediancut.cpp:463-544 | The box becomes tight on all three axes and loses no pixel. |
| MedianCut.AxisHistogram | gdal-1.6.1-tcl_patched/alg/gdalmediancut.cpp:360-403 | The histogram of a box along an axis has each slice's number of pixels. |
| MedianCut.MedianCutPoint | gdal-1.6.1-tcl_patched/alg/gdalmediancut.cpp:405-416 | The cut comes at the first slice whose cumulated pixels reach half the total, but never before the second slice. |
| MedianCut.ChooseCut | gdal-1.6.1-tcl_patched/alg/gdalmediancut.cpp:360-434 | The axis is a longest one, red before green before blue; the cut is the first slice whose cumulated pixels reach half, with the exact totals on both sides. |
| MedianCut.SplitBox | gdal-1.6.1-tcl_patched/alg/gdalmediancut.cpp:337-457 | The box is cut across its longest axis at its median; both parts are non-empty, the smallest boxes of their pixels, and carry their exact totals. |
| MedianCut.LargestBox | gdal-1.6.1-tcl_patched/alg/gdalmediancut.cpp:319-331 | The first of the splittable boxes with the most pixels, or none exactly if every box is a single cell. |
| MedianCut.Subdivision.Split | gdal-1.6.1-tcl_patched/alg/gdalmediancut.cpp:278-284 | The largest box is cut in two, the lower part in front and the upper one in its place; the partition stays and one free box is used. |
| MedianCut.Subdivision.Step | gdal-1.6.1-tcl_patched/alg/gdalmediancut.cpp:278-284 | A turn cuts the first of the largest boxes or gives up the free ones when none can be split. |
| MedianCut.CollectHistogram | gdal-1.6.1-tcl_patched/alg/gdalmediancut.cpp:228-264 | The histogram counts every pixel in its cell, and the first box is tight around all of them. |
| MedianCut.Subdivide | gdal-1.6.1-tcl_patched/alg/gdalmediancut.cpp:278-284 | The boxes came about by turns from the smallest box of all pixels, and there are as many as the smaller of the colours asked for and the occupied cells. |
| MedianCut.ColorsDistinct | gdal-1.6.1-tcl_patched/alg/gdalmediancut.cpp:289-299 | Different boxes give different colours, all in byte range. |
| MedianCut.TurnsLeaveNoChoice | gdal-1.6.1-tcl_patched/alg/gdalmediancut.cpp:278-284 | The rules of the turns (largest box, longest axis, median, smallest boxes) lead to one list of boxes only. |
| MedianCut.OnePalette | gdal-1.6.1-tcl_patched/alg/gdalmediancut.cpp:107-312 | So there is only one palette of as many colours. |
| MedianCut.PaletteGroups | gdal-1.6.1-tcl_patched/alg/gdalmediancut.cpp:289-299 | Every pixel of the image, in bytes, can be given one of the colours so that each colour is midway between the cells of its pixels on each channel. |
| MedianCut.ComputeMedianCutPct | gdal-1.6.1-tcl_patched/alg/gdalmediancut.cpp:107-312 | Bad colour counts are refused; otherwise as many distinct colours as asked for, or one per occupied cell if fewer, from the boxes that the turns lead to. Every pixel belongs to one colour, and each channel of a colour is in the middle between the lowest and the highest cell of its pixels. |
| ScanFill.RoundedLeft | gdal-1.6.1-tcl_patched/alg/llrasterize.cpp:214-217 | A rounded crossing is at or before a pixel exactly if it lies strictly left of the pixel's centre. |
| ScanFill.CrossingOnEdge | gdal-1.6.1-tcl_patched/alg/llrasterize.cpp:214-216 | The computed crossing lies on its edge. |
| ScanFill.EvenCrossings | gdal-1.6.1-tcl_patched/alg/llrasterize.cpp:160-218 | Over all rings, every row is crossed an even number of times. |
| ScanFill.OutsideExtent | gdal-1.6.1-tcl_patched/alg/llrasterize.cpp:113-138 | Rows outside the truncated extent cover nothing, whatever the signs of the extent. |
| ScanFill.PairsAreOdd | gdal-1.6.1-tcl_patched/alg/llrasterize.cpp:226-240 | Among sorted crossings, a pixel is in a pair exactly when an odd number of them is at or before it. |
| ScanFill.RoundedCount | gdal-1.6.1-tcl_patched/alg/llrasterize.cpp:160-218 | Counting rounded crossings is counting crossings left of the centre. |
| ScanFill.InsideEvenOdd | gdal-1.6.1-tcl_patched/alg/llrasterize.cpp:160-218 | The fill rule is the even-odd rule over the vertices, with the right-to-left horizontal edges added. |
| ScanFill.CollectRow | gdal-1.6.1-tcl_patched/alg/llrasterize.cpp:155-219 | Exactly the rounded half-open crossings of a row, and the spans of its right-to-left horizontal edges. |
| ScanFill.FillPairs | gdal-1.6.1-tcl_patched/alg/llrasterize.cpp:233-242 | The pairs that reach into the raster are filled, without reading beyond the crossings. |
| ScanFill.ImageFilledPolygon | gdal-1.6.1-tcl_patched/alg/llrasterize.cpp:80-246 | A raster pixel is covered exactly if the number of crossings of its row strictly left of its centre is odd, or it is in the rounded span of a right-to-left edge at that height, over the vertices of the parts; every span can be handed to the scanline function. |
| LineDraw.NearestPixel | gdal-1.6.1-tcl_patched/alg/llrasterize.cpp:306-352 | The minor steps after k major steps are the one number within half a pixel of the ideal line, ties broken one way. |
| LineDraw.SegmentShape | gdal-1.6.1-tcl_patched/alg/llrasterize.cpp:296-353 | A segment starts and ends at its rounded ends and moves exactly one on the major and at most one on the minor axis. |
| LineDraw.WithinHalfAPixel | gdal-1.6.1-tcl_patched/alg/llrasterize.cpp:296-353 | In every slope and direction, no pixel is further than half a pixel from the line between the rounded ends. |
| LineDraw.PixelsNearLine | gdal-1.6.1-tcl_patched/alg/llrasterize.cpp:296-353 | A pixel is drawn if and only if it is between the rounded ends and within half a pixel of the line through them. |
| LineDraw.Reversal | gdal-1.6.1-tcl_patched/alg/llrasterize.cpp:296-353 | Drawn the other way round the segment has the same pixel exactly where the ideal line is not halfway between two. |
| LineDraw.DrawSegment | gdal-1.6.1-tcl_patched/alg/llrasterize.cpp:286-353 | The error term visits exactly these pixels, in order, those outside the raster left out. |
| LineDraw.ImageLine | gdal-1.6.1-tcl_patched/alg/llrasterize.cpp:273-356 | Exactly the raster's pixels within half a pixel, on the minor axis, of a line between two rounded neighbouring vertices of a part, ties broken one way. |
| LineDraw.ImagePoint | gdal-1.6.1-tcl_patched/alg/llrasterize.cpp:252-267 | Exactly the raster's pixels whose column and row are the rounded coordinates of a point. |
| Rasterize.CoveredShifted | gdal-1.6.1-tcl_patched/alg/gdalrasterize.cpp:277-316 | A geometry shifted by whole rows covers in its chunk exactly what it covers in the raster. |
| Rasterize.InsideShifted | gdal-1.6.1-tcl_patched/alg/gdalrasterize.cpp:277-279 | The same for the fill rule alone. |
| Rasterize.SegmentShifted | gdal-1.6.1-tcl_patched/alg/gdalrasterize.cpp:277-279 | The same for line segments. |
| Rasterize.CoveredByKind | gdal-1.6.1-tcl_patched/alg/gdalrasterize.cpp:277-316 | What a covered pixel is for points, lines and polygons, each in coordinates. |
| Rasterize.BurnScanline | gdal-1.6.1-tcl_patched/alg/gdalrasterize.cpp:56-106 | Exactly the pixels of the span that are in the buffer get the burn value. |
| Rasterize.BurnPoint | gdal-1.6.1-tcl_patched/alg/gdalrasterize.cpp:112-143 | Exactly the one pixel gets the burn value. |
| Rasterize.RasterizeOneShape | gdal-1.6.1-tcl_patched/alg/gdalrasterize.cpp:234-317 | Exactly the covered pixels of a chunk get the burn value. |
| Rasterize.RasterizeChunk | gdal-1.6.1-tcl_patched/alg/gdalrasterize.cpp:439-473 | The rows of the chunk hold what burning all geometries makes of them; no other row changes. |
| Rasterize.LastOneWins | gdal-1.6.1-tcl_patched/alg/gdalrasterize.cpp:459-465 | The value burned is that of the last covering geometry. |
| Rasterize.BurnedMeans | gdal-1.6.1-tcl_patched/alg/gdalrasterize.cpp:459-465 | A pixel of the finished raster holds the value of the last covering geometry, or what it held before if none covers it. |
| Rasterize.RasterizeChunks | gdal-1.6.1-tcl_patched/alg/gdalrasterize.cpp:439-473 | Every pixel gets the value of the last geometry covering it or stays as it was, for every chunk size from one row up. |
| Rasterize.ChunkSizePositive | gdal-1.6.1-tcl_patched/alg/gdalrasterize.cpp:418-422 | The chunk loop gets on if and only if a scanline has at most ten million bytes. |
| Rasterize.ChunkLoopEnds | gdal-1.6.1-tcl_patched/alg/gdalrasterize.cpp:431-439 | So the chunk loop comes to the end of the raster after some number of turns if and only if a scanline has at most ten million bytes. |
| Rasterize.RasterizeGeometries | gdal-1.6.1-tcl_patched/alg/gdalrasterize.cpp:359-492 | Nothing to burn changes nothing; otherwise the result above. |
| Rasterize.ChunksDoNotMatter | gdal-1.6.1-tcl_patched/alg/gdalrasterize.cpp:439-473 | Only one raster satisfies the result: chunks of any size give the same one. |
| WarpChunks.CollectedTiles | gdal-1.6.1-tcl_patched/alg/gdalwarpoperation.cpp:892-1021 | Chunks and dropped windows hold every point of the window exactly once and no other point; after a failure none twice. |
| WarpChunks.CollectedRight | gdal-1.6.1-tcl_patched/alg/gdalwarpoperation.cpp:892-1021 | Every chunk has its own source window, is not empty, and fits the memory limit or is at most 2 by 2; windows are dropped only for want of a source and with SKIP_NOSOURCE. |
| WarpChunks.CollectedOk | gdal-1.6.1-tcl_patched/alg/gdalwarpoperation.cpp:901-905 | Collection fails exactly if a window that it reaches has no computable source window. |
| WarpChunks.CollectedArea | gdal-1.6.1-tcl_patched/alg/gdalwarpoperation.cpp:628-637 | The pixels of chunks and dropped windows add up to the window's, so that progress adds up. |
| WarpChunks.HalvesSmaller | gdal-1.6.1-tcl_patched/alg/gdalwarpoperation.cpp:964-995 | Both halves are smaller, so that the recursion ends for every memory cost. |
| WarpChunks.HalvesEven | gdal-1.6.1-tcl_patched/alg/gdalwarpoperation.cpp:964-995 | A window is halved across its longer side, the second half at most one larger. |
| WarpChunks.ExceedsInBits | gdal-1.6.1-tcl_patched/alg/gdalwarpoperation.cpp:921-965 | A chunk is too large exactly if the bits of its bands, masks and densities exceed the limit. |
| WarpChunks.CollectedInOrder | gdal-1.6.1-tcl_patched/alg/gdalwarpoperation.cpp:964-1021 | Chunks come left before right and top before bottom, all within the window. |
| WarpChunks.CollectedNeeded | gdal-1.6.1-tcl_patched/alg/gdalwarpoperation.cpp:964-1000 | No window is halved without need: a chunk is the whole window or a half of a part of it that was too large. |
| WarpChunks.WarpOperation.CollectChunkList | gdal-1.6.1-tcl_patched/alg/gdalwarpoperation.cpp:892-1021 | Appends exactly the collected chunks and reports whether all windows were computable. |
| WarpChunks.WarpedAllRight | gdal-1.6.1-tcl_patched/alg/gdalwarpoperation.cpp:646-664 | Warping disjoint chunks in turn never lets one see what another wrote. |
| WarpChunks.WarpOperation.WarpRegion | gdal-1.6.1-tcl_patched/alg/gdalwarpoperation.cpp:1054-1213 | A point of the chunk holds what the kernel makes of a buffer that starts from the initial value, if there is one, and from the dataset otherwise; all other points, and which points there are, stay. |
| WarpChunks.WarpOperation.ChunkAndWarpImage | gdal-1.6.1-tcl_patched/alg/gdalwarpoperation.cpp:616-671 | Every point of a chunk holds what its chunk makes of the original image; all other points stay. |
| WarpChunks.EveryPointWarped | gdal-1.6.1-tcl_patched/alg/gdalwarpoperation.cpp:616-671 | Without SKIP_NOSOURCE and with computable windows every point of the window is warped by the one chunk that holds it. |
| WarpChunks.InitDestForgets | gdal-1.6.1-tcl_patched/alg/gdalwarpoperation.cpp:1095-1142 | With INIT_DEST what is written does not depend on what the destination held. |
| WarpThreads.StepKeepsControl | gdal-1.6.1-tcl_patched/alg/gdalwarpoperation.cpp:694-856 | Every step of every thread keeps who holds which mutex, what the slots say, and how far each thread is. |
| WarpThreads.WaitEnds | gdal-1.6.1-tcl_patched/alg/gdalwarpoperation.cpp:832-843 | A slot that is no longer busy belongs to a thread that is done, with its result in the slot. |
| WarpThreads.StepKeepsInvariant | gdal-1.6.1-tcl_patched/alg/gdalwarpoperation.cpp:694-856 | Every step also keeps the buffers and the dataset right. |
| WarpThreads.UntouchedPoint | gdal-1.6.1-tcl_patched/alg/gdalwarpoperation.cpp:1066-1074 | A point of a chunk stays as it was until the chunk's own thread writes it. |
| WarpThreads.MutualExclusion | gdal-1.6.1-tcl_patched/alg/gdalwarpoperation.cpp:1066-1213 | In every reachable state at most one thread is in its I/O part and at most one in its warp. |
| WarpThreads.TwoRunning | gdal-1.6.1-tcl_patched/alg/gdalwarpoperation.cpp:797-843 | A slot is filled again only when its previous chunk is done; no more than two chunks, neighbours in the list, are ever unfinished. |
| WarpThreads.OutcomeIsSuccess | gdal-1.6.1-tcl_patched/alg/gdalwarpoperation.cpp:841-846 | The result the main thread reads is the finished thread's, never a chunk's address. |
| WarpThreads.ThreadedIsSequential | gdal-1.6.1-tcl_patched/alg/gdalwarpoperation.cpp:781-856 | In every run, once the main thread is through, the dataset equals the one from warping the chunks one after another. |
| WarpThreads.ChunkAndWarpMulti | gdal-1.6.1-tcl_patched/alg/gdalwarpoperation.cpp:749-856 | The same for the chunks collected from any window. |
| WarpThreads.ReachableInvariant | gdal-1.6.1-tcl_patched/alg/gdalwarpoperation.cpp:694-856 | Every state of every run satisfies these invariants. |
| WarpThreads.NeverStuck | gdal-1.6.1-tcl_patched/alg/gdalwarpoperation.cpp:824-856 | No such state before the end is stuck: after at most two steps of the waiting loop some step brings the end nearer. |
| WarpThreads.CanFinish | gdal-1.6.1-tcl_patched/alg/gdalwarpoperation.cpp:781-856 | From every such state some further steps lead to the end. |
| WarpThreads.SomeRunFinishes | gdal-1.6.1-tcl_patched/alg/gdalwarpoperation.cpp:781-856 | The end is reachable from the start, with every chunk warped. |
| WarpThreads.RunIsBounded | gdal-1.6.1-tcl_patched/alg/gdalwarpoperation.cpp:781-856 | Every run has only so many steps outside of the main thread's waiting loops. |
| ContourCells.PerturbedOffLevels | gdal-1.6.1-tcl_patched/alg/contour.cpp:680-702 | No pixel value stays on a level; only values that were on one are moved, by a thousandth of the interval. |
| ContourCells.CrossingSymmetric | gdal-1.6.1-tcl_patched/alg/contour.cpp:569-598 | An edge with both ends off the level is crossed or not, at the very same point, in both directions. |
| ContourCells.CrossingInside | gdal-1.6.1-tcl_patched/alg/contour.cpp:569-598 | A crossing lies strictly inside its edge. |
| ContourCells.CrossingReaches | gdal-1.6.1-tcl_patched/alg/contour.cpp:569-598 | A crossing divides its edge as the level divides the values at its ends. |
| ContourCells.NoneTwoOrFour | gdal-1.6.1-tcl_patched/alg/contour.cpp:517-560 | A cell off the level has 0, 2 or 4 crossings, and each is used by a segment. |
| ContourCells.LeftOverIff | gdal-1.6.1-tcl_patched/alg/contour.cpp:517-560 | Whatever the corners, a crossing of the cell is left without a segment if and only if just one corner touches the level from one side or an edge on the level is opposite to a crossed one. |
| ContourCells.LevelVisited | gdal-1.6.1-tcl_patched/alg/contour.cpp:501-507 | The loop over levels visits every level that crosses the cell. |
| ContourCells.EndpointOnce | gdal-1.6.1-tcl_patched/alg/contour.cpp:535-556 | The crossing of an edge is the end of exactly one segment of the cell at that level. |
| ContourCells.SharedCrossing | gdal-1.6.1-tcl_patched/alg/contour.cpp:311-318 | Both cells beside a grid edge get the identical crossing from it. |
| ContourCells.Watertight | gdal-1.6.1-tcl_patched/alg/contour.cpp:311-318 | Where a level crosses a grid edge, the crossing is the end of exactly two segments of that level over all interior cells, one on the outer edge. |
| ContourCells.Intersect | gdal-1.6.1-tcl_patched/alg/contour.cpp:569-598 | Adds a point exactly if the edge is crossed, and it divides the edge as the level divides its values. |
| ContourCells.RectSegments | gdal-1.6.1-tcl_patched/alg/contour.cpp:517-560 | The segments of one level of a cell. |
| ContourCells.SegmentsReach | gdal-1.6.1-tcl_patched/alg/contour.cpp:517-560 | Both ends of a segment are where the level is reached on an edge, between unequal corners. |
| ContourCells.FourJoined | gdal-1.6.1-tcl_patched/alg/contour.cpp:535-559 | With four crossings one segment joins the left to the lower edge, the other the right to the upper one. |
| ContourCells.ProcessRect | gdal-1.6.1-tcl_patched/alg/contour.cpp:433-563 | The segments of all levels of a cell, in order. |
| ContourCells.CellReaches | gdal-1.6.1-tcl_patched/alg/contour.cpp:501-560 | Every segment of a cell is on a level offset plus a multiple of the interval, and interpolates its corners. |
| ContourLines.MergedSound | gdal-1.6.1-tcl_patched/alg/contour.cpp:1122-1218 | In each of the four cases merging keeps every segment, adds up the edges, and leaves every edge within JOIN_DIST of its segment and both tips exact. |
| ContourLines.ContourItem.AddSegment | gdal-1.6.1-tcl_patched/alg/contour.cpp:1061-1116 | A segment is taken exactly if the contour is empty or one of its ends is near the last tip. |
| ContourLines.ContourItem.Merge | gdal-1.6.1-tcl_patched/alg/contour.cpp:1122-1218 | Merges exactly when levels agree and two tips meet, into the contour above. |
| ContourLines.JoinPoints | gdal-1.6.1-tcl_patched/alg/contour.cpp:1132-1214 | The copied and reversed points are those of the merged contour. |
| ContourLines.ContourLevel.AdjustContour | gdal-1.6.1-tcl_patched/alg/contour.cpp:888-909 | Moves one entry; entries and segments stay the same, and if the other tails are in order then all are afterwards. |
| ContourLines.ContourLevel.RemoveContour | gdal-1.6.1-tcl_patched/alg/contour.cpp:915-923 | Takes out one entry and exactly its segments. |
| ContourLines.ContourLevel.FindContour | gdal-1.6.1-tcl_patched/alg/contour.cpp:932-966 | Exactly what the binary search and the steps back and forth come to, and its tail is within JOIN_DIST of the point. |
| ContourLines.FoundIff | gdal-1.6.1-tcl_patched/alg/contour.cpp:932-966 | With tails in order something is found if and only if a tail has the very column, the leftmost tail is within JOIN_DIST of it, and a tail is near the point; then it is the first one that is near. |
| ContourLines.FoundCanMiss | gdal-1.6.1-tcl_patched/alg/contour.cpp:932-966 | A tail at the very point is overlooked when another one is further left. |
| ContourLines.ContourLevel.InsertContour | gdal-1.6.1-tcl_patched/alg/contour.cpp:975-1020 | Puts in one entry and exactly its segments, at the place that the search for its level ends at. |
| ContourLines.InsertedInOrder | gdal-1.6.1-tcl_patched/alg/contour.cpp:989-1020 | That place divides tails in order by the level, and inserting keeps the order if and only if no tail is on the wrong side of the new one. |
| ContourLines.InsertCanDisorder | gdal-1.6.1-tcl_patched/alg/contour.cpp:989-1020 | It loses the order of a given tail and a new one left of it. |
| ContourLines.ContourLevel.Attach | gdal-1.6.1-tcl_patched/alg/contour.cpp:604-645 | The contour that is found always takes the segment, so that the ignored result is always TRUE; exactly this segment is added to the level. What the end of smaller y finds is extended, order kept, and no other entry changes; if nothing is found there is one entry more. |
| ContourLines.ContourLevel.MergeInto | gdal-1.6.1-tcl_patched/alg/contour.cpp:776-782 | A contour is merged into the first one that it meets, or, if it meets none, nothing changes. |
| ContourLines.ContourLevel.Eject | gdal-1.6.1-tcl_patched/alg/contour.cpp:751-796 | Contours merge or go out, and together keep all segments; with onlyUnused exactly those touched by the last line stay, else none; and what goes out meets neither what stays nor anything else that goes out. |
| ContourLines.ContourGenerator.FindLevel | gdal-1.6.1-tcl_patched/alg/contour.cpp:806-848 | The level found or inserted by binary search has the value asked for, levels stay ascending, and no segment changes its place. |
| ContourLines.ContourGenerator.AddSegment | gdal-1.6.1-tcl_patched/alg/contour.cpp:604-645 | Adds exactly one segment to the live contours. |
| ContourLines.ContourGenerator.EjectContours | gdal-1.6.1-tcl_patched/alg/contour.cpp:745-800 | Every segment added so far is in a live or in a written contour, as often as it was added; what the last line touched stays live, and nothing else. |
| ContourLines.ContourGenerator.Perturb | gdal-1.6.1-tcl_patched/alg/contour.cpp:680-692 | A value on a level is moved by a thousandth of the interval, and then on none; nodata and all other values stay. |
| ContourLines.ProcessPixel | gdal-1.6.1-tcl_patched/alg/contour.cpp:280-428 | The segments of a pixel's cell or quadrants, nodata corners left out. |
| ContourLines.ContourGenerator.FeedOne | gdal-1.6.1-tcl_patched/alg/contour.cpp:651-734 | One line adds the segments of its cells. |
| ContourLines.ContourGenerator.FeedLine | gdal-1.6.1-tcl_patched/alg/contour.cpp:651-739 | After the last line everything is written and every level is empty. |
| ContourLines.EdgesAddUp | gdal-1.6.1-tcl_patched/alg/contour.cpp:745-800 | What was written has one edge, a pair of neighbouring points, for each segment added. |
| ContourImage.FudgedGrid | gdal-1.6.1-tcl_patched/alg/contour.cpp:680-702 | The stored lines form a grid without pixels on a level, as the watertightness above needs it. |
| ContourImage.ImageFed | gdal-1.6.1-tcl_patched/alg/contour.cpp:651-739 | Feeding an image line by line adds the segments of all its lines of cells, with the border above the first line and, from feeding the last line once more, the one below it. |
| ContourImage.InteriorPixel | gdal-1.6.1-tcl_patched/alg/contour.cpp:280-318 | Inside the image and without nodata a pixel has its one cell processed. |
| ContourImage.CellCovered | gdal-1.6.1-tcl_patched/alg/contour.cpp:280-428 | The rectangles of a pixel cover exactly the part of its cell inside the image, without the quarters of nodata pixels. |
| ContourImage.CellOnce | gdal-1.6.1-tcl_patched/alg/contour.cpp:280-428 | No two of them overlap. |
| ContourImage.CornersSampled | gdal-1.6.1-tcl_patched/alg/contour.cpp:280-428 | Without nodata every corner has the mean of the pixels around it, at its place. |
| ContourImage.InteriorWritten | gdal-1.6.1-tcl_patched/alg/contour.cpp:311-318 | Every segment of every interior cell is part of a line that is written. |
| ContourImage.WrittenTraced | gdal-1.6.1-tcl_patched/alg/contour.cpp:651-800 | Every segment that is written has both ends where its level is reached on an edge of a cell or quadrant of the image. |
| ContourImage.LinesTraced | gdal-1.6.1-tcl_patched/alg/contour.cpp:745-800 | So every written line has its level and runs, point by point within JOIN_DIST, along such segments. |
| ContourImage.PixelUsed | gdal-1.6.1-tcl_patched/alg/contour.cpp:280-428 | All crossings are used in each cell without nodata corners and in each quadrant at the border, even where a quadrant's corner is on the level or a pixel has the nodata value. |
| ContourImage.ContourGenerate | gdal-1.6.1-tcl_patched/alg/contour.cpp:1423-1506 | The lines written for a whole image run, all together, once along every segment that was added, with no edge off by JOIN_DIST; each of these segments is at its level on two edges of a cell or quadrant. |
| ContourImage.EveryCrossingUsed | gdal-1.6.1-tcl_patched/alg/contour.cpp:280-428 | So in a whole image no crossing is lost at any level, but in an interior cell with a nodata corner: every other cell and quadrant has 0, 2 or 4, each the end of a segment. |
| ContourImage.NoDataLeavesOver | gdal-1.6.1-tcl_patched/alg/contour.cpp:354-428 | There it can be: beside the nodata pixel of the given 2 by 2 image a quadrant has one crossing and no segment. |
| ApproxTransform.ApproxBlocks | gdal-1.6.1-tcl_patched/alg/gdaltransformer.cpp:1725-1821 | The result falls into consecutive runs, each exact or interpolated with acceptable middle. |
| ApproxTransform.ApproxProduces | gdal-1.6.1-tcl_patched/alg/gdaltransformer.cpp:1725-1821 | The result follows the rules in coordinates: a run is transformed exactly if short, not level or vertical, or a base point fails; interpolated as a whole exactly if its middle is then within dfMaxError; and halved otherwise. |
| ApproxTransform.ProducesOne | gdal-1.6.1-tcl_patched/alg/gdaltransformer.cpp:1725-1821 | Only one result follows these rules. |
| ApproxTransform.InterpolatedWell | gdal-1.6.1-tcl_patched/alg/gdaltransformer.cpp:1768-1818 | In an interpolated run the ends are exact, and the middle is off by at most dfMaxError in x and y together. |
| ApproxTransform.AffineExact | gdal-1.6.1-tcl_patched/alg/gdaltransformer.cpp:1768-1818 | On points of one y whose z is linear in x, an affine transformation is reproduced exactly, however the points fall into runs. |
| ApproxTransform.OffChordFails | gdal-1.6.1-tcl_patched/alg/gdaltransformer.cpp:1768-1818 | In a run that may be interpolated, a point off the line from the first to the last one comes out wrong even under the identity. |
| ApproxTransform.UnlevelFails | gdal-1.6.1-tcl_patched/alg/gdaltransformer.cpp:1768-1818 | So it does when the ends have the same z and the point another one. |
| ApproxTransform.AffineExactIff | gdal-1.6.1-tcl_patched/alg/gdaltransformer.cpp:1725-1821 | All affine transformations are reproduced exactly if and only if dfMaxError is negative, the run may not be interpolated, or every point has the first one's y and the z of the line from the first to the last. |
| ApproxTransform.InterpolateRun | gdal-1.6.1-tcl_patched/alg/gdaltransformer.cpp:1811-1818 | Going backwards in place interpolates every point from the original first and last one. |
| ApproxTransform.TransformHalves | gdal-1.6.1-tcl_patched/alg/gdaltransformer.cpp:1778-1802 | Both halves in place, the second starting at the middle. |
| ApproxTransform.Transform | gdal-1.6.1-tcl_patched/alg/gdaltransformer.cpp:1725-1821 | In place, the result is the one result that follows the rules of the approximation; nothing outside of the run changes. |

## Left out

- Raster input and output, datasets, drivers, progress callbacks, error reports, allocation failure and OGR
  geometry access: bands are rows of values, and shapes are lists of points already in pixel coordinates.
- Floating-point rounding, NaN, HUGE_VAL and integer overflow: all arithmetic is exact. HUGE_VAL, where it
  marks a point that failed before, is one number (GcpFit.GcpTransformer.Transform).
- Conversions between pixel types, several bands at once, and the byte offsets inside buffers: one band of one
  value per pixel. Burning into several bands repeats the same steps per band.
- Growth of arrays by reallocation: sequences grow as needed.
- Sorting: `qsort` is modelled by a sorting function on sequences whose result is copied back.
- PolygonEnumerator.RasterPolygonEnumerator.ProcessLine: the arrays of ids and values are sequences in fields that the methods reassign.
- Proximity.ComputeProximity: proximities stay squared; the final square root, and the rounding of proximities that are
  kept between the passes in a working band of an integer type, are not modelled.
- Labelling.Labelling8Sound: not every 8-connected pair gets one id, because the code overlooks some corners; the exact
  condition is in Labelling8ExactIff.
- SieveFilter.SieveFilter: filtering twice is not the same as filtering once, because merging changes sizes; nothing is
  stated about a second run.
- MedianCut.Subdivision.Split: the linked lists of used and free boxes are a sequence and a count.
- MedianCut.ComputeMedianCutPct: the check that the three bands have one size is not modelled; the image is a sequence of
  colours.
- ScanFill.ImageFilledPolygon: every part has at least one point, as the code needs it to read the vertex before. The
  spans are returned in a list where the code calls back.
- Rasterize.RasterizeGeometries: requires a scanline of at most ten million bytes, because with a longer one the chunk
  loop of the code never comes to an end (ChunkSizePositive, ChunkLoopEnds).
- ContourLines.ContourGenerator.FeedLine: a caller that feeds no line at all, which the code allows, is not modelled; only
  the one made after the last line is. The segments of a line are collected first and then added in the same order.
- Contours at fixed levels, and an interval of zero or less.
- ContourCells.Watertight: concerns the interior cells of an image without nodata. Of the quadrants at the border it is
  stated that they lose no crossing (ContourImage.EveryCrossingUsed), not which neighbour shares it.
- WarpThreads.ThreadedIsSequential: covers runs without errors and without timeouts in a thread's mutexes; the main thread's
  timeouts are included. Source and destination are different datasets, and a chunk's warp is a function of
  its buffer.
- WarpThreads.RunIsBounded: the number of turns of the main thread's waiting loop is not bounded, because it depends on the scheduler.
- WarpChunks.WarpOperation.CollectChunkList: the source window is a given function of the destination window.
- ApproxTransform.Transform: the base transformer works point by point and always returns, with a success flag per point.
- Dithering, the warp kernel's resampling loops, gridding, RPC, thin plate splines, geolocation arrays, checksums
  and cutlines: transcendental, repetitive or shallow.
