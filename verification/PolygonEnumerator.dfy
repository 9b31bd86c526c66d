/** The raster polygon enumerator (gdalrasterpolygonenumerator.cpp): provisional ids
    are assigned one scanline at a time, and a union-find forest over the ids records
    which of them turned out to be the same polygon. */
module PolygonEnumerator {
  import opened Raster

  // ---------------------------------------------------------------------
  //  The specification of one scanline
  // ---------------------------------------------------------------------

  /** What ProcessLine looks at: the previous line with its ids (empty for the first
      line of the raster), this line's values, and the connectedness. */
  datatype LinePair = LinePair(lastVal: seq<int>, lastId: seq<int>, thisVal: seq<int>, conn: int) {
    predicate Above(i: int, v: int) { 0 <= i < |lastVal| && lastVal[i] == v }

    predicate SameAsLeft(i: nat)
      requires i < |thisVal|
    {
      i > 0 && thisVal[i] == thisVal[i-1]
    }

    /** The pixel continues no polygon seen so far. */
    predicate Fresh(i: nat)
      requires i < |thisVal|
    {
      var v := thisVal[i];
      && !SameAsLeft(i)
      && !Above(i, v)
      && !(conn == 8 && Above(i - 1, v))
      && !(conn == 8 && Above(i + 1, v))
    }

    /** Two polygons meet at this pixel: one from the left, one from above. */
    predicate Joins(i: nat)
      requires i < |thisVal|
    {
      SameAsLeft(i) && Above(i, thisVal[i])
    }

    ghost predicate WellFormed(next: int) {
      && 0 <= next
      && |lastId| == |lastVal|
      && (|lastVal| == 0 || |lastVal| == |thisVal|)
      && (forall i :: 0 <= i < |lastId| ==> 0 <= lastId[i] < next)
    }
  }

  /** The next unused id after the first n pixels of the line. */
  ghost function LineNext(l: LinePair, next: nat, n: nat): (r: nat)
    requires n <= |l.thisVal|
    ensures next <= r
  {
    if n == 0 then next else LineNext(l, next, n - 1) + (if l.Fresh(n - 1) then 1 else 0)
  }

  /** The provisional ids of the first n pixels.  They depend on the values, on the ids
      above and on the next id, never on the state of the forest. */
  ghost function LineIds(l: LinePair, next: nat, n: nat): (ids: seq<int>)
    requires l.WellFormed(next) && n <= |l.thisVal|
    ensures |ids| == n
    ensures forall i :: 0 <= i < n ==> 0 <= ids[i] < LineNext(l, next, n)
  {
    if n == 0 then [] else
      var ids := LineIds(l, next, n - 1);
      var v := l.thisVal[n-1];
      ids + [if l.SameAsLeft(n - 1) then ids[n-2]
             else if l.Above(n - 1, v) then l.lastId[n-1]
             else if l.conn == 8 && l.Above(n - 2, v) then l.lastId[n-2]
             else if l.conn == 8 && l.Above(n, v) then l.lastId[n]
             else LineNext(l, next, n - 1)]
  }

  /** The values recorded for the ids. */
  ghost function LineValues(l: LinePair, values: seq<int>, n: nat): (r: seq<int>)
    requires n <= |l.thisVal|
    ensures |r| == LineNext(l, |values|, n)
  {
    if n == 0 then values else
      LineValues(l, values, n - 1) + (if l.Fresh(n - 1) then [l.thisVal[n-1]] else [])
  }

  /** Every id of src's tree now has dst's root. */
  ghost function MergeRoots(root: seq<int>, src: int, dst: int): (r: seq<int>)
    requires 0 <= src < |root| && 0 <= dst < |root|
    ensures |r| == |root|
  {
    seq(|root|, k requires 0 <= k < |root| => if root[k] == root[src] then root[dst] else root[k])
  }

  /** The root of every id after the first n pixels. */
  ghost function LineRoots(l: LinePair, root: seq<int>, n: nat): (r: seq<int>)
    requires l.WellFormed(|root|) && n <= |l.thisVal|
    ensures |r| == LineNext(l, |root|, n)
  {
    if n == 0 then root else
      var r := LineRoots(l, root, n - 1);
      if l.Fresh(n - 1) then r + [|r|]
      else if l.Joins(n - 1) then
        MergeRoots(r, l.lastId[n-1], LineIds(l, |root|, n)[n-1])
      else r
  }

  lemma {:induction false} LineIdsPrefix(l: LinePair, next: nat, k: nat, n: nat)
    requires l.WellFormed(next) && k <= n <= |l.thisVal|
    ensures LineIds(l, next, k) == LineIds(l, next, n)[..k]
  {
    if k < n {
      LineIdsPrefix(l, next, k, n - 1);
    } else {
      assert LineIds(l, next, n)[..n] == LineIds(l, next, n);
    }
  }

  // ---------------------------------------------------------------------
  //  The forest
  // ---------------------------------------------------------------------

  /** Parent pointers form an acyclic forest: `root` is constant along every parent
      pointer and fixed exactly at the roots, and `depth` strictly falls along it. */
  ghost predicate IsForest(parent: seq<int>, root: seq<int>, depth: seq<nat>) {
    && |root| == |parent| && |depth| == |parent|
    && (forall a {:trigger parent[a]} :: 0 <= a < |parent| ==> 0 <= parent[a] < |parent|)
    && (forall a {:trigger parent[a]} :: 0 <= a < |parent| ==> root[parent[a]] == root[a])
    && (forall a {:trigger parent[a]} :: 0 <= a < |parent| && parent[a] == a ==> root[a] == a)
    && (forall a {:trigger parent[a]} :: 0 <= a < |parent| && parent[a] != a ==> depth[parent[a]] < depth[a])
    && (forall a {:trigger root[a]} :: 0 <= a < |root| ==> 0 <= root[a] < |root| && parent[root[a]] == root[a])
  }

  /** Pointing an id at its grandparent keeps the forest, its roots and its depths. */
  lemma ShortcutKeepsForest(parent: seq<int>, root: seq<int>, depth: seq<nat>, a: int)
    requires IsForest(parent, root, depth) && 0 <= a < |parent|
    ensures var g := parent[parent[a]];
            0 <= g < |parent| && IsForest(parent[a := g], root, depth)
            && (g == parent[a] || depth[g] < depth[parent[a]])
  {
  }

  /** Hanging one root under another adds the depth of the new parent to a whole tree. */
  ghost function Deepened(root: seq<int>, depth: seq<nat>, src: int, d: nat): (r: seq<nat>)
    requires |root| == |depth|
    ensures |r| == |depth|
  {
    seq(|depth|, k requires 0 <= k < |depth| => if root[k] == src then depth[k] + d + 1 else depth[k])
  }

  class RasterPolygonEnumerator {
    var polyIdMap: seq<int>
    var polyValue: seq<int>
    var nextPolygonId: int
    const connectedness: int

    ghost var root: seq<int>
    ghost var depth: seq<nat>

    ghost predicate Valid()
      reads this
    {
      && nextPolygonId == |polyIdMap| == |polyValue|
      && IsForest(polyIdMap, root, depth)
    }

    constructor (connectedness: int)
      ensures Valid() && this.connectedness == connectedness
      ensures nextPolygonId == 0 && root == [] && polyValue == []
    {
      polyIdMap, polyValue, nextPolygonId := [], [], 0;
      this.connectedness := connectedness;
      root, depth := [], [];
    }

    method Clear()
      modifies this
      ensures Valid() && nextPolygonId == 0 && root == [] && polyValue == []
    {
      polyIdMap, polyValue, nextPolygonId := [], [], 0;
      root, depth := [], [];
    }

    method NewPolygon(value: int) returns (polyId: int)
      requires Valid()
      modifies this
      ensures Valid()
      ensures polyId == old(nextPolygonId) && nextPolygonId == polyId + 1
      ensures root == old(root) + [polyId]
      ensures polyValue == old(polyValue) + [value]
    {
      polyId := nextPolygonId;
      nextPolygonId := nextPolygonId + 1;
      polyIdMap := polyIdMap + [polyId];
      polyValue := polyValue + [value];
      root := root + [polyId];
      depth := depth + [0];
    }

    /** Follows parent pointers to the root. */
    method FindRoot(id: int) returns (r: int)
      requires Valid() && 0 <= id < nextPolygonId
      ensures r == root[id]
    {
      r := id;
      while polyIdMap[r] != r
        invariant 0 <= r < nextPolygonId && root[r] == root[id]
        decreases depth[r]
      {
        r := polyIdMap[r];
      }
    }

    method MergePolygon(srcId: int, dstId: int)
      requires Valid() && 0 <= srcId < nextPolygonId && 0 <= dstId < nextPolygonId
      modifies this
      ensures Valid()
      ensures root == MergeRoots(old(root), srcId, dstId)
      ensures nextPolygonId == old(nextPolygonId) && polyValue == old(polyValue)
    {
      var dst := FindRoot(dstId);
      var src := FindRoot(srcId);
      if src == dst {
        assert root == MergeRoots(root, srcId, dstId);
        return;
      }
      depth := Deepened(root, depth, src, depth[dst]);
      polyIdMap := polyIdMap[src := dst];
      root := MergeRoots(root, srcId, dstId);
    }

    /** Every id points straight at its root; the partition itself does not change. */
    method CompleteMerges()
      requires Valid()
      modifies this
      ensures Valid()
      ensures polyIdMap == root == old(root)
      ensures nextPolygonId == old(nextPolygonId) && polyValue == old(polyValue)
    {
      var iPoly := 0;
      while iPoly < nextPolygonId
        invariant 0 <= iPoly <= nextPolygonId
        invariant Valid() && root == old(root)
        invariant nextPolygonId == old(nextPolygonId) && polyValue == old(polyValue)
        invariant forall a :: 0 <= a < iPoly ==> polyIdMap[a] == root[a]
      {
        CompletePolygon(iPoly);
        iPoly := iPoly + 1;
      }
    }

    method CompletePolygon(iPoly: int)
      requires Valid() && 0 <= iPoly < nextPolygonId
      modifies this
      ensures Valid() && root == old(root)
      ensures polyIdMap == old(polyIdMap)[iPoly := root[iPoly]]
      ensures nextPolygonId == old(nextPolygonId) && polyValue == old(polyValue)
    {
      while polyIdMap[iPoly] != polyIdMap[polyIdMap[iPoly]]
        invariant Valid() && root == old(root) && depth == old(depth)
        invariant nextPolygonId == old(nextPolygonId) && polyValue == old(polyValue)
        invariant polyIdMap == old(polyIdMap)[iPoly := polyIdMap[iPoly]]
        decreases depth[polyIdMap[iPoly]]
      {
        ShortcutKeepsForest(polyIdMap, root, depth, iPoly);
        polyIdMap := polyIdMap[iPoly := polyIdMap[polyIdMap[iPoly]]];
      }
    }

    /** One scanline; lastVal and lastId are null exactly on the first line. */
    method ProcessLine(lastVal: array?<int>, thisVal: array<int>, lastId: array?<int>, thisId: array<int>,
                       ghost l: LinePair)
      requires Valid()
      requires thisId.Length == thisVal.Length && thisId != thisVal && thisId != lastVal && thisId != lastId
      requires lastVal != null <==> lastId != null
      requires lastVal != null && lastId != null ==> lastVal.Length == lastId.Length == thisVal.Length
      requires l == LinePair(if lastVal == null then [] else lastVal[..], if lastId == null then [] else lastId[..],
                             thisVal[..], connectedness)
      requires l.WellFormed(nextPolygonId)
      modifies this, thisId
      ensures Valid()
      ensures thisId[..] == LineIds(l, old(nextPolygonId), thisVal.Length)
      ensures nextPolygonId == LineNext(l, old(nextPolygonId), thisVal.Length)
      ensures root == LineRoots(l, old(root), thisVal.Length)
      ensures polyValue == LineValues(l, old(polyValue), thisVal.Length)
    {
      if lastVal == null {
        FirstLine(thisVal, thisId, l);
      } else {
        LaterLine(lastVal, thisVal, lastId, thisId, l);
      }
    }

    method FirstLine(thisVal: array<int>, thisId: array<int>, ghost l: LinePair)
      requires Valid()
      requires thisId.Length == thisVal.Length && thisId != thisVal
      requires l == LinePair([], [], thisVal[..], connectedness)
      modifies this, thisId
      ensures Valid()
      ensures thisId[..] == LineIds(l, old(nextPolygonId), thisVal.Length)
      ensures nextPolygonId == LineNext(l, old(nextPolygonId), thisVal.Length)
      ensures root == LineRoots(l, old(root), thisVal.Length)
      ensures polyValue == LineValues(l, old(polyValue), thisVal.Length)
    {
      hide MergeRoots;
      var n := thisVal.Length;
      for i := 0 to n
        invariant Valid() && thisVal[..] == old(thisVal[..])
        invariant thisId[..i] == LineIds(l, old(nextPolygonId), i)
        invariant nextPolygonId == LineNext(l, old(nextPolygonId), i)
        invariant root == LineRoots(l, old(root), i)
        invariant polyValue == LineValues(l, old(polyValue), i)
      {
        if i == 0 || thisVal[i] != thisVal[i-1] {
          var id := NewPolygon(thisVal[i]);
          thisId[i] := id;
        } else {
          thisId[i] := thisId[i-1];
        }
        assert thisId[..i+1] == thisId[..i] + [thisId[i]];
      }
      assert thisId[..n] == thisId[..];
    }

    method LaterLine(lastVal: array<int>, thisVal: array<int>, lastId: array<int>, thisId: array<int>,
                     ghost l: LinePair)
      requires Valid()
      requires lastVal.Length == lastId.Length == thisId.Length == thisVal.Length
      requires thisId != thisVal && thisId != lastVal && thisId != lastId
      requires l == LinePair(lastVal[..], lastId[..], thisVal[..], connectedness)
      requires l.WellFormed(nextPolygonId)
      modifies this, thisId
      ensures Valid()
      ensures thisId[..] == LineIds(l, old(nextPolygonId), thisVal.Length)
      ensures nextPolygonId == LineNext(l, old(nextPolygonId), thisVal.Length)
      ensures root == LineRoots(l, old(root), thisVal.Length)
      ensures polyValue == LineValues(l, old(polyValue), thisVal.Length)
    {
      var n := thisVal.Length;
      for i := 0 to n
        invariant Valid()
        invariant thisVal[..] == l.thisVal && lastVal[..] == l.lastVal && lastId[..] == l.lastId
        invariant thisId[..i] == LineIds(l, old(nextPolygonId), i)
        invariant nextPolygonId == LineNext(l, old(nextPolygonId), i)
        invariant root == LineRoots(l, old(root), i)
        invariant polyValue == LineValues(l, old(polyValue), i)
      {
        ProcessPixel(lastVal, thisVal, lastId, thisId, i, l, old(nextPolygonId), old(root), old(polyValue));
      }
      assert thisId[..n] == thisId[..];
    }

    /** Merges two polygons unless they already point at the same one. */
    method MergeIfDifferent(srcId: int, dstId: int)
      requires Valid() && 0 <= srcId < nextPolygonId && 0 <= dstId < nextPolygonId
      modifies this
      ensures Valid() && root == MergeRoots(old(root), srcId, dstId)
      ensures nextPolygonId == old(nextPolygonId) && polyValue == old(polyValue)
    {
      if polyIdMap[srcId] != polyIdMap[dstId] {
        MergePolygon(srcId, dstId);
      } else {
        assert root == MergeRoots(root, srcId, dstId);
      }
    }

    /** The body of the loop over the pixels of a line that has a line above it. */
    method ProcessPixel(lastVal: array<int>, thisVal: array<int>, lastId: array<int>, thisId: array<int>, i: nat,
                        ghost l: LinePair, ghost next0: nat, ghost root0: seq<int>, ghost value0: seq<int>)
      requires Valid()
      requires lastVal.Length == lastId.Length == thisId.Length == thisVal.Length && i < thisVal.Length
      requires thisId != thisVal && thisId != lastVal && thisId != lastId
      requires l == LinePair(lastVal[..], lastId[..], thisVal[..], connectedness)
      requires next0 == |root0| == |value0| && l.WellFormed(next0)
      requires thisId[..i] == LineIds(l, next0, i)
      requires nextPolygonId == LineNext(l, next0, i)
      requires root == LineRoots(l, root0, i)
      requires polyValue == LineValues(l, value0, i)
      modifies this, thisId
      ensures Valid()
      ensures thisId[..i+1] == LineIds(l, next0, i + 1)
      ensures nextPolygonId == LineNext(l, next0, i + 1)
      ensures root == LineRoots(l, root0, i + 1)
      ensures polyValue == LineValues(l, value0, i + 1)
    {
      hide IsForest;
      var n := thisVal.Length;
      if i > 0 && thisVal[i] == thisVal[i-1] {
        thisId[i] := thisId[i-1];
        if lastVal[i] == thisVal[i] {
          MergeIfDifferent(lastId[i], thisId[i]);
        }
      } else if lastVal[i] == thisVal[i] {
        thisId[i] := lastId[i];
      } else if i > 0 && connectedness == 8 && lastVal[i-1] == thisVal[i] {
        thisId[i] := lastId[i-1];
      } else if i < n - 1 && connectedness == 8 && lastVal[i+1] == thisVal[i] {
        thisId[i] := lastId[i+1];
      } else {
        var id := NewPolygon(thisVal[i]);
        thisId[i] := id;
      }
      assert thisId[..i+1] == thisId[..i] + [thisId[i]];
      assert thisId[..i] == LineIds(l, next0, i);
    }
  }
}
