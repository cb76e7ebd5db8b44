/** Greedy snapping: every polygon, in input order, takes the nearest grid cell
    that no earlier polygon has taken (app.py, lines 69-85).

    A grid cell is named by its label, its position in the filtered grid; the
    pool of free cells is the list of their labels, in grid order. */
module Snapping {
  import opened Geometry

  function Min(a: nat, b: nat): nat {
    if a <= b then a else b
  }

  /** The distance from the centroid of grid cell l to the point p, as
      `available["grid_centroid"].distance(p)` computes it for that row. */
  function CellDistance(grid: seq<Cell>, l: nat, p: Point, dist: (Point, Point) -> real): real
    requires l < |grid|
  {
    dist(Centroid(grid[l]), p)
  }

  /** distances.idxmin(): the position in avail of the first of the cells
      nearest to p. */
  function FirstNearest(avail: seq<nat>, grid: seq<Cell>, p: Point, dist: (Point, Point) -> real): (k: nat)
    requires avail != []
    requires forall m :: 0 <= m < |avail| ==> avail[m] < |grid|
    ensures k < |avail|
    ensures forall m :: 0 <= m < |avail| ==>
              CellDistance(grid, avail[k], p, dist) <= CellDistance(grid, avail[m], p, dist)
    ensures forall m :: 0 <= m < k ==>
              CellDistance(grid, avail[k], p, dist) < CellDistance(grid, avail[m], p, dist)
  {
    if |avail| == 1 then 0
    else
      var last := |avail| - 1;
      var k := FirstNearest(avail[..last], grid, p, dist);
      assert avail[..last][k] == avail[k];
      if CellDistance(grid, avail[last], p, dist) < CellDistance(grid, avail[k], p, dist) then last else k
  }

  /** Label l is the cell polygon centroid p snaps to when the labels in taken
      are no longer available: l is free, no free cell is nearer to p, and every
      free cell with a smaller label is strictly farther (idxmin keeps the
      first minimum). */
  ghost predicate IsNearestFree(grid: seq<Cell>, taken: seq<nat>, p: Point, dist: (Point, Point) -> real, l: nat) {
    && l < |grid| && l !in taken
    && (forall m :: 0 <= m < |grid| && m !in taken ==>
          CellDistance(grid, l, p, dist) <= CellDistance(grid, m, p, dist))
    && (forall m :: 0 <= m < l && m !in taken ==>
          CellDistance(grid, l, p, dist) < CellDistance(grid, m, p, dist))
  }

  /** At most one cell is the nearest free one, so the snapping below is
      determined by the polygons, the grid and the distance. */
  lemma NearestFreeUnique(grid: seq<Cell>, taken: seq<nat>, p: Point, dist: (Point, Point) -> real, l1: nat, l2: nat)
    requires IsNearestFree(grid, taken, p, dist, l1) && IsNearestFree(grid, taken, p, dist, l2)
    ensures l1 == l2
  {
  }

  /** avail lists, in increasing order, exactly the labels below n that are
      not in taken: the free pool after `available.drop(idx)` for each taken
      label, since dropping a row keeps the order of the others. */
  ghost predicate FreePool(n: nat, taken: seq<nat>, avail: seq<nat>) {
    && (forall k :: 0 <= k < |avail| ==> avail[k] < n)
    && (forall k, m :: 0 <= k < m < |avail| ==> avail[k] < avail[m])
    && (forall l :: 0 <= l < n ==> (l in avail <==> l !in taken))
  }

  /** The first nearest cell of the pool is the nearest free cell. */
  lemma {:induction false} PoolNearest(grid: seq<Cell>, taken: seq<nat>, avail: seq<nat>, p: Point,
                                       dist: (Point, Point) -> real)
    requires FreePool(|grid|, taken, avail) && avail != []
    ensures IsNearestFree(grid, taken, p, dist, avail[FirstNearest(avail, grid, p, dist)])
  {
    var k := FirstNearest(avail, grid, p, dist);
    var l := avail[k];
    forall m | 0 <= m < |grid| && m !in taken
      ensures CellDistance(grid, l, p, dist) <= CellDistance(grid, m, p, dist)
      ensures m < l ==> CellDistance(grid, l, p, dist) < CellDistance(grid, m, p, dist)
    {
      var q :| 0 <= q < |avail| && avail[q] == m;
      assert m < l ==> q < k;
    }
  }

  /** Dropping the chosen label from the pool gives the pool of the remaining labels. */
  lemma {:induction false} PoolDrop(n: nat, taken: seq<nat>, avail: seq<nat>, k: nat)
    requires FreePool(n, taken, avail) && k < |avail|
    ensures FreePool(n, taken + [avail[k]], avail[..k] + avail[k + 1..])
  {
    var rest := avail[..k] + avail[k + 1..];
    assert forall j :: 0 <= j < |rest| ==> rest[j] == if j < k then avail[j] else avail[j + 1];
    forall l | 0 <= l < n
      ensures l in rest <==> l !in taken + [avail[k]]
    {
      if l in rest {
        var j :| 0 <= j < |rest| && rest[j] == l;
      }
      if l in avail && l != avail[k] {
        var j :| 0 <= j < |avail| && avail[j] == l;
        assert j != k;
        assert j < k ==> rest[j] == l;
        assert j > k ==> rest[j - 1] == l;
      }
    }
  }

  /** The snapping loop. centroids are the polygon centroids in input order;
      picks[i] is the label of the cell polygon i takes and tiles[i] that cell. */
  method SnapToNearest(centroids: seq<Point>, grid: seq<Cell>, dist: (Point, Point) -> real)
    returns (picks: seq<nat>, tiles: seq<Cell>)
    ensures |picks| == |tiles| == Min(|centroids|, |grid|)
    ensures forall i :: 0 <= i < |picks| ==> picks[i] < |grid| && tiles[i] == grid[picks[i]]
    ensures forall i :: 0 <= i < |picks| ==> IsNearestFree(grid, picks[..i], centroids[i], dist, picks[i])
    ensures forall i, j :: 0 <= i < j < |picks| ==> picks[i] != picks[j]
  {
    picks, tiles := [], [];
    var available: seq<nat> := seq(|grid|, l requires 0 <= l => l);
    forall l | 0 <= l < |grid|
      ensures l in available
    {
      assert available[l] == l;
    }
    var i := 0;
    while i < |centroids|
      invariant i <= |centroids| && |picks| == i && |tiles| == i
      invariant |available| + i == |grid|
      invariant FreePool(|grid|, picks, available)
      invariant forall k :: 0 <= k < i ==> picks[k] < |grid| && tiles[k] == grid[picks[k]]
      invariant forall k :: 0 <= k < i ==> IsNearestFree(grid, picks[..k], centroids[k], dist, picks[k])
      invariant forall k, m :: 0 <= k < m < i ==> picks[k] != picks[m]
    {
      if |available| == 0 {
        break;
      }
      var k := FirstNearest(available, grid, centroids[i], dist);
      var l := available[k];
      PoolNearest(grid, picks, available, centroids[i], dist);
      PoolDrop(|grid|, picks, available, k);
      assert forall j :: 0 <= j <= i ==> (picks + [l])[..j] == picks[..j];
      picks := picks + [l];
      tiles := tiles + [grid[l]];
      available := available[..k] + available[k + 1..];
      i := i + 1;
    }
  }

  /** centroid_offsets: the distance from each polygon's centroid to the
      centroid of the tile it was snapped to; the i-th tile pairs with the
      i-th polygon. */
  function CentroidOffsets(centroids: seq<Point>, tiles: seq<Cell>, dist: (Point, Point) -> real): (r: seq<real>)
    requires |tiles| <= |centroids|
    ensures |r| == |tiles|
  {
    seq(|tiles|, i requires 0 <= i < |tiles| => dist(centroids[i], Centroid(tiles[i])))
  }

  /** With a symmetric distance, the offset of each polygon is the smallest
      offset it could have had among the cells still free when its turn came. */
  lemma OffsetsAreNearest(centroids: seq<Point>, grid: seq<Cell>, dist: (Point, Point) -> real,
                          picks: seq<nat>, tiles: seq<Cell>, i: nat, m: nat)
    requires forall p, q :: dist(p, q) == dist(q, p)
    requires |picks| == |tiles| <= |centroids|
    requires forall j :: 0 <= j < |picks| ==> picks[j] < |grid| && tiles[j] == grid[picks[j]]
    requires forall j :: 0 <= j < |picks| ==> IsNearestFree(grid, picks[..j], centroids[j], dist, picks[j])
    requires i < |picks| && m < |grid| && m !in picks[..i]
    ensures CentroidOffsets(centroids, tiles, dist)[i] <= dist(centroids[i], Centroid(grid[m]))
  {
    assert IsNearestFree(grid, picks[..i], centroids[i], dist, picks[i]);
    assert CellDistance(grid, picks[i], centroids[i], dist) <= CellDistance(grid, m, centroids[i], dist);
  }
}
