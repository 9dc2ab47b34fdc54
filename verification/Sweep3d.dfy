/** The row-streamed three-objective hypervolume sweep (`hypervolume.rs`). */
module Sweep3d {
  import opened Coords
  import opened Orders
  import opened Cells
  import opened Front

  lemma CuboidSize(x0: int, x1: int, y0: int, y1: int, z0: int, z1: int)
    requires x0 <= x1 && y0 <= y1 && z0 <= z1
    ensures |Box([x0, y0, z0], [x1, y1, z1])| == (x1 - x0) * ((y1 - y0) * (z1 - z0))
  {
    hide Box;
    var p, q := [x0, y0, z0], [x1, y1, z1];
    BoxSize(p, q);
    assert p[..2] == [x0, y0] && q[..2] == [x1, y1];
    assert p[..2][..1] == [x0] && q[..2][..1] == [x1];
    assert Volume([x0], [x1]) == x1 - x0;
    assert Volume(p[..2], q[..2]) == (x1 - x0) * (y1 - y0);
    assert (x1 - x0) * (y1 - y0) * (z1 - z0) == (x1 - x0) * ((y1 - y0) * (z1 - z0));
  }

  /** The implicit grid of the sweep: column `i` starts at the x-coordinate of row `i`, line `j` at
      the y-coordinate of the row of y-rank `j`; both end at the reference. */
  datatype Grid = Grid(pts: seq<Point>, r: Point, yOrder: seq<nat>, yRank: seq<nat>) {

    ghost predicate Shape() {
      && |pts| == |yOrder| == |yRank| && |r| == 3 && Clean(pts, r)
      && InRange(yOrder, |pts|)
      && (forall p :: 0 <= p < |pts| ==> yRank[p] < |pts| && yOrder[yRank[p]] == p)
    }

    function X(i: nat): int
      requires |pts| == |yOrder| == |yRank| && |r| == 3 && Shaped(pts, 3)
    {
      if i < |pts| then pts[i][0] else r[0]
    }

    function Y(j: nat): int
      requires |pts| == |yOrder| == |yRank| && |r| == 3 && Shaped(pts, 3) && InRange(yOrder, |pts|)
    {
      if j < |pts| then pts[yOrder[j]][1] else r[1]
    }

    ghost predicate Valid() {
      && Shape()
      && (forall i, j :: 0 <= i <= j <= |pts| ==> X(i) <= X(j))
      && (forall i, j :: 0 <= i <= j <= |pts| ==> Y(i) <= Y(j))
    }

    /** `h` is the greatest height reached by a row in the first `i` columns and `j` lines. */
    ghost predicate IsHeight(i: nat, j: nat, h: int)
      requires Shape() && i <= |pts|
    {
      && h >= 0
      && (forall p :: 0 <= p < i && yRank[p] < j ==> r[2] - pts[p][2] <= h)
      && (h == 0 || exists p :: 0 <= p < i && yRank[p] < j && r[2] - pts[p][2] == h)
    }

    /** The cells of the region in the first `i` columns, and in the first `j` lines of the next. */
    ghost function Part(i: nat, j: nat): set<Point>
      requires Shape()
    {
      set x | x in Region(pts, r) && |x| == 3 && (x[0] < X(i) || (x[0] < X(i + 1) && x[1] < Y(j)))
    }

    ghost function Block(i: nat, j: nat, h: int): set<Point>
      requires Shape()
    {
      Box([X(i), Y(j), r[2] - h], [X(i + 1), Y(j + 1), r[2]])
    }

    lemma BlockSize(i: nat, j: nat, h: int)
      requires Valid() && i < |pts| && j < |pts| && h >= 0
      ensures |Block(i, j, h)| == (X(i + 1) - X(i)) * ((Y(j + 1) - Y(j)) * h)
    {
      assert X(i) <= X(i + 1) && Y(j) <= Y(j + 1);
      hide X, Y, Box;
      CuboidSize(X(i), X(i + 1), Y(j), Y(j + 1), r[2] - h, r[2]);
    }

    /** A covered cell left of column `i + 1` and below line `j + 1` is no lower than the height there. */
    lemma CoveredIsHigh(i: nat, j: nat, h: int, x: Point)
      requires Valid() && i < |pts| && j < |pts| && IsHeight(i + 1, j + 1, h)
      requires |x| == 3 && x[0] < X(i + 1) && x[1] < Y(j + 1) && x in Region(pts, r)
      ensures r[2] - h <= x[2] < r[2]
    {
      CleanRegionCells(pts, r, x);
      var p :| 0 <= p < |pts| && InBox(x, pts[p], r);
      assert pts[p][0] <= x[0] && pts[p][1] <= x[1] && pts[p][2] <= x[2] < r[2];
      assert p < i + 1 by { assert X(p) <= x[0]; }
      assert yRank[p] < j + 1 by { assert Y(yRank[p]) <= x[1]; }
    }

    lemma HighIsCovered(i: nat, j: nat, h: int, x: Point)
      requires Valid() && i < |pts| && j < |pts| && IsHeight(i + 1, j + 1, h)
      requires |x| == 3 && X(i) <= x[0] < X(i + 1) && Y(j) <= x[1] < Y(j + 1) && r[2] - h <= x[2] < r[2]
      ensures x in Region(pts, r)
    {
      var p :| 0 <= p < i + 1 && yRank[p] < j + 1 && r[2] - pts[p][2] == h;
      assert X(p) <= X(i) && Y(yRank[p]) <= Y(j);
      assert X(i + 1) <= X(|pts|) && Y(j + 1) <= Y(|pts|);
      assert InBox(x, pts[p], r);
      CleanRegionCells(pts, r, x);
    }

    lemma BlockStep(i: nat, j: nat, h: int)
      requires Valid() && i < |pts| && j < |pts| && IsHeight(i + 1, j + 1, h)
      ensures |Part(i, j + 1)| == |Part(i, j)| + (X(i + 1) - X(i)) * ((Y(j + 1) - Y(j)) * h)
    {
      forall x
        ensures x in Part(i, j + 1) <==> x in Part(i, j) || x in Block(i, j, h)
        ensures !(x in Part(i, j) && x in Block(i, j, h))
      {
        BlockStepCell(i, j, h, x);
      }
      assert Part(i, j + 1) == Part(i, j) + Block(i, j, h);
      BlockSize(i, j, h);
    }

    lemma BlockStepCell(i: nat, j: nat, h: int, x: Point)
      requires Valid() && i < |pts| && j < |pts| && IsHeight(i + 1, j + 1, h)
      ensures x in Part(i, j + 1) <==> x in Part(i, j) || x in Block(i, j, h)
      ensures !(x in Part(i, j) && x in Block(i, j, h))
    {
      hide X, Y, IsHeight, Box, Region;
      BoxCells([X(i), Y(j), r[2] - h], [X(i + 1), Y(j + 1), r[2]], x);
      assert X(i) <= X(i + 1) && Y(j) <= Y(j + 1);
      if |x| == 3 {
        if X(i) <= x[0] < X(i + 1) && Y(j) <= x[1] < Y(j + 1) {
          if x in Region(pts, r) {
            CoveredIsHigh(i, j, h, x);
          }
          if r[2] - h <= x[2] < r[2] {
            HighIsCovered(i, j, h, x);
          }
        }
        assert x in Block(i, j, h) <==>
          X(i) <= x[0] < X(i + 1) && Y(j) <= x[1] < Y(j + 1) && r[2] - h <= x[2] < r[2];
      }
    }

    lemma CellBounds(x: Point)
      requires Valid() && pts != [] && x in Region(pts, r)
      ensures |x| == 3 && X(0) <= x[0] < r[0] && Y(0) <= x[1] < r[1]
    {
      CleanRegionCells(pts, r, x);
      var p :| 0 <= p < |pts| && InBox(x, pts[p], r);
      assert X(0) <= X(p) && Y(0) <= Y(yRank[p]);
    }

    lemma PartStart()
      requires Valid() && pts != []
      ensures Part(0, 0) == {} && forall j: nat :: IsHeight(0, j, 0)
    {
      forall x | x in Part(0, 0) ensures false {
        CellBounds(x);
      }
    }

    lemma PartWrap(i: nat)
      requires Valid() && i < |pts|
      ensures Part(i, |pts|) == Part(i + 1, 0)
    {
      forall x | x in Region(pts, r) ensures x in Part(i, |pts|) <==> x in Part(i + 1, 0) {
        CellBounds(x);
        assert X(i) <= X(i + 1);
      }
    }

    lemma PartEnd()
      requires Valid() && pts != []
      ensures Part(|pts|, 0) == Region(pts, r)
    {
      forall x | x in Region(pts, r) ensures x in Part(|pts|, 0) {
        CellBounds(x);
      }
    }

    /** No line, no height. */
    lemma FirstLine(i: nat)
      requires Shape() && i < |pts|
      ensures IsHeight(i + 1, 0, 0)
    {
    }

    /** The max-accumulate recurrence of the streamed rows. */
    lemma HeightStep(i: nat, j: nat, above: int, left: int, own: int)
      requires Shape() && i < |pts|
      requires IsHeight(i, j + 1, above) && IsHeight(i + 1, j, left)
      requires own == if yRank[i] == j then Max(r[2] - pts[i][2], 0) else 0
      ensures IsHeight(i + 1, j + 1, Max(Max(above, left), own))
    {
    }
  }

  /** A row strictly below the reference in every coordinate. */
  predicate Inside(p: Point, r: Point) {
    |p| == |r| && forall k :: 0 <= k < |r| ==> p[k] < r[k]
  }

  /** Sorts positions by y and inverts the permutation. */
  method RankByY(rows: seq<Point>, indices: seq<nat>) returns (yOrder: seq<nat>, yRankOf: seq<nat>)
    requires InRange(indices, |rows|) && Shaped(rows, 3)
    ensures |yOrder| == |yRankOf| == |indices| && InRange(yOrder, |indices|)
    ensures forall p :: 0 <= p < |indices| ==> yRankOf[p] < |indices| && yOrder[yRankOf[p]] == p
    ensures forall i, j :: 0 <= i < j < |indices| ==> rows[indices[yOrder[i]]][1] <= rows[indices[yOrder[j]]][1]
  {
    var n := |indices|;
    var le := (a: nat, b: nat) =>
      a < n && b < n && indices[a] < |rows| && indices[b] < |rows|
      && |rows[indices[a]]| == 3 && |rows[indices[b]]| == 3 && rows[indices[a]][1] <= rows[indices[b]][1];
    yOrder := Sort(Upto(n), le);
    assert InRange(yOrder, n) by {
      forall k | 0 <= k < n ensures yOrder[k] < n {
        assert yOrder[k] in yOrder;
      }
    }
    forall i, j | 0 <= i < j < n ensures rows[indices[yOrder[i]]][1] <= rows[indices[yOrder[j]]][1] {
      assert le(yOrder[i], yOrder[j]);
    }
    yRankOf := seq(n, _ => 0);
    for yr := 0 to n
      invariant |yRankOf| == n
      invariant forall k :: 0 <= k < yr ==> yRankOf[yOrder[k]] == k
    {
      yRankOf := yRankOf[yOrder[yr] := yr];
    }
    forall p: nat | p < n ensures yRankOf[p] < n && yOrder[yRankOf[p]] == p {
      assert p in yOrder;
      var k :| 0 <= k < n && yOrder[k] == p;
    }
  }

  /** `compute_hypervolume_3d_sorted`: counts the cells of the union, whatever ties, duplicates and
      dominated rows the list holds. The caller sorts by x and drops rows not inside the reference. */
  method ComputeHypervolume3dSorted(rows: seq<Point>, indices: seq<nat>, r: Point) returns (total: int)
    requires |r| == 3 && Shaped(rows, 3) && InRange(indices, |rows|)
    requires Clean(Select(rows, indices), r)
    requires forall i :: 0 <= i < |indices| ==> Inside(rows[indices[i]], r)
    requires forall i, j :: 0 <= i < j < |indices| ==> rows[indices[i]][0] <= rows[indices[j]][0]
    ensures total == Hv(Select(rows, indices), r)
  {
    var n := |indices|;
    if n == 0 {
      return 0;
    }
    hide Grid.X, Grid.Y, Grid.IsHeight, Grid.Part, Grid.Valid, Clean, Region;
    var yOrder, yRankOf := RankByY(rows, indices);
    ghost var g := Grid(Select(rows, indices), r, yOrder, yRankOf);
    GridValid(g);
    hide Inside, Grid.Shape;
    var dy := LineWidths(rows, indices, r, yOrder, g);

    var prevRow: seq<int> := seq(n, _ => 0);
    total := 0;
    g.PartStart();
    for i := 0 to n
      invariant |prevRow| == n && forall j :: 0 <= j < n ==> g.IsHeight(i, j + 1, prevRow[j])
      invariant total == |g.Part(i, 0)|
    {
      total, prevRow := SweepColumn(g, rows, indices, r, dy, i, yRankOf[i], prevRow, total);
    }
    g.PartEnd();
  }

  /** One column: the streamed row of heights, and the column's cells added to the total. */
  method SweepColumn(ghost g: Grid, rows: seq<Point>, indices: seq<nat>, r: Point, dy: seq<int>, i: nat,
                     injectAt: nat, prevRow: seq<int>, total: int)
      returns (total': int, currRow: seq<int>)
    requires |r| == 3 && Shaped(rows, 3) && InRange(indices, |rows|) && i < |indices| == |dy| == |prevRow|
    requires g.Valid() && g.pts == Select(rows, indices) && g.r == r && injectAt == g.yRank[i]
    requires forall j :: 0 <= j < |dy| ==> dy[j] == g.Y(j + 1) - g.Y(j)
    requires forall j :: 0 <= j < |dy| ==> g.IsHeight(i, j + 1, prevRow[j])
    requires total == |g.Part(i, 0)|
    ensures |currRow| == |dy| && forall j :: 0 <= j < |dy| ==> g.IsHeight(i + 1, j + 1, currRow[j])
    ensures total' == |g.Part(i + 1, 0)|
  {
    hide Grid.X, Grid.Y, Grid.IsHeight, Grid.Part, Clean, Region;
    currRow := StreamRow(g, prevRow, i, injectAt, Max(r[2] - rows[indices[i]][2], 0));
    var dx := if i + 1 < |indices| then Max(rows[indices[i + 1]][0] - rows[indices[i]][0], 0)
              else Max(r[0] - rows[indices[i]][0], 0);
    ColumnWidth(g, rows, indices, r, i);
    var rowSum := RowSum(g, i, dy, currRow);
    g.PartWrap(i);
    total' := total + dx * rowSum;
  }

  /** Sorted rows strictly inside the reference make a valid grid. */
  lemma GridValid(g: Grid)
    requires g.Shape()
    requires forall i :: 0 <= i < |g.pts| ==> g.pts[i][0] < g.r[0] && g.pts[i][1] < g.r[1]
    requires forall i, j :: 0 <= i < j < |g.pts| ==> g.pts[i][0] <= g.pts[j][0]
    requires forall i, j :: 0 <= i < j < |g.pts| ==> g.pts[g.yOrder[i]][1] <= g.pts[g.yOrder[j]][1]
    ensures g.Valid() && g.Shape()
  {
  }

  lemma ColumnWidth(g: Grid, rows: seq<Point>, indices: seq<nat>, r: Point, i: nat)
    requires |r| == 3 && Shaped(rows, 3) && InRange(indices, |rows|) && i < |indices|
    requires g.Valid() && g.pts == Select(rows, indices) && g.r == r
    ensures g.X(i + 1) - g.X(i)
      == Max((if i + 1 < |indices| then rows[indices[i + 1]][0] else r[0]) - rows[indices[i]][0], 0)
  {
  }

  /** The widths of the y-lines, the last one ending at the reference. */
  method LineWidths(rows: seq<Point>, indices: seq<nat>, r: Point, yOrder: seq<nat>, ghost g: Grid)
    returns (dy: seq<int>)
    requires indices != [] && InRange(indices, |rows|) && Shaped(rows, 3)
    requires g.Valid() && g.pts == Select(rows, indices) && g.r == r && g.yOrder == yOrder
    ensures |dy| == |indices| && forall j :: 0 <= j < |dy| ==> dy[j] == g.Y(j + 1) - g.Y(j)
  {
    var n := |indices|;
    dy := [];
    for k := 0 to n - 1
      invariant |dy| == k && forall j :: 0 <= j < k ==> dy[j] == g.Y(j + 1) - g.Y(j)
    {
      var next := rows[indices[yOrder[k + 1]]][1];
      var curr := rows[indices[yOrder[k]]][1];
      assert g.Y(k) <= g.Y(k + 1);
      dy := dy + [Max(next - curr, 0)];
    }
    assert g.Y(n - 1) <= g.Y(n);
    dy := dy + [Max(r[1] - rows[indices[yOrder[n - 1]]][1], 0)];
  }

  /** The weighted sum of one streamed row: what column `i` adds, per unit of its width. */
  method RowSum(ghost g: Grid, ghost i: nat, dy: seq<int>, currRow: seq<int>) returns (rowSum: int)
    requires g.Valid() && i < |g.pts| == |dy| == |currRow|
    requires forall j :: 0 <= j < |dy| ==> dy[j] == g.Y(j + 1) - g.Y(j)
    requires forall j :: 0 <= j < |dy| ==> g.IsHeight(i + 1, j + 1, currRow[j])
    ensures |g.Part(i, |dy|)| == |g.Part(i, 0)| + (g.X(i + 1) - g.X(i)) * rowSum
  {
    hide Grid.Part, Grid.IsHeight, Grid.X, Grid.Y;
    ghost var dx := g.X(i + 1) - g.X(i);
    rowSum := 0;
    for j := 0 to |dy|
      invariant |g.Part(i, j)| == |g.Part(i, 0)| + dx * rowSum
    {
      g.BlockStep(i, j, currRow[j]);
      assert dx * (rowSum + dy[j] * currRow[j]) == dx * rowSum + dx * (dy[j] * currRow[j]);
      rowSum := rowSum + dy[j] * currRow[j];
    }
  }

  /** One streamed row: `curr[j] = max(prev[j], curr[j-1], own[j])`. */
  method StreamRow(ghost g: Grid, prevRow: seq<int>, i: nat, injectAt: nat, injected: int) returns (currRow: seq<int>)
    requires g.Shape() && i < |g.pts| == |prevRow|
    requires injectAt == g.yRank[i] && injected == Max(g.r[2] - g.pts[i][2], 0)
    requires forall j :: 0 <= j < |prevRow| ==> g.IsHeight(i, j + 1, prevRow[j])
    ensures |currRow| == |prevRow|
    ensures forall j :: 0 <= j < |prevRow| ==> g.IsHeight(i + 1, j + 1, currRow[j])
  {
    hide Grid.IsHeight, Grid.Shape;
    currRow := prevRow;
    var runningLeft := 0;
    g.FirstLine(i);
    for j := 0 to |prevRow|
      invariant |currRow| == |prevRow|
      invariant g.IsHeight(i + 1, j, runningLeft)
      invariant forall k :: 0 <= k < j ==> g.IsHeight(i + 1, k + 1, currRow[k])
    {
      var fromSelf := if j == injectAt then injected else 0;
      g.HeightStep(i, j, prevRow[j], runningLeft, fromSelf);
      var cell := Max(Max(prevRow[j], runningLeft), fromSelf);
      currRow := currRow[j := cell];
      runningLeft := cell;
    }
  }
}
