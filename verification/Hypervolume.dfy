/** Exact hypervolume (`hypervolume.rs`): closed forms for one and two rows, the sweep for three
    objectives, and the WFG recursion otherwise. Every path counts the cells of the union of boxes. */
module Hypervolume {
  import opened Coords
  import opened Orders
  import opened Cells
  import opened Front
  import opened Sweep3d

  /** `inclusive_hv`: the measure of one box. */
  method InclusiveHv(row: Point, r: Point) returns (prod: int)
    requires |row| == |r|
    ensures prod == |Box(row, r)|
  {
    prod := 1;
    for k := 0 to |r|
      invariant prod == Volume(row[..k], r[..k])
    {
      var diff := r[k] - row[k];
      assert row[..k + 1][..k] == row[..k] && r[..k + 1][..k] == r[..k];
      prod := prod * Max(diff, 0);
    }
    assert row[..|r|] == row && r[..|r|] == r;
    BoxSize(row, r);
  }

  /** The measure of the intersection of two boxes. */
  method IntersectionHv(ri: Point, rj: Point, r: Point) returns (inter: int)
    requires |ri| == |rj| == |r|
    ensures inter == |Box(ri, r) * Box(rj, r)|
  {
    ghost var join := Join(ri, rj);
    inter := 1;
    for k := 0 to |r|
      invariant inter == Volume(join[..k], r[..k])
    {
      var maxval := Max(ri[k], rj[k]);
      var diff := r[k] - maxval;
      assert join[..k + 1][..k] == join[..k] && r[..k + 1][..k] == r[..k];
      inter := inter * Max(diff, 0);
    }
    assert join[..|r|] == join && r[..|r|] == r;
    BoxSize(join, r);
    JoinBox(ri, rj, r);
  }

  /** Inclusion-exclusion for two rows. */
  method TwoPointHv(ri: Point, rj: Point, r: Point) returns (hv: int)
    requires Clean([ri, rj], r)
    ensures hv == Hv([ri, rj], r)
  {
    assert [ri, rj][0] == ri && [ri, rj][1] == rj;
    var inter := IntersectionHv(ri, rj, r);
    var hi := InclusiveHv(ri, r);
    var hj := InclusiveHv(rj, r);
    hv := hi + hj - inter;
    assert Region([rj], r) == Box(rj, r) by { assert [rj][1..] == []; }
    assert [ri, rj][1..] == [rj];
  }

  /** `kept` names clean rows only, and covers every clean row. */
  ghost predicate Covers(rows: seq<Point>, kept: seq<nat>) {
    && (forall k :: 0 <= k < |kept| ==> kept[k] < |rows| && !HasNan(rows[kept[k]]))
    && (forall i: nat {:trigger CoveredBy(rows, kept, i)} ::
      i < |rows| && !HasNan(rows[i]) ==> CoveredBy(rows, kept, i))
  }

  lemma CoversClean(rows: seq<Point>, kept: seq<nat>, r: Point)
    requires Shaped(rows, |r|) && Covers(rows, kept)
    ensures InRange(kept, |rows|) && Clean(Select(rows, kept), r)
  {
  }

  lemma CoveredPiece(rows: seq<Point>, kept: seq<nat>, i: nat, r: Point)
    requires Shaped(rows, |r|) && InRange(kept, |rows|) && Clean(Select(rows, kept), r)
    requires i < |rows| && CoveredBy(rows, kept, i)
    ensures Piece(rows[i], r) <= Region(Select(rows, kept), r)
  {
    var k :| 0 <= k < |kept| && WeakDom(rows[kept[k]], rows[i]);
    WeakDomBox(rows[kept[k]], rows[i], r);
    PieceInRegion(Select(rows, kept), k, r);
  }

  /** Dropping NaN rows, dominated rows and duplicates, and reordering, leave the region unchanged. */
  lemma CoversRegion(rows: seq<Point>, kept: seq<nat>, r: Point)
    requires Shaped(rows, |r|) && Covers(rows, kept)
    ensures InRange(kept, |rows|) && Clean(Select(rows, kept), r)
    ensures Region(Select(rows, kept), r) == Region(rows, r)
  {
    CoversClean(rows, kept, r);
    var pts := Select(rows, kept);
    forall i | 0 <= i < |rows| ensures Piece(rows[i], r) <= Region(pts, r) {
      if !HasNan(rows[i]) {
        CoveredPiece(rows, kept, i, r);
      }
    }
    RegionLeast(rows, Region(pts, r), r);
    forall k | 0 <= k < |pts| ensures Piece(pts[k], r) <= Region(rows, r) {
      PieceInRegion(rows, kept[k], r);
    }
    RegionLeast(pts, Region(rows, r), r);
  }

  lemma CleanCovers(rows: seq<Point>, clean: seq<nat>)
    requires forall i: nat :: i in clean <==> i < |rows| && !HasNan(rows[i])
    ensures Covers(rows, clean)
  {
    forall k | 0 <= k < |clean| ensures clean[k] < |rows| && !HasNan(rows[clean[k]]) {
      assert clean[k] in clean;
    }
    forall i: nat | i < |rows| && !HasNan(rows[i]) ensures CoveredBy(rows, clean, i) {
      assert i in clean;
      var k :| 0 <= k < |clean| && clean[k] == i;
      assert WeakDom(rows[clean[k]], rows[i]);
    }
  }

  lemma FrontCovers(rows: seq<Point>, m: nat, clean: seq<nat>, kept: seq<nat>)
    requires Shaped(rows, m)
    requires forall i: nat :: i in clean <==> i < |rows| && !HasNan(rows[i])
    requires IsFrontOf(rows, clean, kept)
    ensures Covers(rows, kept)
  {
  }

  lemma ReorderCovers(rows: seq<Point>, kept: seq<nat>, sorted: seq<nat>)
    requires Covers(rows, kept) && SameElements(sorted, kept)
    ensures Covers(rows, sorted)
  {
    forall k | 0 <= k < |sorted| ensures sorted[k] < |rows| && !HasNan(rows[sorted[k]]) {
      assert sorted[k] in kept;
    }
    forall i: nat | i < |rows| && !HasNan(rows[i]) ensures CoveredBy(rows, sorted, i) {
      assert CoveredBy(rows, kept, i);
      var k :| 0 <= k < |kept| && |rows[kept[k]]| == |rows[i]| && WeakDom(rows[kept[k]], rows[i]);
      assert kept[k] in sorted;
      var l :| 0 <= l < |sorted| && sorted[l] == kept[k];
    }
  }

  /** `compute_hypervolume_with`. The asserts of the source (a non-empty, NaN-free reference and rows
      of its width) bind its callers only when there are rows. */
  method ComputeHypervolumeWith(rows: seq<Point>, r: Point, assumePareto: bool) returns (hv: int)
    requires rows != [] ==> r != [] && !HasNan(r) && Shaped(rows, |r|)
    ensures hv == Hv(rows, r)
    decreases |rows|, 2
  {
    if rows == [] {
      return 0;
    }
    var indices := RelevantRows(rows, |r|, assumePareto);
    CoversRegion(rows, indices, r);
    hv := MeasureSorted(rows, indices, r);
  }

  /** The clean rows, reduced to the Pareto front unless the caller vouches for it, in lex order. */
  method RelevantRows(rows: seq<Point>, m: nat, assumePareto: bool) returns (indices: seq<nat>)
    requires Shaped(rows, m)
    ensures Covers(rows, indices) && LexSorted(rows, indices) && |indices| <= |rows|
  {
    indices := RetainClean(rows, Upto(|rows|));
    CleanCovers(rows, indices);
    if indices == [] {
      return;
    }
    if !assumePareto {
      var clean := indices;
      indices := FilterParetoFront(rows, clean, m);
      FrontCovers(rows, m, clean, indices);
    }
    ghost var kept := indices;
    CoversInRange(rows, kept);
    indices := LexSortIndices(rows, indices);
    ReorderCovers(rows, kept, indices);
  }

  lemma CoversInRange(rows: seq<Point>, kept: seq<nat>)
    requires Covers(rows, kept)
    ensures InRange(kept, |rows|)
  {
  }

  /** The dispatch on the number of rows and objectives. */
  method MeasureSorted(rows: seq<Point>, indices: seq<nat>, r: Point) returns (hv: int)
    requires r != [] && !HasNan(r) && Shaped(rows, |r|)
    requires LexSorted(rows, indices) && |indices| <= |rows|
    requires Clean(Select(rows, indices), r)
    ensures hv == Hv(Select(rows, indices), r)
    decreases |rows|, 1
  {
    ghost var pts := Select(rows, indices);
    if |indices| <= 2 {
      hv := MeasureFew(rows, indices, r);
    } else if |r| == 3 {
      var inside := RetainInside(rows, indices, r);
      InsideRegion(rows, indices, inside, r);
      InsideSorted(rows, indices, r);
      if |inside| <= 2 {
        hv := MeasureFew(rows, inside, r);
      } else {
        hv := ComputeHypervolume3dSorted(rows, inside, r);
      }
    } else {
      hv := MeasureWfg(rows, indices, r);
    }
  }

  /** The closed forms for no, one and two rows. */
  method MeasureFew(rows: seq<Point>, indices: seq<nat>, r: Point) returns (hv: int)
    requires Shaped(rows, |r|) && InRange(indices, |rows|) && |indices| <= 2
    requires Clean(Select(rows, indices), r)
    ensures hv == Hv(Select(rows, indices), r)
  {
    ghost var pts := Select(rows, indices);
    if |indices| == 0 {
      hv := 0;
    } else if |indices| == 1 {
      hv := InclusiveHv(rows[indices[0]], r);
      assert pts == [rows[indices[0]]];
      assert pts[1..] == [] && !HasNan(pts[0]);
      assert Region(pts, r) == Piece(pts[0], r) + {};
    } else {
      assert pts == [rows[indices[0]], rows[indices[1]]];
      hv := TwoPointHv(rows[indices[0]], rows[indices[1]], r);
    }
  }

  /** `indices.retain(|i| row < reference in every coordinate)` */
  function RetainInside(rows: seq<Point>, indices: seq<nat>, r: Point): seq<nat>
    requires Shaped(rows, |r|) && InRange(indices, |rows|)
  {
    Marked(indices, InsideMarks(rows, indices, r))
  }

  function InsideMarks(rows: seq<Point>, indices: seq<nat>, r: Point): (marks: seq<bool>)
    requires Shaped(rows, |r|) && InRange(indices, |rows|)
    ensures |marks| == |indices|
    ensures forall i :: 0 <= i < |indices| ==> marks[i] == Inside(rows[indices[i]], r)
  {
    seq(|indices|, i requires 0 <= i < |indices| => Inside(rows[indices[i]], r))
  }

  lemma InsideSorted(rows: seq<Point>, indices: seq<nat>, r: Point)
    requires r != [] && Shaped(rows, |r|) && LexSorted(rows, indices)
    ensures var inside := RetainInside(rows, indices, r);
      && InRange(inside, |rows|)
      && (forall a :: 0 <= a < |inside| ==> Inside(rows[inside[a]], r))
      && (forall a, b :: 0 <= a < b < |inside| ==> rows[inside[a]][0] <= rows[inside[b]][0])
  {
    var marks := InsideMarks(rows, indices, r);
    var inside := RetainInside(rows, indices, r);
    forall a | 0 <= a < |inside| ensures inside[a] < |rows| && Inside(rows[inside[a]], r) {
      var i, _ := MarkedPairs(indices, marks, a, a);
    }
    forall a, b | 0 <= a < b < |inside| ensures rows[inside[a]][0] <= rows[inside[b]][0] {
      var i, j := MarkedPairs(indices, marks, a, b);
      assert LexLe(rows[indices[i]], rows[indices[j]]);
    }
  }

  /** Rows that overshoot the reference cover nothing. */
  lemma InsideRegion(rows: seq<Point>, indices: seq<nat>, inside: seq<nat>, r: Point)
    requires r != [] && Shaped(rows, |r|) && LexSorted(rows, indices)
    requires Clean(Select(rows, indices), r)
    requires inside == RetainInside(rows, indices, r)
    ensures InRange(inside, |rows|) && Clean(Select(rows, inside), r)
    ensures Region(Select(rows, inside), r) == Region(Select(rows, indices), r)
  {
    InsideMembers(rows, indices, inside, r);
    hide Piece, Region, LexSorted, RetainInside;
    SubRegion(rows, inside, indices, r);
    SubRegion(rows, indices, inside, r);
  }

  lemma InsideMembers(rows: seq<Point>, indices: seq<nat>, inside: seq<nat>, r: Point)
    requires Shaped(rows, |r|) && InRange(indices, |rows|)
    requires Clean(Select(rows, indices), r)
    requires inside == RetainInside(rows, indices, r)
    ensures InRange(inside, |rows|) && Clean(Select(rows, inside), r)
    ensures forall x :: x in inside ==> x in indices
    ensures forall x :: x in indices ==> x in inside || Piece(rows[x], r) == {}
  {
    hide Inside, Piece, HasNan, Marked, Box, Clean, Shaped;
    var marks := InsideMarks(rows, indices, r);
    forall a | 0 <= a < |inside| ensures inside[a] in indices {
      var i, _ := MarkedPairs(indices, marks, a, a);
    }
    forall i | 0 <= i < |indices| ensures indices[i] in inside || Piece(rows[indices[i]], r) == {} {
      if marks[i] {
        MarkedKeeps(indices, marks, i);
      } else {
        RowShape(rows, indices[i], |r|);
        OvershootEmpty(rows[indices[i]], r);
      }
    }
    CleanMembers(rows, indices, inside, r);
  }

  lemma RowShape(rows: seq<Point>, x: nat, m: nat)
    requires Shaped(rows, m) && x < |rows|
    ensures |rows[x]| == m
  {
  }

  lemma CleanMembers(rows: seq<Point>, indices: seq<nat>, inside: seq<nat>, r: Point)
    requires InRange(indices, |rows|) && Clean(Select(rows, indices), r) && forall x :: x in inside ==> x in indices
    ensures InRange(inside, |rows|) && Clean(Select(rows, inside), r)
  {
    hide HasNan;
    forall a | 0 <= a < |inside| ensures inside[a] < |rows| && |rows[inside[a]]| == |r| && !HasNan(rows[inside[a]]) {
      assert inside[a] in inside;
      var i :| 0 <= i < |indices| && indices[i] == inside[a];
      assert Select(rows, indices)[i] == rows[inside[a]];
    }
  }

  /** Rows that are kept, or cover nothing, add nothing. */
  lemma SubRegion(rows: seq<Point>, xs: seq<nat>, ys: seq<nat>, r: Point)
    requires InRange(xs, |rows|) && InRange(ys, |rows|)
    requires forall x :: x in xs ==> x in ys || Piece(rows[x], r) == {}
    ensures Region(Select(rows, xs), r) <= Region(Select(rows, ys), r)
  {
    hide Piece, Region;
    forall i | 0 <= i < |xs| ensures Piece(rows[xs[i]], r) <= Region(Select(rows, ys), r) {
      if xs[i] in ys {
        var k :| 0 <= k < |ys| && ys[k] == xs[i];
        PieceInRegion(Select(rows, ys), k, r);
      }
    }
    RegionLeast(Select(rows, xs), Region(Select(rows, ys), r), r);
  }

  lemma OvershootEmpty(p: Point, r: Point)
    requires |p| == |r| && !Inside(p, r)
    ensures Piece(p, r) == {}
  {
    forall x ensures x !in Box(p, r) {
      BoxCells(p, r, x);
    }
  }

  /** The WFG recursion: the sum of each row's measure beyond the rows after it. */
  method MeasureWfg(rows: seq<Point>, indices: seq<nat>, r: Point) returns (total: int)
    requires r != [] && !HasNan(r) && Shaped(rows, |r|)
    requires InRange(indices, |rows|) && 0 < |indices| <= |rows|
    requires Clean(Select(rows, indices), r)
    ensures total == Hv(Select(rows, indices), r)
    decreases |rows|, 0
  {
    ghost var pts := Select(rows, indices);
    var len := |indices|;
    total := 0;
    for pos := 0 to len
      invariant total + Hv(pts[pos..], r) == Hv(pts, r)
    {
      var ri := rows[indices[pos]];
      var incHv := InclusiveHv(ri, r);
      var limited := LimitedRows(rows, indices, pos, r);
      var exclusive := ComputeExclusiveHypervolume(limited, incHv, r);
      assert pts[pos..][1..] == pts[pos + 1..] && pts[pos..][0] == ri;
      LimitedRegion(ri, pts[pos + 1..], limited, r);
      assert |Region(pts[pos..], r)|
        == |Box(ri, r)| + |Region(pts[pos + 1..], r)| - |Box(ri, r) * Region(pts[pos + 1..], r)|;
      total := total + exclusive;
    }
  }

  /** The rows after `pos`, each limited by the row at `pos`. */
  method LimitedRows(rows: seq<Point>, indices: seq<nat>, pos: nat, r: Point) returns (limited: seq<Point>)
    requires Shaped(rows, |r|) && InRange(indices, |rows|) && pos < |indices|
    ensures Shaped(limited, |r|) && |limited| == |indices| - pos - 1
    ensures forall j :: 0 <= j < |limited| ==> limited[j] == Join(rows[indices[pos]], rows[indices[pos + 1 + j]])
  {
    limited := [];
    for jRel := 0 to |indices| - pos - 1
      invariant |limited| == jRel && Shaped(limited, |r|)
      invariant forall j :: 0 <= j < jRel ==> limited[j] == Join(rows[indices[pos]], rows[indices[pos + 1 + j]])
    {
      limited := limited + [Join(rows[indices[pos]], rows[indices[pos + 1 + jRel]])];
    }
  }

  /** `compute_exclusive_hypervolume` */
  method ComputeExclusiveHypervolume(limited: seq<Point>, inclusiveHv: int, r: Point) returns (hv: int)
    requires limited != [] ==> r != [] && !HasNan(r) && Shaped(limited, |r|)
    ensures hv == inclusiveHv - Hv(limited, r)
    decreases |limited|, 3
  {
    if limited == [] {
      hv := inclusiveHv;
    } else {
      var covered := ComputeHypervolumeWith(limited, r, false);
      hv := inclusiveHv - covered;
    }
  }
}
