/** Hypervolume as a count of lattice cells.

    A cell is a lattice point; the box of a loss row `p` against a reference `r` holds the cells `x`
    with `p <= x < r` in every coordinate. The hypervolume of a list of rows is the number of cells
    in the union of the boxes of its NaN-free rows. */
module Cells {
  import opened Coords

  ghost predicate InBox(x: Point, p: Point, r: Point) {
    |x| == |r| == |p| && forall k :: 0 <= k < |r| ==> p[k] <= x[k] < r[k]
  }

  ghost function Box(p: Point, r: Point): (cells: set<Point>)
    requires |p| == |r|
    decreases |r|
  {
    if r == [] then {[]}
    else
      var n := |r| - 1;
      Extrude(Box(p[..n], r[..n]), p[n], r[n])
  }

  /** Every point of `base` with each coordinate of `[lo, hi)` appended. */
  ghost function Extrude(base: set<Point>, lo: int, hi: int): set<Point> {
    set t, a: int | t in base && lo <= a < hi :: t + [a]
  }

  lemma {:induction false} BoxCells(p: Point, r: Point, x: Point)
    requires |p| == |r|
    ensures x in Box(p, r) <==> InBox(x, p, r)
    decreases |r|
  {
    if r != [] {
      var n := |r| - 1;
      if x in Box(p, r) {
        var t, a: int :| t in Box(p[..n], r[..n]) && p[n] <= a < r[n] && x == t + [a];
        BoxCells(p[..n], r[..n], t);
      }
      if InBox(x, p, r) {
        var t, a := x[..n], x[n];
        BoxCells(p[..n], r[..n], t);
        assert x == t + [a];
      }
    }
  }

  /** The product of the clamped sides: what a box should measure. */
  function Volume(p: Point, r: Point): (v: int)
    requires |p| == |r|
    ensures v >= 0
    decreases |r|
  {
    if r == [] then 1
    else
      var n := |r| - 1;
      Volume(p[..n], r[..n]) * Max(r[n] - p[n], 0)
  }

  /** Every point of `base` with the coordinate `a` appended. */
  ghost function Lift(base: set<Point>, a: int): set<Point> {
    set t | t in base :: t + [a]
  }

  lemma LiftCells(base: set<Point>, a: int, x: Point)
    ensures x in Lift(base, a) <==> |x| > 0 && x[|x| - 1] == a && x[..|x| - 1] in base
  {
    if |x| > 0 && x[|x| - 1] == a && x[..|x| - 1] in base {
      assert x == x[..|x| - 1] + [a];
    }
    forall t | t in base && x == t + [a] ensures x[..|x| - 1] == t {
    }
  }

  lemma ExtrudeCells(base: set<Point>, lo: int, hi: int, x: Point)
    ensures x in Extrude(base, lo, hi) <==> |x| > 0 && lo <= x[|x| - 1] < hi && x[..|x| - 1] in base
  {
    if |x| > 0 && lo <= x[|x| - 1] < hi && x[..|x| - 1] in base {
      assert x == x[..|x| - 1] + [x[|x| - 1]];
    }
    forall t, a: int | t in base && x == t + [a] ensures x[..|x| - 1] == t {
    }
  }

  lemma ExtrudeStep(base: set<Point>, lo: int, hi: int)
    requires lo < hi
    ensures Extrude(base, lo, hi) == Extrude(base, lo, hi - 1) + Lift(base, hi - 1)
    ensures Extrude(base, lo, hi - 1) !! Lift(base, hi - 1)
  {
    forall x
      ensures x in Extrude(base, lo, hi) <==> x in Extrude(base, lo, hi - 1) + Lift(base, hi - 1)
      ensures !(x in Extrude(base, lo, hi - 1) && x in Lift(base, hi - 1))
    {
      ExtrudeCells(base, lo, hi, x);
      ExtrudeCells(base, lo, hi - 1, x);
      LiftCells(base, hi - 1, x);
    }
  }

  lemma {:induction false} ExtrudeSize(base: set<Point>, lo: int, hi: int)
    ensures |Extrude(base, lo, hi)| == |base| * Max(hi - lo, 0)
    decreases hi - lo
  {
    if hi <= lo {
      assert Extrude(base, lo, hi) == {};
    } else {
      ExtrudeSize(base, lo, hi - 1);
      ExtrudeStep(base, lo, hi);
      LiftSize(base, hi - 1);
      assert |base| * (hi - lo) == |base| * (hi - 1 - lo) + |base|;
    }
  }

  lemma {:induction false} LiftSize(base: set<Point>, a: int)
    ensures |Lift(base, a)| == |base|
  {
    if base == {} {
      assert Lift(base, a) == {};
    } else {
      var b :| b in base;
      var rest := Lift(base - {b}, a);
      LiftSize(base - {b}, a);
      LiftCells(base - {b}, a, b + [a]);
      assert Lift(base, a) == rest + {b + [a]};
    }
  }

  lemma {:induction false} BoxSize(p: Point, r: Point)
    requires |p| == |r|
    ensures |Box(p, r)| == Volume(p, r)
    decreases |r|
  {
    if r != [] {
      var n := |r| - 1;
      BoxSize(p[..n], r[..n]);
      ExtrudeSize(Box(p[..n], r[..n]), p[n], r[n]);
    }
  }

  /** Coordinatewise maximum: the corner of the intersection of two boxes. */
  function Join(p: Point, q: Point): (j: Point)
    requires |p| == |q|
    ensures |j| == |p|
    ensures forall k :: 0 <= k < |p| ==> j[k] == Max(p[k], q[k])
  {
    seq(|p|, k requires 0 <= k < |p| => Max(p[k], q[k]))
  }

  lemma JoinBox(p: Point, q: Point, r: Point)
    requires |p| == |q| == |r|
    ensures Box(Join(p, q), r) == Box(p, r) * Box(q, r)
  {
    forall x ensures x in Box(Join(p, q), r) <==> x in Box(p, r) * Box(q, r) {
      BoxCells(Join(p, q), r, x);
      BoxCells(p, r, x);
      BoxCells(q, r, x);
      if InBox(x, p, r) && InBox(x, q, r) {
        assert InBox(x, Join(p, q), r);
      }
      if InBox(x, Join(p, q), r) {
        forall k | 0 <= k < |r| ensures p[k] <= x[k] && q[k] <= x[k] {
          assert Join(p, q)[k] <= x[k];
        }
      }
    }
  }

  lemma WeakDomBox(p: Point, q: Point, r: Point)
    requires |p| == |q| == |r|
    requires WeakDom(p, q)
    ensures Box(q, r) <= Box(p, r)
  {
  }

  /** The cells a row contributes: none if it holds a NaN. */
  ghost function Piece(row: Point, r: Point): set<Point> {
    if |row| != |r| || HasNan(row) then {} else Box(row, r)
  }

  ghost function Region(rows: seq<Point>, r: Point): set<Point> {
    if rows == [] then {} else Piece(rows[0], r) + Region(rows[1..], r)
  }

  ghost function Hv(rows: seq<Point>, r: Point): nat { |Region(rows, r)| }

  lemma {:induction false} RegionCells(rows: seq<Point>, r: Point, x: Point)
    ensures x in Region(rows, r) <==> exists i :: 0 <= i < |rows| && x in Piece(rows[i], r)
  {
    if rows != [] {
      RegionCells(rows[1..], r, x);
      if i :| 0 <= i < |rows| && x in Piece(rows[i], r) {
        assert i > 0 ==> rows[i] == rows[1..][i - 1];
      }
      if i :| 0 <= i < |rows[1..]| && x in Piece(rows[1..][i], r) {
        assert rows[i + 1] == rows[1..][i];
      }
    }
  }

  lemma PieceInRegion(rows: seq<Point>, i: nat, r: Point)
    requires i < |rows|
    ensures Piece(rows[i], r) <= Region(rows, r)
  {
    forall x | x in Piece(rows[i], r) ensures x in Region(rows, r) {
      RegionCells(rows, r, x);
    }
  }

  /** The region is the least set that holds every row's box. */
  lemma {:induction false} RegionLeast(rows: seq<Point>, cells: set<Point>, r: Point)
    requires forall i :: 0 <= i < |rows| ==> Piece(rows[i], r) <= cells
    ensures Region(rows, r) <= cells
  {
    if rows != [] {
      assert forall i :: 0 <= i < |rows[1..]| ==> rows[1..][i] == rows[i + 1];
      RegionLeast(rows[1..], cells, r);
      assert Piece(rows[0], r) <= cells;
    }
  }

  lemma {:induction false} RegionAppend(rows: seq<Point>, p: Point, r: Point)
    ensures Region(rows + [p], r) == Region(rows, r) + Piece(p, r)
  {
    if rows == [] {
      assert rows + [p] == [p] && [p][1..] == [];
    } else {
      RegionAppend(rows[1..], p, r);
      assert (rows + [p])[1..] == rows[1..] + [p];
    }
  }

  /** What the row `p` covers of a region is the region of the rows limited by `p`. */
  lemma {:induction false} LimitedRegion(p: Point, rows: seq<Point>, limited: seq<Point>, r: Point)
    requires |p| == |r| && !HasNan(p)
    requires Shaped(rows, |r|) && |limited| == |rows|
    requires forall i :: 0 <= i < |rows| ==> !HasNan(rows[i]) && limited[i] == Join(p, rows[i])
    ensures Region(limited, r) == Box(p, r) * Region(rows, r)
  {
    if rows != [] {
      var q := rows[0];
      JoinBox(p, q, r);
      assert !HasNan(Join(p, q)) by {
        forall k | 0 <= k < |p| ensures !IsNan(Join(p, q)[k]) {
        }
      }
      assert !HasNan(limited[0]) && Piece(limited[0], r) == Box(p, r) * Box(q, r);
      assert forall i :: 0 <= i < |rows[1..]| ==> rows[1..][i] == rows[i + 1];
      LimitedRegion(p, rows[1..], limited[1..], r);
    }
  }

  /** Rows that are all NaN-free and all as wide as the reference. */
  ghost predicate Clean(rows: seq<Point>, r: Point) {
    Shaped(rows, |r|) && forall i :: 0 <= i < |rows| ==> !HasNan(rows[i])
  }

  lemma CleanRegionCells(rows: seq<Point>, r: Point, x: Point)
    requires Clean(rows, r)
    ensures x in Region(rows, r) <==> exists i :: 0 <= i < |rows| && InBox(x, rows[i], r)
  {
    RegionCells(rows, r, x);
    forall i | 0 <= i < |rows| ensures x in Piece(rows[i], r) <==> InBox(x, rows[i], r) {
      BoxCells(rows[i], r, x);
    }
  }
}
