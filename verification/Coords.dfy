/** Objective values.

    A loss is an exact integer number of ticks (one tick is 1e-11). Three integers outside the
    finite range stand for the special floats, placed where `f64::total_cmp` places them:
    -INF below every finite value, INF above, and NAN above INF. Finite floats lie below 1.8e319
    ticks, so that ten or eleven times a finite value is still below INF. */
module Coords {
  import opened Decimals

  type Point = seq<int>

  const INF_DIGITS: nat := 321
  const INF: int := Pow10(INF_DIGITS)
  const NAN: int := INF + 1

  predicate IsNan(v: int) { v > INF }

  predicate HasNan(row: Point) {
    exists k :: 0 <= k < |row| && IsNan(row[k])
  }

  /** The numbers that stand for floats. */
  predicate Floats(values: Point) {
    forall k :: 0 <= k < |values| ==> -INF <= values[k] <= NAN
  }

  function Max(a: int, b: int): int { if a < b then b else a }

  function Min(a: int, b: int): int { if b < a then b else a }

  /** All rows have `m` coordinates. */
  predicate Shaped(rows: seq<Point>, m: nat) {
    forall i :: 0 <= i < |rows| ==> |rows[i]| == m
  }

  /** Coordinatewise `<=`. */
  predicate WeakDom(p: Point, q: Point)
    requires |p| == |q|
  {
    forall k :: 0 <= k < |p| ==> p[k] <= q[k]
  }

  /** Pareto dominance under minimisation: no worse anywhere, better somewhere. */
  predicate StrictDom(p: Point, q: Point)
    requires |p| == |q|
  {
    WeakDom(p, q) && p != q
  }
}
