/** Pareto-front extraction over lexicographically sorted rows (`nds.rs`). */
module Front {
  import opened Coords
  import opened Orders

  /** The rows named by an index list. */
  function Select(rows: seq<Point>, idx: seq<nat>): (pts: seq<Point>)
    requires InRange(idx, |rows|)
    ensures |pts| == |idx| && forall i :: 0 <= i < |idx| ==> pts[i] == rows[idx[i]]
  {
    seq(|idx|, i requires 0 <= i < |idx| => rows[idx[i]])
  }

  /** When the sweep drops `q` because of `p`: strict dominance, or weak dominance if duplicates collapse. */
  predicate Drops(p: Point, q: Point, dropDuplicates: bool)
    requires |p| == |q|
  {
    WeakDom(p, q) && (dropDuplicates || p != q)
  }

  lemma DropsTransitive(p: Point, q: Point, r: Point, dropDuplicates: bool)
    requires |p| == |q| == |r|
    requires Drops(p, q, dropDuplicates) && Drops(q, r, dropDuplicates)
    ensures Drops(p, r, dropDuplicates)
  {
  }

  /** The inner comparison loop of `lex_pareto_mark`. */
  method DropTest(top: Point, pt: Point, dropDuplicates: bool) returns (dropped: bool)
    requires |top| == |pt|
    ensures dropped == Drops(top, pt, dropDuplicates)
  {
    var notDom, topStrict := false, false;
    var k := 0;
    while k < |top|
      invariant 0 <= k <= |top|
      invariant !notDom && forall j :: 0 <= j < k ==> top[j] <= pt[j]
      invariant topStrict <==> top[..k] != pt[..k]
    {
      if pt[k] < top[k] {
        notDom := true;
        break;
      }
      assert top[..k + 1] == top[..k] + [top[k]] && pt[..k + 1] == pt[..k] + [pt[k]];
      if pt[k] > top[k] {
        topStrict := true;
      }
      k := k + 1;
    }
    if !notDom {
      assert top[..k] == top && pt[..k] == pt;
    }
    dropped := if dropDuplicates then !notDom else !notDom && topStrict;
  }

  /** No row before position `i` drops it. */
  ghost predicate Survives(pts: seq<Point>, m: nat, dropDuplicates: bool, i: nat)
    requires Shaped(pts, m) && i < |pts|
  {
    forall t :: 0 <= t < i ==> !Drops(pts[t], pts[i], dropDuplicates)
  }

  /** A row dropped by anything earlier is dropped by an earlier survivor. */
  lemma {:induction false} DroppedBySurvivor(pts: seq<Point>, m: nat, dropDuplicates: bool, t: nat, i: nat)
    returns (u: nat)
    requires Shaped(pts, m) && t < i < |pts|
    requires Drops(pts[t], pts[i], dropDuplicates)
    ensures u <= t && Drops(pts[u], pts[i], dropDuplicates) && Survives(pts, m, dropDuplicates, u)
    decreases t
  {
    if Survives(pts, m, dropDuplicates, t) {
      u := t;
    } else {
      var v :| 0 <= v < t && Drops(pts[v], pts[t], dropDuplicates);
      DropsTransitive(pts[v], pts[t], pts[i], dropDuplicates);
      u := DroppedBySurvivor(pts, m, dropDuplicates, v, i);
    }
  }

  /** `lex_pareto_mark`: marks exactly the rows that no earlier row drops. */
  method LexParetoMark(rows: seq<Point>, indices: seq<nat>, m: nat, dropDuplicates: bool) returns (onFront: seq<bool>)
    requires InRange(indices, |rows|)
    requires Shaped(Select(rows, indices), m)
    ensures |onFront| == |indices|
    ensures forall i :: 0 <= i < |indices| ==>
      (onFront[i] <==> Survives(Select(rows, indices), m, dropDuplicates, i))
  {
    var n := |indices|;
    ghost var pts := Select(rows, indices);
    onFront := seq(n, _ => false);
    var status := seq(n, _ => true);
    for topPos := 0 to n
      invariant |onFront| == |status| == n
      invariant forall i :: 0 <= i < topPos ==> (onFront[i] <==> Survives(pts, m, dropDuplicates, i))
      invariant forall i :: topPos <= i < n ==> !onFront[i]
      invariant forall i :: topPos <= i < n ==> (!status[i] <==>
        exists t :: 0 <= t < topPos && onFront[t] && Drops(pts[t], pts[i], dropDuplicates))
    {
      MarkDecides(pts, m, dropDuplicates, onFront, topPos);
      if status[topPos] {
        ghost var before := onFront;
        onFront := onFront[topPos := true];
        var top := rows[indices[topPos]];
        ghost var was := status;
        for i := topPos + 1 to n
          invariant |status| == n
          invariant forall j :: topPos < j < i ==> status[j] == (was[j] && !Drops(pts[topPos], pts[j], dropDuplicates))
          invariant forall j :: i <= j < n ==> status[j] == was[j]
        {
          if status[i] {
            var dropped := DropTest(top, rows[indices[i]], dropDuplicates);
            if dropped {
              status := status[i := false];
            }
          }
        }
        forall i | topPos + 1 <= i < n
          ensures !status[i] <==> exists t :: 0 <= t < topPos + 1 && onFront[t] && Drops(pts[t], pts[i], dropDuplicates)
        {
          if !was[i] {
            var t :| 0 <= t < topPos && before[t] && Drops(pts[t], pts[i], dropDuplicates);
            assert onFront[t];
          }
          if Drops(pts[topPos], pts[i], dropDuplicates) {
            assert onFront[topPos];
          }
        }
      }
    }
  }

  /** Being dropped by a marked row and being dropped by any earlier row are the same. */
  lemma MarkDecides(pts: seq<Point>, m: nat, dropDuplicates: bool, onFront: seq<bool>, i: nat)
    requires Shaped(pts, m) && i < |pts| == |onFront|
    requires forall t :: 0 <= t < i ==> (onFront[t] <==> Survives(pts, m, dropDuplicates, t))
    ensures Survives(pts, m, dropDuplicates, i) <==>
      !exists t :: 0 <= t < i && onFront[t] && Drops(pts[t], pts[i], dropDuplicates)
  {
    if !Survives(pts, m, dropDuplicates, i) {
      var t :| 0 <= t < i && Drops(pts[t], pts[i], dropDuplicates);
      var u := DroppedBySurvivor(pts, m, dropDuplicates, t, i);
      assert onFront[u];
    }
  }

  /** On lex-sorted rows the marked rows are those that no row at all strictly dominates. */
  lemma SurvivesIffNondominated(pts: seq<Point>, m: nat, i: nat)
    requires Shaped(pts, m) && i < |pts|
    requires forall a, b :: 0 <= a < b < |pts| ==> LexLe(pts[a], pts[b])
    ensures Survives(pts, m, false, i) <==> forall t :: 0 <= t < |pts| ==> !StrictDom(pts[t], pts[i])
  {
    if Survives(pts, m, false, i) {
      forall t | 0 <= t < |pts| ensures !StrictDom(pts[t], pts[i]) {
        if t < i {
          assert !Drops(pts[t], pts[i], false);
        } else if StrictDom(pts[t], pts[i]) {
          WeakDomLex(pts[t], pts[i]);
          LexAntisymmetric(pts[t], pts[i]);
        }
      }
    }
    if forall t :: 0 <= t < |pts| ==> !StrictDom(pts[t], pts[i]) {
      forall t | 0 <= t < i ensures !Drops(pts[t], pts[i], false) {
        assert !StrictDom(pts[t], pts[i]);
      }
    }
  }

  /** On lex-sorted rows two distinct marked rows never weakly dominate each other. */
  lemma SurvivorsIncomparable(pts: seq<Point>, m: nat, i: nat, j: nat)
    requires Shaped(pts, m) && i < |pts| && j < |pts| && i != j
    requires forall a, b :: 0 <= a < b < |pts| ==> LexLe(pts[a], pts[b])
    requires Survives(pts, m, true, i) && Survives(pts, m, true, j)
    ensures !WeakDom(pts[i], pts[j])
  {
    if i < j {
      assert !Drops(pts[i], pts[j], true);
    } else {
      assert !Drops(pts[j], pts[i], true);
      if WeakDom(pts[i], pts[j]) {
        WeakDomLex(pts[i], pts[j]);
        LexAntisymmetric(pts[i], pts[j]);
      }
    }
  }

  /** `indices.retain(|i| !row.any(is_nan))` */
  function RetainClean(rows: seq<Point>, indices: seq<nat>): (kept: seq<nat>)
    requires InRange(indices, |rows|)
    ensures InRange(kept, |rows|) && |kept| <= |indices|
    ensures forall i :: i in kept <==> i in indices && i < |rows| && !HasNan(rows[i])
    ensures |kept| == |indices| ==> kept == indices
  {
    if indices == [] then []
    else
      var i := indices[0];
      var rest := RetainClean(rows, indices[1..]);
      assert forall j :: j in indices <==> j == i || j in indices[1..];
      if HasNan(rows[i]) then rest else [i] + rest
  }

  /** The marked elements of a list, in order. */
  function Marked(xs: seq<nat>, marks: seq<bool>): (kept: seq<nat>)
    requires |xs| == |marks|
    ensures |kept| <= |xs|
  {
    if xs == [] then []
    else
      var n := |xs| - 1;
      Marked(xs[..n], marks[..n]) + if marks[n] then [xs[n]] else []
  }

  lemma {:induction false} MarkedPairs(xs: seq<nat>, marks: seq<bool>, a: nat, b: nat) returns (i: nat, j: nat)
    requires |xs| == |marks| && a <= b < |Marked(xs, marks)|
    ensures i <= j < |xs| && (a < b ==> i < j) && marks[i] && marks[j]
    ensures Marked(xs, marks)[a] == xs[i] && Marked(xs, marks)[b] == xs[j]
  {
    var n := |xs| - 1;
    var front := Marked(xs[..n], marks[..n]);
    if b < |front| {
      i, j := MarkedPairs(xs[..n], marks[..n], a, b);
    } else if a < |front| {
      i, j := MarkedPairs(xs[..n], marks[..n], a, a);
      j := n;
    } else {
      i, j := n, n;
    }
  }

  lemma {:induction false} MarkedKeeps(xs: seq<nat>, marks: seq<bool>, i: nat)
    requires |xs| == |marks| && i < |xs| && marks[i]
    ensures xs[i] in Marked(xs, marks)
  {
    var n := |xs| - 1;
    if i < n {
      MarkedKeeps(xs[..n], marks[..n], i);
    }
  }

  lemma MarkedNone()
    ensures Marked([], []) == []
  {
  }

  lemma MarkedStep(xs: seq<nat>, marks: seq<bool>, i: nat)
    requires |xs| == |marks| && i < |xs|
    ensures Marked(xs[..i + 1], marks[..i + 1]) == Marked(xs[..i], marks[..i]) + if marks[i] then [xs[i]] else []
  {
    assert xs[..i + 1][..i] == xs[..i] && marks[..i + 1][..i] == marks[..i];
  }

  /** The in-place compaction of `filter_pareto_front`. */
  method Compact(indices: seq<nat>, onFront: seq<bool>) returns (kept: seq<nat>)
    requires |indices| == |onFront|
    ensures kept == Marked(indices, onFront)
  {
    hide Marked;
    kept := indices;
    var write := 0;
    MarkedNone();
    for i := 0 to |kept|
      invariant |kept| == |indices| && write <= i
      invariant kept[i..] == indices[i..]
      invariant kept[..write] == Marked(indices[..i], onFront[..i])
    {
      MarkedStep(indices, onFront, i);
      if onFront[i] {
        assert kept[i] == kept[i..][0] == indices[i];
        ghost var was := kept;
        kept := kept[write := kept[i]];
        assert kept[..write + 1] == was[..write] + [indices[i]];
        assert kept[i + 1..] == was[i + 1..] == was[i..][1..];
        write := write + 1;
      }
    }
    assert indices[..|kept|] == indices && onFront[..|kept|] == onFront;
    kept := kept[..write];
  }

  /** Some row named by `kept` is no worse than row `i`. */
  ghost predicate CoveredBy(rows: seq<Point>, kept: seq<nat>, i: nat)
    requires i < |rows|
  {
    exists k :: 0 <= k < |kept| && kept[k] < |rows| && |rows[kept[k]]| == |rows[i]| && WeakDom(rows[kept[k]], rows[i])
  }

  /** `kept` is a clean antichain of `indices` that covers all of its clean rows. */
  ghost predicate IsFrontOf(rows: seq<Point>, indices: seq<nat>, kept: seq<nat>) {
    && (forall a :: 0 <= a < |kept| ==> kept[a] in indices && kept[a] < |rows| && !HasNan(rows[kept[a]]))
    && (forall i: nat {:trigger CoveredBy(rows, kept, i)} ::
          i in indices && i < |rows| && !HasNan(rows[i]) ==> CoveredBy(rows, kept, i))
    && (forall a, b :: 0 <= a < |kept| && 0 <= b < |kept| && a != b ==> Incomparable(rows, kept[a], kept[b]))
  }

  /** The row at `i` does not weakly dominate the row at `j`. */
  predicate Incomparable(rows: seq<Point>, i: nat, j: nat) {
    i < |rows| && j < |rows| && |rows[i]| == |rows[j]| && !WeakDom(rows[i], rows[j])
  }

  /** `filter_pareto_front`: the result holds clean rows of the input only, none of which weakly
      dominates another, and every clean row of the input is weakly dominated by one of them. */
  method FilterParetoFront(rows: seq<Point>, indices: seq<nat>, m: nat) returns (kept: seq<nat>)
    requires Shaped(rows, m) && InRange(indices, |rows|)
    ensures IsFrontOf(rows, indices, kept) && |kept| <= |indices|
  {
    if indices == [] {
      return [];
    }
    var clean := RetainClean(rows, indices);
    if clean == [] {
      FrontOfClean(rows, m, indices, clean, clean);
      return clean;
    }
    var sorted := LexSortIndices(rows, clean);
    var onFront := LexParetoMark(rows, sorted, m, true);
    kept := Compact(sorted, onFront);
    MarkedIsFront(rows, m, sorted, onFront);
    FrontOfClean(rows, m, indices, sorted, kept);
  }

  lemma FrontOfClean(rows: seq<Point>, m: nat, indices: seq<nat>, clean: seq<nat>, kept: seq<nat>)
    requires Shaped(rows, m) && InRange(indices, |rows|) && InRange(clean, |rows|)
    requires forall i :: i in clean <==> i in indices && i < |rows| && !HasNan(rows[i])
    requires IsFrontOf(rows, clean, kept)
    ensures IsFrontOf(rows, indices, kept)
  {
  }

  lemma MarkedIsFront(rows: seq<Point>, m: nat, sorted: seq<nat>, onFront: seq<bool>)
    requires Shaped(rows, m) && LexSorted(rows, sorted)
    requires forall i :: i in sorted ==> i < |rows| && !HasNan(rows[i])
    requires |onFront| == |sorted|
    requires forall i :: 0 <= i < |sorted| ==> (onFront[i] <==> Survives(Select(rows, sorted), m, true, i))
    ensures IsFrontOf(rows, sorted, Marked(sorted, onFront))
  {
    var kept := Marked(sorted, onFront);
    forall a | 0 <= a < |kept| ensures kept[a] in sorted {
      var i, _ := MarkedPairs(sorted, onFront, a, a);
    }
    forall i: nat | i in sorted && i < |rows| ensures CoveredBy(rows, kept, i) {
      MarkedCovers(rows, m, sorted, onFront, i);
    }
    forall a, b | 0 <= a < |kept| && 0 <= b < |kept| && a != b ensures Incomparable(rows, kept[a], kept[b]) {
      MarkedIncomparable(rows, m, sorted, onFront, a, b);
    }
  }

  lemma MarkedCovers(rows: seq<Point>, m: nat, sorted: seq<nat>, onFront: seq<bool>, i: nat)
    requires Shaped(rows, m) && InRange(sorted, |rows|) && |onFront| == |sorted|
    requires forall i :: 0 <= i < |sorted| ==> (onFront[i] <==> Survives(Select(rows, sorted), m, true, i))
    requires i in sorted && i < |rows|
    ensures CoveredBy(rows, Marked(sorted, onFront), i)
  {
    var pts := Select(rows, sorted);
    var p :| 0 <= p < |sorted| && sorted[p] == i;
    var u := p;
    if !onFront[p] {
      var t :| 0 <= t < p && Drops(pts[t], pts[p], true);
      u := DroppedBySurvivor(pts, m, true, t, p);
    }
    MarkedKeeps(sorted, onFront, u);
    var kept := Marked(sorted, onFront);
    var k :| 0 <= k < |kept| && kept[k] == sorted[u];
    assert pts[u] == rows[kept[k]];
  }

  lemma MarkedIncomparable(rows: seq<Point>, m: nat, sorted: seq<nat>, onFront: seq<bool>, a: nat, b: nat)
    requires Shaped(rows, m) && LexSorted(rows, sorted) && |onFront| == |sorted|
    requires forall i :: 0 <= i < |sorted| ==> (onFront[i] <==> Survives(Select(rows, sorted), m, true, i))
    requires a < |Marked(sorted, onFront)| && b < |Marked(sorted, onFront)| && a != b
    ensures Incomparable(rows, Marked(sorted, onFront)[a], Marked(sorted, onFront)[b])
  {
    var i, j;
    if a < b {
      i, j := MarkedPairs(sorted, onFront, a, b);
    } else {
      j, i := MarkedPairs(sorted, onFront, b, a);
    }
    SurvivorsIncomparable(Select(rows, sorted), m, i, j);
  }
}
