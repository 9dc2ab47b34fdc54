/** The lazy greedy of `hypervolume_subset_selection` (`hssp.rs`): stale upper bounds on the gains,
    tightened after each pick, still select exactly what plain greedy selects. */
module LazyGreedy {
  import opened Coords
  import opened Orders
  import opened Cells
  import opened Greedy
  import opened Hypervolume

  const HSSP_INCREMENTAL_MAX_M: nat := 3

  function Cands(rows: seq<Point>, pos: seq<nat>): (cands: seq<Candidate>)
    requires InRange(pos, |rows|)
    ensures |cands| == |pos|
    ensures forall j :: 0 <= j < |cands| ==> cands[j] == Candidate(pos[j], rows[pos[j]])
  {
    seq(|pos|, j requires 0 <= j < |pos| => Candidate(pos[j], rows[pos[j]]))
  }

  function Positions(cands: seq<Candidate>): (pos: seq<nat>)
    ensures |pos| == |cands| && forall j :: 0 <= j < |cands| ==> pos[j] == cands[j].pos
  {
    seq(|cands|, j requires 0 <= j < |cands| => cands[j].pos)
  }

  /** No entry is below the true gain of its candidate. */
  ghost predicate UpperBounds(r: Point, cands: seq<Candidate>, chosen: seq<Point>, contribs: seq<int>) {
    && |contribs| == |cands|
    && forall j :: 0 <= j < |cands| ==> Gain(cands[j].row, chosen, r) <= contribs[j]
  }

  /** Every entry of greatest value is exact. */
  ghost predicate MaxIsExact(r: Point, cands: seq<Candidate>, chosen: seq<Point>, contribs: seq<int>) {
    && |contribs| == |cands|
    && forall j :: 0 <= j < |cands| && (forall i :: 0 <= i < |cands| ==> contribs[i] <= contribs[j]) ==>
         contribs[j] == Gain(cands[j].row, chosen, r)
  }

  /** The first greatest bound is the first greatest gain. */
  lemma LazyPick(r: Point, cands: seq<Candidate>, chosen: seq<Point>, contribs: seq<int>, a: nat)
    requires UpperBounds(r, cands, chosen, contribs) && MaxIsExact(r, cands, chosen, contribs)
    requires FirstMax(contribs, a)
    ensures a == NextPick(r, cands, chosen) && contribs[a] == Gain(cands[a].row, chosen, r)
  {
    hide Gain;
    var gains := Gains(r, cands, chosen);
    assert gains[a] == contribs[a];
    FirstMaxUnique(gains, a);
  }

  method ArgMax(contribs: seq<int>) returns (argmax: nat)
    requires contribs != []
    ensures FirstMax(contribs, argmax)
  {
    argmax := 0;
    var maxContrib := contribs[0];
    for i := 1 to |contribs|
      invariant argmax < i && maxContrib == contribs[argmax]
      invariant forall j :: 0 <= j < i ==> contribs[j] <= maxContrib
      invariant forall j :: 0 <= j < argmax ==> contribs[j] < maxContrib
    {
      if contribs[i] > maxContrib {
        maxContrib := contribs[i];
        argmax := i;
      }
    }
  }

  /** `H({t} + {j}) - H({t})`, the bound that depends on the last pick only. */
  method PairBound(cand: Point, last: Point, r: Point) returns (bound: int)
    requires |cand| == |last| == |r| && !HasNan(cand) && !HasNan(last)
    ensures bound == |Piece(cand, r) - Piece(last, r)|
  {
    var inter := IntersectionHv(cand, last, r);
    var inclusive := InclusiveHv(cand, r);
    DifferenceSize(Box(cand, r), Box(last, r));
    bound := inclusive - inter;
  }

  lemma DifferenceSize<T>(a: set<T>, b: set<T>)
    ensures |a - b| == |a| - |a * b|
  {
  }

  /** Tightens every bound after `chosen` grew by its last row. */
  method TightenBounds(rows: seq<Point>, r: Point, remaining: seq<nat>, contribs: seq<int>, ghost chosen: seq<Point>,
                       last: Point)
      returns (tight: seq<int>)
    requires InRange(remaining, |rows|) && Clean(rows, r) && |last| == |r| && !HasNan(last)
    requires UpperBounds(r, Cands(rows, remaining), chosen, contribs)
    ensures UpperBounds(r, Cands(rows, remaining), chosen + [last], tight)
  {
    hide Gain;
    tight := contribs;
    for j := 0 to |remaining|
      invariant |tight| == |remaining|
      invariant forall i :: 0 <= i < j ==> Gain(rows[remaining[i]], chosen + [last], r) <= tight[i]
      invariant forall i :: j <= i < |remaining| ==> tight[i] == contribs[i]
    {
      var candRow := rows[remaining[j]];
      var bound := PairBound(candRow, last, r);
      GainShrinks(candRow, chosen, last, r);
      assert Cands(rows, remaining)[j].row == candRow;
      if bound < tight[j] {
        tight := tight[j := bound];
      }
    }
  }

  /** The exact gain, on the incremental path (three objectives or fewer) or the decremental one. */
  method ExactGain(cand: Point, selected: seq<Point>, hvSelected: int, r: Point, incremental: bool) returns (exact: int)
    requires r != [] && !HasNan(r) && |cand| == |r| && !HasNan(cand) && Clean(selected, r)
    requires hvSelected == Hv(selected, r)
    ensures exact == Gain(cand, selected, r)
  {
    if incremental {
      var hvPlus := ComputeHypervolumeWith(selected + [cand], r, true);
      GainIsDifference(cand, selected, r);
      exact := hvPlus - hvSelected;
    } else {
      var limited: seq<Point> := [];
      for i := 0 to |selected|
        invariant |limited| == i && Shaped(limited, |r|)
        invariant forall j :: 0 <= j < i ==> limited[j] == Join(cand, selected[j])
      {
        assert Join(selected[i], cand) == Join(cand, selected[i]);
        limited := limited + [Join(selected[i], cand)];
      }
      var intersecHv := ComputeHypervolumeWith(limited, r, false);
      LimitedRegion(cand, selected, limited, r);
      DifferenceSize(Box(cand, r), Region(selected, r));
      var inclusive := InclusiveHv(cand, r);
      exact := inclusive - intersecHv;
    }
  }

  /** The state of the descending walk after `p` candidates: their entries are exact, the rest are
      as they were. */
  ghost predicate Walked(r: Point, cands: seq<Candidate>, chosen: seq<Point>, before: seq<int>, contribs: seq<int>,
                         order: seq<nat>, p: nat, maxSeen: int)
  {
    && |before| == |contribs| == |order| == |cands| && p <= |order| && InRange(order, |cands|) && maxSeen >= 0
    && (forall q :: 0 <= q < p ==>
          contribs[order[q]] == Gain(cands[order[q]].row, chosen, r) && contribs[order[q]] <= maxSeen)
    && (forall q :: p <= q < |order| ==> contribs[order[q]] == before[order[q]])
    && (maxSeen == 0 || exists q :: 0 <= q < p && contribs[order[q]] == maxSeen)
  }

  lemma WalkStep(r: Point, cands: seq<Candidate>, chosen: seq<Point>, before: seq<int>, contribs: seq<int>,
                 order: seq<nat>, p: nat, maxSeen: int, exact: int)
    requires Walked(r, cands, chosen, before, contribs, order, p, maxSeen) && p < |order| && Distinct(order)
    requires exact == Gain(cands[order[p]].row, chosen, r)
    ensures Walked(r, cands, chosen, before, contribs[order[p] := exact], order, p + 1, Max(maxSeen, exact))
  {
    hide Gain;
    var after := contribs[order[p] := exact];
    forall q | 0 <= q < |order| && q != p ensures after[order[q]] == contribs[order[q]] {
    }
    if maxSeen > 0 {
      var q :| 0 <= q < p && contribs[order[q]] == maxSeen;
      assert after[order[q]] == maxSeen;
    }
    assert after[order[p]] == exact;
  }

  /** Stopping at a bound below the running maximum leaves an exact maximum. */
  lemma WalkEnds(r: Point, cands: seq<Candidate>, chosen: seq<Point>, before: seq<int>, contribs: seq<int>,
                 order: seq<nat>, p: nat, maxSeen: int)
    requires Walked(r, cands, chosen, before, contribs, order, p, maxSeen)
    requires UpperBounds(r, cands, chosen, before)
    requires forall i, j :: 0 <= i < j < |order| ==> before[order[i]] >= before[order[j]]
    requires forall x: nat :: x < |cands| ==> x in order
    requires p < |order| ==> before[order[p]] < maxSeen
    ensures UpperBounds(r, cands, chosen, contribs) && MaxIsExact(r, cands, chosen, contribs)
  {
    hide Gain;
    forall j | 0 <= j < |cands| ensures Gain(cands[j].row, chosen, r) <= contribs[j] {
      assert j in order;
      var q :| 0 <= q < |order| && order[q] == j;
    }
    forall j | 0 <= j < |cands| && (forall i :: 0 <= i < |cands| ==> contribs[i] <= contribs[j])
      ensures contribs[j] == Gain(cands[j].row, chosen, r)
    {
      assert j in order;
      var q :| 0 <= q < |order| && order[q] == j;
    }
  }

  /** `lazy_contribs_update`: walks the candidates by descending bound, recomputing exact gains
      until the next bound cannot win. */
  method LazyUpdate(rows: seq<Point>, r: Point, remaining: seq<nat>, contribs: seq<int>, selected: seq<Point>,
                    hvSelected: int)
      returns (updated: seq<int>)
    requires r != [] && !HasNan(r) && Clean(rows, r) && Clean(selected, r) && InRange(remaining, |rows|)
    requires hvSelected == Hv(selected, r)
    requires UpperBounds(r, Cands(rows, remaining), selected, contribs)
    ensures UpperBounds(r, Cands(rows, remaining), selected, updated)
    ensures MaxIsExact(r, Cands(rows, remaining), selected, updated)
  {
    hide Gain, Hv;
    ghost var cands := Cands(rows, remaining);
    var order := DescendingOrder(contribs);
    updated := contribs;
    var maxSeen := 0;
    var p := 0;
    while p < |order|
      invariant Walked(r, cands, selected, contribs, updated, order, p, maxSeen)
    {
      var j := order[p];
      if updated[j] < maxSeen {
        break;
      }
      var exact := ExactGain(rows[remaining[j]], selected, hvSelected, r, |r| <= HSSP_INCREMENTAL_MAX_M);
      WalkStep(r, cands, selected, contribs, updated, order, p, maxSeen, exact);
      updated := updated[j := exact];
      if exact > maxSeen {
        maxSeen := exact;
      }
      p := p + 1;
    }
    WalkEnds(r, cands, selected, contribs, updated, order, p, maxSeen);
  }

  /** All positions by descending entry, ties in any order. */
  method DescendingOrder(contribs: seq<int>) returns (order: seq<nat>)
    ensures |order| == |contribs| && InRange(order, |contribs|) && Distinct(order)
    ensures forall x: nat :: x < |contribs| ==> x in order
    ensures forall i, j :: 0 <= i < j < |order| ==> contribs[order[i]] >= contribs[order[j]]
  {
    var n := |contribs|;
    var le := (a: nat, b: nat) => a < n && b < n && contribs[a] >= contribs[b];
    order := Sort(Upto(n), le);
    forall i | 0 <= i < |order| ensures order[i] < n {
      assert order[i] in order;
    }
    forall i, j | 0 <= i < j < |order| ensures contribs[order[i]] >= contribs[order[j]] {
      assert le(order[i], order[j]);
    }
  }

  method InclusiveContribs(rows: seq<Point>, r: Point) returns (contribs: seq<int>)
    requires Clean(rows, r)
    ensures UpperBounds(r, Cands(rows, Upto(|rows|)), [], contribs)
    ensures MaxIsExact(r, Cands(rows, Upto(|rows|)), [], contribs)
  {
    hide Gain, UpperBounds, MaxIsExact, Region, Box;
    contribs := [];
    for i := 0 to |rows|
      invariant |contribs| == i
      invariant forall j :: 0 <= j < i ==> contribs[j] == Gain(rows[j], [], r)
    {
      var inc := InclusiveHv(rows[i], r);
      FirstGain(rows[i], r);
      contribs := contribs + [inc];
    }
    ExactContribs(rows, r, contribs);
  }

  lemma FirstGain(p: Point, r: Point)
    requires |p| == |r| && !HasNan(p)
    ensures Gain(p, [], r) == |Box(p, r)|
  {
  }

  lemma ExactContribs(rows: seq<Point>, r: Point, contribs: seq<int>)
    requires |contribs| == |rows| && forall j :: 0 <= j < |rows| ==> contribs[j] == Gain(rows[j], [], r)
    ensures UpperBounds(r, Cands(rows, Upto(|rows|)), [], contribs)
    ensures MaxIsExact(r, Cands(rows, Upto(|rows|)), [], contribs)
  {
  }

  lemma RemovedCands(rows: seq<Point>, remaining: seq<nat>, a: nat, swap: bool)
    requires InRange(remaining, |rows|) && a < |remaining|
    ensures InRange(Removed(remaining, a, swap), |rows|)
    ensures Cands(rows, Removed(remaining, a, swap)) == Removed(Cands(rows, remaining), a, swap)
  {
  }

  lemma RemovedBounds(r: Point, cands: seq<Candidate>, chosen: seq<Point>, contribs: seq<int>, a: nat)
    requires UpperBounds(r, cands, chosen, contribs) && a < |cands|
    ensures UpperBounds(r, Removed(cands, a, true), chosen, Removed(contribs, a, true))
  {
  }

  lemma PicksUnfold(r: Point, cands: seq<Candidate>, chosen: seq<Point>, k: nat, swap: bool)
    requires 0 < k <= |cands|
    ensures var a := NextPick(r, cands, chosen);
      Picks(r, cands, chosen, k, swap)
        == [cands[a]] + Picks(r, Removed(cands, a, swap), chosen + [cands[a].row], k - 1, swap)
  {
  }

  /** The general greedy: the picks of plain greedy with `swap_remove`, first among ties. */
  method SelectLazily(rows: seq<Point>, r: Point, subsetSize: nat) returns (selected: seq<nat>)
    requires r != [] && !HasNan(r) && Clean(rows, r) && 0 < subsetSize < |rows|
    ensures selected == Positions(Picks(r, Cands(rows, Upto(|rows|)), [], subsetSize, true))
  {
    hide Gain, Hv, Picks, NextPick, UpperBounds, MaxIsExact, HasNan, FirstMax, LexLe;
    var remaining := Upto(|rows|);
    ghost var all := Picks(r, Cands(rows, remaining), [], subsetSize, true);
    var contribs := InclusiveContribs(rows, r);
    selected := [];
    ghost var picked: seq<Candidate> := [];
    var selectedRows: seq<Point> := [];
    var hvSelected := 0;
    EmptyHv(r);
    PicksLength(r, Cands(rows, remaining), [], subsetSize, true);
    for k := 0 to subsetSize
      invariant |remaining| == |rows| - k && InRange(remaining, |rows|)
      invariant |picked| == k && selectedRows == Rows(picked) && selected == Positions(picked)
      invariant Clean(selectedRows, r) && hvSelected == Hv(selectedRows, r)
      invariant picked + Picks(r, Cands(rows, remaining), selectedRows, subsetSize - k, true) == all
      invariant UpperBounds(r, Cands(rows, remaining), selectedRows, contribs)
      invariant MaxIsExact(r, Cands(rows, remaining), selectedRows, contribs)
    {
      ghost var cands := Cands(rows, remaining);
      BoundsLength(r, cands, selectedRows, contribs);
      var argmax := ArgMax(contribs);
      LazyPick(r, cands, selectedRows, contribs, argmax);
      PicksUnfold(r, cands, selectedRows, subsetSize - k, true);
      var chosenRemaining := remaining[argmax];
      var chosenRow := rows[chosenRemaining];
      ghost var before := selectedRows;
      selected := selected + [chosenRemaining];
      picked := picked + [Candidate(chosenRemaining, chosenRow)];
      hvSelected := hvSelected + contribs[argmax];
      GainIsDifference(chosenRow, selectedRows, r);
      RemovedCands(rows, remaining, argmax, true);
      RemovedBounds(r, cands, selectedRows, contribs, argmax);
      remaining := Removed(remaining, argmax, true);
      contribs := Removed(contribs, argmax, true);
      selectedRows := selectedRows + [chosenRow];
      if k == subsetSize - 1 || remaining == [] {
        PicksLength(r, Cands(rows, remaining), selectedRows, 0, true);
        break;
      }
      contribs := TightenBounds(rows, r, remaining, contribs, before, chosenRow);
      contribs := LazyUpdate(rows, r, remaining, contribs, selectedRows, hvSelected);
    }
    PicksLength(r, Cands(rows, remaining), selectedRows, 0, true);
  }

  lemma BoundsLength(r: Point, cands: seq<Candidate>, chosen: seq<Point>, contribs: seq<int>)
    requires UpperBounds(r, cands, chosen, contribs)
    ensures |contribs| == |cands|
  {
  }

  lemma PicksLength(r: Point, cands: seq<Candidate>, chosen: seq<Point>, k: nat, swap: bool)
    requires k <= |cands|
    ensures |Picks(r, cands, chosen, k, swap)| == k
  {
  }
}
