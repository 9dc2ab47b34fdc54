/** Non-dominated sorting (`nds.rs`). */
module Nds {
  import opened FiniteSets
  import opened Options
  import opened Coords
  import opened Orders
  import opened Front
  import opened NanRows
  import opened Chains

  const UNSET: nat := 0xFFFF_FFFF_FFFF_FFFF

  /** The indices of the rows without NaN. */
  ghost function CleanSet(rows: seq<Point>): set<nat> {
    set i: nat | i < |rows| && !HasNan(rows[i])
  }

  ghost predicate Dominates(rows: seq<Point>, j: nat, i: nat) {
    && i < |rows| && j < |rows| && |rows[i]| == |rows[j]|
    && !HasNan(rows[i]) && !HasNan(rows[j]) && StrictDom(rows[j], rows[i])
  }

  /** Strict dominance among the rows without NaN. */
  ghost function DomRel(rows: seq<Point>): Rel {
    set j: nat, i: nat | j < |rows| && i < |rows| && Dominates(rows, j, i) :: (j, i)
  }

  lemma DomRelWithin(rows: seq<Point>)
    ensures Within(DomRel(rows), CleanSet(rows))
  {
  }

  ghost function Emitted(dom: set<nat>, ranks: seq<nat>, limit: nat): set<nat> {
    set i | i in dom && i < |ranks| && ranks[i] < limit
  }

  /** What the sort promises. Clean rows: certified ranks, at least `nBelow` of them (or all) exact.
      NaN rows: one shared rank, just above every clean one. */
  ghost predicate Ranked(rows: seq<Point>, nBelow: nat, ranks: seq<nat>, limit: nat) {
    && |ranks| == |rows|
    && Certified(DomRel(rows), CleanSet(rows), ranks, limit)
    && |Emitted(CleanSet(rows), ranks, limit)| >= Min(nBelow, |CleanSet(rows)|)
    && NanRanked(rows, ranks)
  }

  /** `Ranked` up to some limit. */
  ghost predicate IsPartialRanking(rows: seq<Point>, nBelow: nat, ranks: seq<nat>) {
    exists limit: nat :: Ranked(rows, nBelow, ranks, limit)
  }

  ghost predicate NanRanked(rows: seq<Point>, ranks: seq<nat>) {
    && |ranks| == |rows|
    && (forall i, j ::
      0 <= i < |rows| && 0 <= j < |rows| && HasNan(rows[i]) && !HasNan(rows[j]) ==> ranks[j] < ranks[i])
    && (forall i :: 0 <= i < |rows| && HasNan(rows[i]) ==> ranks[i] == 0 || CleanRankExists(rows, ranks, ranks[i] - 1))
  }

  ghost predicate CleanRankExists(rows: seq<Point>, ranks: seq<nat>, rank: int) {
    exists j :: 0 <= j < |rows| && j < |ranks| && !HasNan(rows[j]) && ranks[j] == rank
  }

  /** The first position whose entry exceeds `y`, in a non-decreasing list. */
  method FirstAbove(minF2: seq<int>, y: int) returns (lo: nat)
    requires forall i, j :: 0 <= i < j < |minF2| ==> minF2[i] <= minF2[j]
    ensures lo <= |minF2|
    ensures forall k :: 0 <= k < lo ==> minF2[k] <= y
    ensures forall k :: lo <= k < |minF2| ==> minF2[k] > y
  {
    lo := 0;
    var hi := |minF2|;
    while lo < hi
      invariant lo <= hi <= |minF2|
      invariant forall k :: 0 <= k < lo ==> minF2[k] <= y
      invariant forall k :: hi <= k < |minF2| ==> minF2[k] > y
    {
      var mid := (lo + hi) / 2;
      if minF2[mid] > y {
        hi := mid;
      } else {
        lo := mid + 1;
      }
    }
  }

  /** The state of the patience sweep over lex-sorted rows: `rk` are the ranks given so far, and
      `minF2[r]` is the least second objective among the rows of rank `r`. */
  ghost predicate Patience(pts: seq<Point>, rk: seq<nat>, minF2: seq<int>) {
    && |rk| <= |pts| && Shaped(pts, 2)
    && (forall q :: 0 <= q < |rk| ==> rk[q] < |minF2| && minF2[rk[q]] <= pts[q][1])
    && (forall r :: 0 <= r < |minF2| ==> Attained(pts, rk, r, minF2[r]))
    && (forall i, j :: 0 <= i < j < |minF2| ==> minF2[i] <= minF2[j])
    && (forall t, q :: 0 <= t < |rk| && 0 <= q < |rk| && StrictDom(pts[t], pts[q]) ==> rk[t] < rk[q])
    && (forall q :: 0 <= q < |rk| && rk[q] > 0 ==> DominatedAt(pts, rk, q))
  }

  ghost predicate Attained(pts: seq<Point>, rk: seq<nat>, r: nat, y: int) {
    exists q :: 0 <= q < |rk| && q < |pts| && |pts[q]| == 2 && rk[q] == r && pts[q][1] == y
  }

  ghost predicate DominatedAt(pts: seq<Point>, rk: seq<nat>, q: nat) {
    q < |rk| && exists t ::
      0 <= t < |rk| && |rk| <= |pts| && |pts[t]| == |pts[q]| && StrictDom(pts[t], pts[q]) && rk[t] + 1 == rk[q]
  }

  ghost predicate LexOrdered(pts: seq<Point>) {
    forall a, b :: 0 <= a < b < |pts| ==> LexLe(pts[a], pts[b])
  }

  lemma KeepAttained(pts: seq<Point>, rk: seq<nat>, r: nat, y: int, next: nat)
    requires Attained(pts, rk, r, y)
    ensures Attained(pts, rk + [next], r, y)
  {
  }

  lemma KeepDominated(pts: seq<Point>, rk: seq<nat>, q: nat, next: nat)
    requires DominatedAt(pts, rk, q) && |rk| < |pts|
    ensures DominatedAt(pts, rk + [next], q)
  {
  }

  /** A duplicate of the previous row takes its rank. */
  lemma PatienceDuplicate(pts: seq<Point>, rk: seq<nat>, minF2: seq<int>)
    requires Patience(pts, rk, minF2) && 0 < |rk| < |pts| && pts[|rk|] == pts[|rk| - 1]
    ensures Patience(pts, rk + [rk[|rk| - 1]], minF2)
  {
    hide StrictDom, Attained, DominatedAt;
    var p := |rk|;
    var rk' := rk + [rk[p - 1]];
    forall r | 0 <= r < |minF2| ensures Attained(pts, rk', r, minF2[r]) {
      KeepAttained(pts, rk, r, minF2[r], rk[p - 1]);
    }
    forall q | 0 <= q < p + 1 && rk'[q] > 0 ensures DominatedAt(pts, rk', q) {
      var q' := if q == p then p - 1 else q;
      assert rk[q'] > 0;
      KeepDominated(pts, rk, q', rk[p - 1]);
      SameRowDominated(pts, rk', q', q);
    }
  }

  lemma SameRowDominated(pts: seq<Point>, rk: seq<nat>, q: nat, q': nat)
    requires DominatedAt(pts, rk, q) && q < |rk| && q' < |rk| <= |pts| && pts[q] == pts[q'] && rk[q] == rk[q']
    ensures DominatedAt(pts, rk, q')
  {
  }

  /** In lex order, a row equal to an earlier one is equal to the previous one. */
  lemma FreshRow(pts: seq<Point>, p: nat, t: nat)
    requires LexOrdered(pts) && Shaped(pts, 2) && t < p < |pts| && pts[p] != pts[p - 1]
    ensures pts[t] != pts[p]
    ensures pts[t][1] <= pts[p][1] <==> StrictDom(pts[t], pts[p])
    ensures !StrictDom(pts[p], pts[t])
  {
    if pts[t] == pts[p] {
      assert t < p - 1;
      LexAntisymmetric(pts[p - 1], pts[p]);
    }
    Lex2Coords(pts[t], pts[p]);
    if WeakDom(pts[p], pts[t]) {
      WeakDomLex(pts[p], pts[t]);
      LexAntisymmetric(pts[p], pts[t]);
    }
  }

  lemma Lex2Coords(p: Point, q: Point)
    requires |p| == |q| == 2 && LexLe(p, q)
    ensures p[0] <= q[0]
  {
  }

  function Place(minF2: seq<int>, lo: nat, y: int): seq<int>
    requires lo <= |minF2|
  {
    if lo == |minF2| then minF2 + [y] else minF2[lo := y]
  }

  /** A fresh row goes to the first rank whose minimum exceeds its second objective. */
  lemma PatienceFresh(pts: seq<Point>, rk: seq<nat>, minF2: seq<int>, lo: nat)
    requires Patience(pts, rk, minF2) && LexOrdered(pts) && |rk| < |pts|
    requires |rk| > 0 ==> pts[|rk|] != pts[|rk| - 1]
    requires lo <= |minF2| && (forall k :: 0 <= k < lo ==> minF2[k] <= pts[|rk|][1])
    requires forall k :: lo <= k < |minF2| ==> minF2[k] > pts[|rk|][1]
    ensures Patience(pts, rk + [lo], Place(minF2, lo, pts[|rk|][1]))
  {
    hide StrictDom, Attained, DominatedAt, LexOrdered;
    var p := |rk|;
    var rk', minF2' := rk + [lo], Place(minF2, lo, pts[p][1]);
    forall r | 0 <= r < |minF2'| ensures Attained(pts, rk', r, minF2'[r]) {
      if r == lo {
        NewAttained(pts, rk, lo);
      } else {
        KeepAttained(pts, rk, r, minF2[r], lo);
      }
    }
    forall t | 0 <= t < p ensures StrictDom(pts[t], pts[p]) ==> rk[t] < lo
      ensures !StrictDom(pts[p], pts[t])
    {
      FreshRow(pts, p, t);
      assert rk[t] >= lo ==> minF2[rk[t]] > pts[p][1];
    }
    SelfNotDominating(pts[p]);
    forall q | 0 <= q < p + 1 && rk'[q] > 0 ensures DominatedAt(pts, rk', q) {
      if q < p {
        KeepDominated(pts, rk, q, lo);
      } else {
        assert Attained(pts, rk, lo - 1, minF2[lo - 1]);
        NewDominated(pts, rk, lo, minF2[lo - 1]);
      }
    }
  }

  lemma SelfNotDominating(p: Point)
    ensures !StrictDom(p, p)
  {
  }

  lemma NewAttained(pts: seq<Point>, rk: seq<nat>, lo: nat)
    requires |rk| < |pts| && |pts[|rk|]| == 2
    ensures Attained(pts, rk + [lo], lo, pts[|rk|][1])
  {
  }

  lemma NewDominated(pts: seq<Point>, rk: seq<nat>, lo: nat, y: int)
    requires |rk| < |pts| && Shaped(pts, 2) && LexOrdered(pts) && 0 < lo
    requires |rk| > 0 ==> pts[|rk|] != pts[|rk| - 1]
    requires Attained(pts, rk, lo - 1, y) && y <= pts[|rk|][1]
    ensures DominatedAt(pts, rk + [lo], |rk|)
  {
    var q :| 0 <= q < |rk| && q < |pts| && |pts[q]| == 2 && rk[q] == lo - 1 && pts[q][1] == y;
    FreshRow(pts, |rk|, q);
    assert (rk + [lo])[q] + 1 == (rk + [lo])[|rk|];
  }

  /** The two-objective path: a patience sort over lex-sorted rows. */
  method PatienceRanks(rows: seq<Point>) returns (ranks: seq<nat>, ghost limit: nat)
    requires Shaped(rows, 2) && NoNan(rows)
    ensures |ranks| == |rows| && Certified(DomRel(rows), CleanSet(rows), ranks, limit)
    ensures forall i :: 0 <= i < |rows| ==> ranks[i] < limit
  {
    hide Patience, LexOrdered, HasNan, Certified, DomRel;
    var n := |rows|;
    ranks := seq(n, _ => UNSET);
    var order := LexSortIndices(rows, Upto(n));
    ghost var pts := Select(rows, order);
    SortedPts(rows, order);
    var minF2: seq<int> := [];
    var prevLoss: Option<Point> := None;
    var prevRank := 0;
    ghost var rk: seq<nat> := [];
    PatienceStart(pts);
    for p := 0 to n
      invariant |ranks| == n && |rk| == p && Patience(pts, rk, minF2)
      invariant forall q :: 0 <= q < p ==> ranks[order[q]] == rk[q]
      invariant p == 0 ==> prevLoss == None
      invariant p > 0 ==> prevLoss == Some(pts[p - 1]) && prevRank == rk[p - 1]
    {
      var i := order[p];
      var y := rows[i][1];
      if prevLoss == Some(rows[i]) {
        PatienceDuplicate(pts, rk, minF2);
      } else {
        PatienceMonotone(pts, rk, minF2);
        var lo := FirstAbove(minF2, y);
        PatienceFresh(pts, rk, minF2, lo);
        minF2 := Place(minF2, lo, y);
        prevLoss := Some(rows[i]);
        prevRank := lo;
      }
      assert forall q :: 0 <= q < p ==> order[q] != order[p];
      ranks := ranks[i := prevRank];
      rk := rk + [prevRank];
    }
    limit := |minF2|;
    PatienceCertifies(rows, order, rk, ranks, minF2);
  }

  lemma PatienceStart(pts: seq<Point>)
    requires Shaped(pts, 2)
    ensures Patience(pts, [], [])
  {
  }

  lemma PatienceMonotone(pts: seq<Point>, rk: seq<nat>, minF2: seq<int>)
    requires Patience(pts, rk, minF2)
    ensures forall i, j :: 0 <= i < j < |minF2| ==> minF2[i] <= minF2[j]
  {
  }

  lemma SortedPts(rows: seq<Point>, order: seq<nat>)
    requires LexSorted(rows, order)
    ensures LexOrdered(Select(rows, order))
  {
  }

  lemma PositionOf(order: seq<nat>, i: nat) returns (q: nat)
    requires i in order
    ensures q < |order| && order[q] == i
  {
    q :| 0 <= q < |order| && order[q] == i;
  }

  lemma PatienceCertifies(rows: seq<Point>, order: seq<nat>, rk: seq<nat>, ranks: seq<nat>, minF2: seq<int>)
    requires InRange(order, |rows|) && |order| == |rk| == |rows| == |ranks|
    requires forall x: nat :: x < |rows| ==> x in order
    requires Patience(Select(rows, order), rk, minF2)
    requires forall q :: 0 <= q < |rk| ==> ranks[order[q]] == rk[q]
    requires NoNan(rows)
    ensures Certified(DomRel(rows), CleanSet(rows), ranks, |minF2|)
    ensures forall i :: 0 <= i < |rows| ==> ranks[i] < |minF2|
  {
    hide Attained, StrictDom, DominatedAt, HasNan;
    var pts, dom := Select(rows, order), CleanSet(rows);
    forall i: nat | i < |rows| ensures ranks[i] < |minF2| {
      var q := PositionOf(order, i);
    }
    forall i, j | i in dom && j in dom && (j, i) in DomRel(rows) ensures ranks[j] < ranks[i] {
      var q := PositionOf(order, i);
      var t := PositionOf(order, j);
      assert StrictDom(pts[t], pts[q]);
    }
    forall i | i in dom && ranks[i] > 0 ensures Witnessed(DomRel(rows), dom, ranks, i) {
      var q := PositionOf(order, i);
      WitnessOfPosition(rows, order, rk, ranks, q);
    }
  }

  lemma WitnessOfPosition(rows: seq<Point>, order: seq<nat>, rk: seq<nat>, ranks: seq<nat>, q: nat)
    requires InRange(order, |rows|) && |order| == |rk| == |rows| == |ranks| && q < |rk|
    requires forall q :: 0 <= q < |rk| ==> ranks[order[q]] == rk[q]
    requires DominatedAt(Select(rows, order), rk, q) && NoNan(rows)
    ensures Witnessed(DomRel(rows), CleanSet(rows), ranks, order[q])
  {
  }

  /** The state of the peel loop: the rows not in `remaining` are ranked below `current`, and each
      remaining row is dominated by a row of the last layer. */
  ghost predicate Peeled(rows: seq<Point>, remaining: seq<nat>, ranks: seq<nat>, current: nat) {
    && |ranks| == |rows| && InRange(remaining, |rows|)
    && (forall i: nat :: i < |rows| && i !in remaining ==> ranks[i] < current)
    && (forall i: nat, j: nat :: (j, i) in DomRel(rows) && i !in remaining ==>
          j < |rows| && i < |rows| && j !in remaining && ranks[j] < ranks[i])
    && (forall i: nat ::
      i < |rows| && i !in remaining && ranks[i] > 0 ==> LayerWitness(rows, remaining, ranks, i, ranks[i] - 1))
    && (current > 0 ==> forall i: nat :: i in remaining ==> LayerWitness(rows, remaining, ranks, i, current - 1))
  }

  /** Some ranked dominator of `i` has the given rank. */
  ghost predicate LayerWitness(rows: seq<Point>, remaining: seq<nat>, ranks: seq<nat>, i: nat, rank: int) {
    exists j: nat :: (j, i) in DomRel(rows) && j !in remaining && j < |ranks| && ranks[j] == rank
  }

  /** One layer: the front of the remaining rows gets the current rank, the others stay in order. */
  ghost predicate LayerOf(remaining: seq<nat>, onFront: seq<bool>, ranks: seq<nat>, current: nat, ranks': seq<nat>,
                          next: seq<nat>) {
    && |onFront| == |remaining| && |ranks'| == |ranks| && InRange(remaining, |ranks|)
    && next == Marked(remaining, Not(onFront))
    && (forall k :: 0 <= k < |remaining| && onFront[k] ==> ranks'[remaining[k]] == current)
    && (forall i :: 0 <= i < |ranks| && i !in remaining ==> ranks'[i] == ranks[i])
  }

  function Not(marks: seq<bool>): (out: seq<bool>)
    ensures |out| == |marks| && forall i :: 0 <= i < |out| ==> out[i] == !marks[i]
  {
    seq(|marks|, i requires 0 <= i < |marks| => !marks[i])
  }

  /** The bookkeeping of one layer. */
  method AssignLayer(remaining: seq<nat>, onFront: seq<bool>, ranks: seq<nat>, current: nat)
      returns (ranks': seq<nat>, next: seq<nat>, ranked: nat)
    requires |onFront| == |remaining| && InRange(remaining, |ranks|) && Distinct(remaining)
    ensures LayerOf(remaining, onFront, ranks, current, ranks', next)
    ensures ranked == |remaining| - |next|
  {
    ranks', next, ranked := ranks, [], 0;
    ghost var rest := Not(onFront);
    for i := 0 to |remaining|
      invariant |ranks'| == |ranks| && next == Marked(remaining[..i], rest[..i]) && ranked == i - |next|
      invariant forall k :: 0 <= k < i && onFront[k] ==> ranks'[remaining[k]] == current
      invariant forall j :: 0 <= j < |ranks| && j !in remaining ==> ranks'[j] == ranks[j]
    {
      assert remaining[..i + 1][..i] == remaining[..i] && rest[..i + 1][..i] == rest[..i];
      if onFront[i] {
        ranks' := ranks'[remaining[i] := current];
        ranked := ranked + 1;
      } else {
        next := next + [remaining[i]];
      }
    }
    assert remaining[..|remaining|] == remaining && rest[..|remaining|] == rest;
  }

  lemma MarkedOnly(xs: seq<nat>, marks: seq<bool>, k: nat)
    requires |xs| == |marks| && Distinct(xs) && k < |xs| && xs[k] in Marked(xs, marks)
    ensures marks[k]
  {
    hide Marked;
    var kept := Marked(xs, marks);
    var a :| 0 <= a < |kept| && kept[a] == xs[k];
    var i, _ := MarkedPairs(xs, marks, a, a);
    assert i == k;
  }

  lemma NextLayer(rows: seq<Point>, m: nat, remaining: seq<nat>, onFront: seq<bool>, next: seq<nat>)
    requires Shaped(rows, m) && LexSorted(rows, remaining) && Distinct(remaining) && |onFront| == |remaining|
    requires next == Marked(remaining, Not(onFront))
    ensures LexSorted(rows, next) && Distinct(next)
    ensures forall i :: i in next ==> i in remaining
    ensures forall k :: 0 <= k < |remaining| ==> (onFront[k] <==> remaining[k] !in next)
  {
    hide LexLe;
    var rest := Not(onFront);
    forall a | 0 <= a < |next| ensures next[a] < |rows| && next[a] in remaining {
      var i, _ := MarkedPairs(remaining, rest, a, a);
    }
    forall a, b | 0 <= a < b < |next| ensures LexLe(rows[next[a]], rows[next[b]]) && next[a] != next[b] {
      var i, j := MarkedPairs(remaining, rest, a, b);
    }
    forall k | 0 <= k < |remaining| ensures onFront[k] <==> remaining[k] !in next {
      if !onFront[k] {
        MarkedKeeps(remaining, rest, k);
      }
      if remaining[k] in next {
        MarkedOnly(remaining, rest, k);
      }
    }
  }

  /** The front marks, read as dominance among the remaining rows. */
  lemma FrontOfRemaining(rows: seq<Point>, m: nat, remaining: seq<nat>, onFront: seq<bool>, k: nat)
    requires Shaped(rows, m) && NoNan(rows) && LexSorted(rows, remaining) && |onFront| == |remaining| && k < |remaining|
    requires forall i :: 0 <= i < |remaining| ==> (onFront[i] <==> Survives(Select(rows, remaining), m, false, i))
    ensures onFront[k] ==> forall j :: j in remaining ==> (j, remaining[k]) !in DomRel(rows)
    ensures !onFront[k] ==> exists t ::
      0 <= t < |remaining| && onFront[t] && (remaining[t], remaining[k]) in DomRel(rows)
  {
    hide HasNan, LexLe;
    var pts := Select(rows, remaining);
    if onFront[k] {
      SurvivesIffNondominated(pts, m, k);
      forall j | j in remaining ensures (j, remaining[k]) !in DomRel(rows) {
        var t := PositionOf(remaining, j);
        assert !StrictDom(pts[t], pts[k]);
      }
    } else {
      var t :| 0 <= t < k && Drops(pts[t], pts[k], false);
      var u := DroppedBySurvivor(pts, m, false, t, k);
      assert Dominates(rows, remaining[u], remaining[k]);
      assert (remaining[u], remaining[k]) in DomRel(rows);
    }
  }

  /** Peeling one layer keeps the state. */
  lemma PeelStep(rows: seq<Point>, m: nat, remaining: seq<nat>, onFront: seq<bool>, ranks: seq<nat>, current: nat,
                 ranks': seq<nat>, next: seq<nat>)
    requires Shaped(rows, m) && NoNan(rows) && LexSorted(rows, remaining) && Distinct(remaining)
    requires Peeled(rows, remaining, ranks, current)
    requires |onFront| == |remaining|
    requires forall i :: 0 <= i < |remaining| ==> (onFront[i] <==> Survives(Select(rows, remaining), m, false, i))
    requires LayerOf(remaining, onFront, ranks, current, ranks', next)
    ensures Peeled(rows, next, ranks', current + 1)
  {
    hide HasNan, LexLe, DomRel, Survives, Marked, LayerWitness;
    NextLayer(rows, m, remaining, onFront, next);
    forall i: nat | i < |rows| && i !in next ensures ranks'[i] < current + 1 {
      LayerRank(rows, m, remaining, onFront, ranks, current, ranks', next, i);
    }
    forall i: nat | i < |rows| && i !in next && ranks'[i] > 0
      ensures LayerWitness(rows, next, ranks', i, ranks'[i] - 1) {
      LayerRank(rows, m, remaining, onFront, ranks, current, ranks', next, i);
      assert LayerWitness(rows, remaining, ranks, i, ranks'[i] - 1);
      KeepWitness(rows, remaining, ranks, next, ranks', i, ranks'[i] - 1);
    }
    forall i: nat | i in next ensures LayerWitness(rows, next, ranks', i, current) {
      NextDominated(rows, m, remaining, onFront, ranks, current, ranks', next, i);
    }
    forall i: nat, j: nat | (j, i) in DomRel(rows) && i !in next
      ensures j < |rows| && i < |rows| && j !in next && ranks'[j] < ranks'[i]
    {
      InDomRel(rows, j, i);
      LayerRank(rows, m, remaining, onFront, ranks, current, ranks', next, i);
      assert j !in remaining;
      LayerRank(rows, m, remaining, onFront, ranks, current, ranks', next, j);
    }
  }

  /** The rank of a row that has left the remaining list. */
  lemma LayerRank(rows: seq<Point>, m: nat, remaining: seq<nat>, onFront: seq<bool>, ranks: seq<nat>, current: nat,
                  ranks': seq<nat>, next: seq<nat>, i: nat)
    requires Shaped(rows, m) && NoNan(rows) && LexSorted(rows, remaining) && Distinct(remaining)
      && |onFront| == |remaining|
    requires forall i :: 0 <= i < |remaining| ==> (onFront[i] <==> Survives(Select(rows, remaining), m, false, i))
    requires LayerOf(remaining, onFront, ranks, current, ranks', next) && |ranks| == |rows|
    requires i < |rows| && i !in next
    ensures i !in remaining ==> ranks'[i] == ranks[i]
    ensures i in remaining ==> ranks'[i] == current && forall j :: j in remaining ==> (j, i) !in DomRel(rows)
  {
    hide HasNan, LexLe, DomRel, Survives, Marked;
    NextLayer(rows, m, remaining, onFront, next);
    if i in remaining {
      var k := PositionOf(remaining, i);
      FrontOfRemaining(rows, m, remaining, onFront, k);
    }
  }

  /** A row left for the next layer is dominated by one of this layer. */
  lemma NextDominated(rows: seq<Point>, m: nat, remaining: seq<nat>, onFront: seq<bool>, ranks: seq<nat>,
                      current: nat, ranks': seq<nat>, next: seq<nat>, i: nat)
    requires Shaped(rows, m) && NoNan(rows) && LexSorted(rows, remaining) && Distinct(remaining)
      && |onFront| == |remaining|
    requires forall i :: 0 <= i < |remaining| ==> (onFront[i] <==> Survives(Select(rows, remaining), m, false, i))
    requires LayerOf(remaining, onFront, ranks, current, ranks', next) && |ranks| == |rows|
    requires i in next
    ensures LayerWitness(rows, next, ranks', i, current)
  {
    hide HasNan, LexLe, DomRel, Survives, Marked;
    NextLayer(rows, m, remaining, onFront, next);
    var k := PositionOf(remaining, i);
    FrontOfRemaining(rows, m, remaining, onFront, k);
    var t :| 0 <= t < |remaining| && onFront[t] && (remaining[t], i) in DomRel(rows);
    assert remaining[t] !in next && ranks'[remaining[t]] == current;
  }

  lemma InDomRel(rows: seq<Point>, j: nat, i: nat)
    requires (j, i) in DomRel(rows)
    ensures j < |rows| && i < |rows|
  {
  }

  lemma KeepWitness(rows: seq<Point>, remaining: seq<nat>, ranks: seq<nat>, next: seq<nat>, ranks': seq<nat>, i: nat,
                    rank: int)
    requires LayerWitness(rows, remaining, ranks, i, rank) && |ranks'| == |ranks|
    requires forall x :: x in next ==> x in remaining
    requires forall x: nat :: x < |ranks| && x !in remaining ==> ranks'[x] == ranks[x]
    ensures LayerWitness(rows, next, ranks', i, rank)
  {
  }

  lemma FirstOnFront(pts: seq<Point>, m: nat)
    requires Shaped(pts, m) && pts != []
    ensures Survives(pts, m, false, 0)
  {
  }

  /** `last` is what was left before the last layer: too few rows had a rank by then, and of these rows
      each is in that layer or still left. */
  ghost predicate LastLayer(n: nat, nBelow: nat, last: seq<nat>, remaining: seq<nat>, ranks: seq<nat>, current: nat) {
    current > 0 ==>
      && n - |last| < nBelow && Distinct(last) && InRange(last, n) && |ranks| == n
      && forall i :: i in last && i < n ==> i in remaining || ranks[i] == current - 1
  }

  lemma LastLayerStep(n: nat, nBelow: nat, remaining: seq<nat>, onFront: seq<bool>, ranks: seq<nat>, current: nat,
                      ranks': seq<nat>, next: seq<nat>)
    requires LayerOf(remaining, onFront, ranks, current, ranks', next) && Distinct(remaining)
    requires |ranks| == n && n - |remaining| < nBelow
    ensures LastLayer(n, nBelow, remaining, next, ranks', current + 1)
  {
    forall i | i in remaining && i < n ensures i in next || ranks'[i] == current {
      var k :| 0 <= k < |remaining| && remaining[k] == i;
      if !onFront[k] {
        MarkedKeeps(remaining, Not(onFront), k);
      }
    }
  }

  /** No layer was peeled after enough rows had a rank. */
  lemma EmittedBefore(rows: seq<Point>, nBelow: nat, last: seq<nat>, remaining: seq<nat>, was: seq<nat>,
                      ranks: seq<nat>, current: nat)
    requires LastLayer(|rows|, nBelow, last, remaining, was, current) && current > 0
    requires |ranks| == |was| == |rows|
    requires forall i: nat :: i < |rows| && i in remaining ==> ranks[i] == current
    requires forall i: nat :: i < |rows| && i !in remaining ==> ranks[i] == was[i]
    ensures |Emitted(CleanSet(rows), ranks, current - 1)| < nBelow
  {
    hide HasNan, Distinct;
    BelowFacts(|rows|);
    DistinctElements(last);
    var early := Emitted(CleanSet(rows), ranks, current - 1);
    assert early <= Below(|rows|) - Elements(last);
    assert Elements(last) <= Below(|rows|);
    SubsetSize(early, Below(|rows|) - Elements(last));
  }

  lemma {:induction false} DistinctElements(xs: seq<nat>)
    requires Distinct(xs)
    ensures |Elements(xs)| == |xs|
  {
    if xs != [] {
      var n := |xs| - 1;
      DistinctElements(xs[..n]);
      assert xs == xs[..n] + [xs[n]];
      assert Elements(xs) == Elements(xs[..n]) + {xs[n]};
      assert xs[n] !in xs[..n];
    }
  }

  /** The general path: peel one Pareto front after another until `nBelow` rows are ranked, and no
      further. */
  method PeelRanks(rows: seq<Point>, m: nat, nBelow: nat) returns (ranks: seq<nat>, ghost limit: nat)
    requires Shaped(rows, m) && NoNan(rows) && nBelow <= |rows|
    ensures |ranks| == |rows| && Certified(DomRel(rows), CleanSet(rows), ranks, limit)
    ensures |Emitted(CleanSet(rows), ranks, limit)| >= nBelow
    ensures limit > 0 ==> |Emitted(CleanSet(rows), ranks, limit - 1)| < nBelow
  {
    hide HasNan, LexLe, Peeled, Certified, DomRel, LayerOf, Emitted, CleanSet, Survives, LastLayer;
    ranks := seq(|rows|, _ => UNSET);
    var remaining := LexSortIndices(rows, Upto(|rows|));
    var current, nRanked := 0, 0;
    PeelStart(rows, remaining, ranks);
    ghost var last := remaining;
    NoLayer(|rows|, nBelow, last, remaining, ranks);
    while remaining != [] && nRanked < nBelow
      invariant Peeled(rows, remaining, ranks, current) && |ranks| == |rows|
      invariant LexSorted(rows, remaining) && Distinct(remaining)
      invariant nRanked + |remaining| == |rows| && LastLayer(|rows|, nBelow, last, remaining, ranks, current)
      decreases |remaining|
    {
      var onFront := LexParetoMark(rows, remaining, m, false);
      ghost var before, was := remaining, ranks;
      var next, ranked;
      ranks, next, ranked := AssignLayer(remaining, onFront, ranks, current);
      PeelStep(rows, m, before, onFront, was, current, ranks, next);
      NextLayer(rows, m, before, onFront, next);
      PeelShrinks(rows, m, before, onFront, next);
      LayerLength(before, onFront, was, current, ranks, next);
      LastLayerStep(|rows|, nBelow, before, onFront, was, current, ranks, next);
      last := remaining;
      remaining := next;
      nRanked := nRanked + ranked;
      current := current + 1;
    }
    ghost var was := ranks;
    for k := 0 to |remaining|
      invariant |ranks| == |rows|
      invariant forall i :: 0 <= i < k ==> ranks[remaining[i]] == current
      invariant forall i :: 0 <= i < |rows| && i !in remaining ==> ranks[i] == was[i]
    {
      ranks := ranks[remaining[k] := current];
    }
    limit := current;
    PeelCertifies(rows, remaining, was, ranks, current);
    if current > 0 {
      forall i: nat | i < |rows| && i in remaining ensures ranks[i] == current {
        var k := PositionOf(remaining, i);
      }
      EmittedBefore(rows, nBelow, last, remaining, was, ranks, current);
    }
  }

  lemma NoLayer(n: nat, nBelow: nat, last: seq<nat>, remaining: seq<nat>, ranks: seq<nat>)
    ensures LastLayer(n, nBelow, last, remaining, ranks, 0)
  {
  }

  lemma PeelStart(rows: seq<Point>, remaining: seq<nat>, ranks: seq<nat>)
    requires |ranks| == |rows| && InRange(remaining, |rows|)
    requires forall x: nat :: x < |rows| ==> x in remaining
    ensures Peeled(rows, remaining, ranks, 0)
  {
  }

  lemma LayerLength(remaining: seq<nat>, onFront: seq<bool>, ranks: seq<nat>, current: nat, ranks': seq<nat>,
                    next: seq<nat>)
    requires LayerOf(remaining, onFront, ranks, current, ranks', next)
    ensures |ranks'| == |ranks|
  {
  }

  lemma PeelShrinks(rows: seq<Point>, m: nat, remaining: seq<nat>, onFront: seq<bool>, next: seq<nat>)
    requires Shaped(rows, m) && LexSorted(rows, remaining) && Distinct(remaining) && |onFront| == |remaining|
      && remaining != []
    requires forall i :: 0 <= i < |remaining| ==> (onFront[i] <==> Survives(Select(rows, remaining), m, false, i))
    requires next == Marked(remaining, Not(onFront))
    ensures |next| < |remaining|
  {
    hide HasNan, LexLe, Marked;
    FirstOnFront(Select(rows, remaining), m);
    NextLayer(rows, m, remaining, onFront, next);
    if |next| == |remaining| {
      MarkedFull(remaining, Not(onFront));
    }
  }

  lemma {:induction false} MarkedFull(xs: seq<nat>, marks: seq<bool>)
    requires |xs| == |marks| && |Marked(xs, marks)| == |xs|
    ensures Marked(xs, marks) == xs
  {
    if xs != [] {
      var n := |xs| - 1;
      MarkedFull(xs[..n], marks[..n]);
    }
  }

  lemma PeelCertifies(rows: seq<Point>, remaining: seq<nat>, was: seq<nat>, ranks: seq<nat>, current: nat)
    requires NoNan(rows) && Peeled(rows, remaining, was, current) && |ranks| == |rows|
    requires forall i :: 0 <= i < |remaining| ==> ranks[remaining[i]] == current
    requires forall i :: 0 <= i < |rows| && i !in remaining ==> ranks[i] == was[i]
    ensures Certified(DomRel(rows), CleanSet(rows), ranks, current)
    ensures |Emitted(CleanSet(rows), ranks, current)| >= |rows| - |remaining|
  {
    var rel, dom := DomRel(rows), CleanSet(rows);
    hide HasNan, LexLe, DomRel, LayerWitness;
    forall i: nat | i in remaining ensures i < |rows| && ranks[i] == current {
      var k := PositionOf(remaining, i);
    }
    forall i | i in dom && ranks[i] > 0 ensures Witnessed(rel, dom, ranks, i) {
      assert LayerWitness(rows, remaining, was, i, ranks[i] - 1);
      WitnessOfLayer(rows, remaining, was, ranks, i);
    }
    EmittedSize(rows, remaining, ranks, current);
  }

  lemma WitnessOfLayer(rows: seq<Point>, remaining: seq<nat>, was: seq<nat>, ranks: seq<nat>, i: nat)
    requires NoNan(rows) && |ranks| == |rows| == |was| && i < |rows|
    requires forall i :: 0 <= i < |rows| && i !in remaining ==> ranks[i] == was[i]
    requires ranks[i] > 0 && LayerWitness(rows, remaining, was, i, ranks[i] - 1)
    ensures Witnessed(DomRel(rows), CleanSet(rows), ranks, i)
  {
  }

  lemma EmittedSize(rows: seq<Point>, remaining: seq<nat>, ranks: seq<nat>, limit: nat)
    requires NoNan(rows) && |ranks| == |rows|
    requires forall i: nat :: i < |rows| && i !in remaining ==> ranks[i] < limit
    ensures |Emitted(CleanSet(rows), ranks, limit)| >= |rows| - |remaining|
  {
    hide HasNan;
    var all, emitted := Below(|rows|), Emitted(CleanSet(rows), ranks, limit);
    var rest := Elements(remaining);
    BelowFacts(|rows|);
    ElementsSize(remaining);
    forall i | i in all - rest ensures i in emitted {
      InClean(rows, i);
    }
    assert all <= emitted + rest;
    SubsetSize(all, emitted + rest);
    assert |emitted + rest| <= |emitted| + |rest|;
  }

  lemma InClean(rows: seq<Point>, i: nat)
    requires NoNan(rows) && i < |rows|
    ensures i in CleanSet(rows)
  {
  }

  /** Ranks of the clean rows, written back to the full list. */
  ghost predicate WrittenBack(rows: seq<Point>, subRanks: seq<nat>, ranks: seq<nat>) {
    var clean := NanPositions(rows, false);
    |ranks| == |rows| && |subRanks| == |clean| && forall s :: 0 <= s < |clean| ==> ranks[clean[s]] == subRanks[s]
  }

  /** Dominance among the clean rows is dominance in the full list. */
  lemma SubDominates(rows: seq<Point>, clean: seq<nat>, t: nat, s: nat)
    requires InRange(clean, |rows|) && t < |clean| && s < |clean|
    ensures (t, s) in DomRel(Select(rows, clean)) <==> (clean[t], clean[s]) in DomRel(rows)
  {
  }

  lemma LiftCertificate(rows: seq<Point>, subRanks: seq<nat>, ranks: seq<nat>, limit: nat)
    requires WrittenBack(rows, subRanks, ranks)
    requires var sub := Select(rows, NanPositions(rows, false)); Certified(DomRel(sub), CleanSet(sub), subRanks, limit)
    ensures Certified(DomRel(rows), CleanSet(rows), ranks, limit)
  {
    var clean := NanPositions(rows, false);
    var sub := Select(rows, clean);
    CleanRows(rows);
    NanPositionsFacts(rows, false);
    hide HasNan, NanPositions, DomRel, Witnessed;
    forall i | i in CleanSet(rows) ensures ranks[i] <= limit {
      var s := PositionOf(clean, i);
      InClean(sub, s);
    }
    forall i, j | i in CleanSet(rows) && j in CleanSet(rows) && (j, i) in DomRel(rows) && ranks[i] < limit
      ensures ranks[j] < ranks[i]
    {
      var s := PositionOf(clean, i);
      var t := PositionOf(clean, j);
      InClean(sub, s);
      InClean(sub, t);
      SubDominates(rows, clean, t, s);
    }
    forall i | i in CleanSet(rows) && ranks[i] > 0 ensures Witnessed(DomRel(rows), CleanSet(rows), ranks, i) {
      var s := PositionOf(clean, i);
      InClean(sub, s);
      LiftWitness(rows, clean, subRanks, ranks, s);
    }
  }

  lemma LiftWitness(rows: seq<Point>, clean: seq<nat>, subRanks: seq<nat>, ranks: seq<nat>, s: nat)
    requires InRange(clean, |rows|) && |ranks| == |rows| && |subRanks| == |clean| && s < |clean|
    requires forall t :: 0 <= t < |clean| ==> ranks[clean[t]] == subRanks[t] && !HasNan(rows[clean[t]])
    requires var sub := Select(rows, clean); Witnessed(DomRel(sub), CleanSet(sub), subRanks, s)
    ensures Witnessed(DomRel(rows), CleanSet(rows), ranks, clean[s])
  {
  }

  lemma NothingClean(rows: seq<Point>, subRanks: seq<nat>, ranks: seq<nat>, limit: nat)
    requires NanPositions(rows, false) == []
    ensures CleanSet(rows) == {} && forall l: nat :: Emitted(CleanSet(rows), ranks, l) == {}
  {
    NanPositionsFacts(rows, false);
    hide HasNan, NanPositions;
    assert forall i :: i in CleanSet(rows) ==> i in NanPositions(rows, false);
  }

  lemma LiftExact(rows: seq<Point>, subRanks: seq<nat>, ranks: seq<nat>, limit: nat)
    requires WrittenBack(rows, subRanks, ranks)
    requires var sub := Select(rows, NanPositions(rows, false));
      forall s :: s in CleanSet(sub) && s < |subRanks| ==> subRanks[s] < limit
    ensures forall i :: i in CleanSet(rows) && i < |ranks| ==> ranks[i] < limit
  {
    var clean := NanPositions(rows, false);
    var sub := Select(rows, clean);
    CleanRows(rows);
    NanPositionsFacts(rows, false);
    hide HasNan, NanPositions;
    forall i | i in CleanSet(rows) && i < |ranks| ensures ranks[i] < limit {
      var s := PositionOf(clean, i);
      InClean(sub, s);
    }
  }

  lemma LiftEmitted(rows: seq<Point>, subRanks: seq<nat>, ranks: seq<nat>, limit: nat)
    requires WrittenBack(rows, subRanks, ranks)
    ensures var sub := Select(rows, NanPositions(rows, false));
      |CleanSet(sub)| == |CleanSet(rows)|
        && |Emitted(CleanSet(sub), subRanks, limit)| == |Emitted(CleanSet(rows), ranks, limit)|
  {
    var clean := NanPositions(rows, false);
    var sub := Select(rows, clean);
    CleanRows(rows);
    NanPositionsFacts(rows, false);
    hide HasNan, NanPositions;
    ImageSize(CleanSet(sub), clean);
    ImageSize(Emitted(CleanSet(sub), subRanks, limit), clean);
    forall i | i in CleanSet(rows) ensures i in Image(CleanSet(sub), clean) {
      var s := PositionOf(clean, i);
      InClean(sub, s);
    }
    assert Image(CleanSet(sub), clean) == CleanSet(rows);
    forall i | i in Emitted(CleanSet(rows), ranks, limit)
      ensures i in Image(Emitted(CleanSet(sub), subRanks, limit), clean) {
      var s := PositionOf(clean, i);
      InClean(sub, s);
      assert s in Emitted(CleanSet(sub), subRanks, limit);
    }
    assert Image(Emitted(CleanSet(sub), subRanks, limit), clean) == Emitted(CleanSet(rows), ranks, limit);
  }

  method SentinelAbove(ranks: seq<nat>) returns (sentinel: nat)
    ensures forall i :: 0 <= i < |ranks| ==> ranks[i] < sentinel
    ensures sentinel == 0 <==> ranks == []
    ensures sentinel > 0 ==> exists i :: 0 <= i < |ranks| && ranks[i] + 1 == sentinel
  {
    sentinel := 0;
    for i := 0 to |ranks|
      invariant forall j :: 0 <= j < i ==> ranks[j] < sentinel
      invariant sentinel == 0 <==> i == 0
      invariant sentinel > 0 ==> exists j :: 0 <= j < i && ranks[j] + 1 == sentinel
    {
      if ranks[i] + 1 > sentinel {
        sentinel := ranks[i] + 1;
      }
    }
  }

  /** `fast_non_dominated_sort_partial`. The source asserts that all rows have the width of the first. */
  method FastNonDominatedSortPartial(rows: seq<Point>, nBelow: nat) returns (ranks: seq<nat>, ghost limit: nat)
    requires rows != [] ==> Shaped(rows, |rows[0]|)
    ensures Ranked(rows, nBelow, ranks, limit) && IsPartialRanking(rows, nBelow, ranks)
    ensures rows == [] ==> limit == 0
    ensures rows != [] ==>
      if |rows[0]| == 2 then forall i :: i in CleanSet(rows) && i < |ranks| ==> ranks[i] < limit
      else limit > 0 ==> |Emitted(CleanSet(rows), ranks, limit - 1)| < nBelow
    decreases |rows|
  {
    hide HasNan, Certified, DomRel, Emitted, CleanSet, NanRanked, NanPositions, WrittenBack;
    if rows == [] {
      EmptyRanked(nBelow);
      return [], 0;
    }
    var below := Min(nBelow, |rows|);
    if NoNan(rows) {
      CleanRanked(rows);
      if |rows[0]| == 2 {
        ranks, limit := PatienceRanks(rows);
        AllEmitted(rows, ranks, limit);
      } else {
        ranks, limit := PeelRanks(rows, |rows[0]|, below);
      }
      NoNanRanked(rows, ranks);
      return;
    }
    var clean, nan := PartitionNan(rows);
    CleanRows(rows);
    var subRanks;
    subRanks, limit := FastNonDominatedSortPartial(Select(rows, clean), below);
    var sentinel := SentinelAbove(subRanks);
    ranks := WriteRanks(rows, clean, nan, subRanks, sentinel);
    LiftCertificate(rows, subRanks, ranks, limit);
    LiftEmitted(rows, subRanks, ranks, limit);
    CleanRanked(rows);
    if clean == [] {
      NothingClean(rows, subRanks, ranks, limit);
    } else if |rows[0]| == 2 {
      LiftExact(rows, subRanks, ranks, limit);
    } else if limit > 0 {
      assert |Select(rows, clean)[0]| == |rows[0]|;
      LiftEmitted(rows, subRanks, ranks, limit - 1);
    }
  }

  method WriteRanks(rows: seq<Point>, clean: seq<nat>, nan: seq<nat>, subRanks: seq<nat>, sentinel: nat)
    returns (ranks: seq<nat>)
    requires clean == NanPositions(rows, false) && nan == NanPositions(rows, true) && |subRanks| == |clean|
    requires forall i :: 0 <= i < |subRanks| ==> subRanks[i] < sentinel
    requires sentinel > 0 ==> exists i :: 0 <= i < |subRanks| && subRanks[i] + 1 == sentinel
    ensures |ranks| == |rows| && WrittenBack(rows, subRanks, ranks) && NanRanked(rows, ranks)
  {
    NanPositionsFacts(rows, false);
    NanPositionsFacts(rows, true);
    hide HasNan, NanPositions;
    ranks := seq(|rows|, _ => UNSET);
    for s := 0 to |clean|
      invariant |ranks| == |rows| && forall t :: 0 <= t < s ==> ranks[clean[t]] == subRanks[t]
    {
      ranks := ranks[clean[s] := subRanks[s]];
    }
    for s := 0 to |nan|
      invariant |ranks| == |rows| && forall t :: 0 <= t < |clean| ==> ranks[clean[t]] == subRanks[t]
      invariant forall t :: 0 <= t < s ==> ranks[nan[t]] == sentinel
    {
      assert nan[s] in nan;
      assert forall t :: 0 <= t < |clean| ==> clean[t] in clean;
      ranks := ranks[nan[s] := sentinel];
    }
    SentinelRanks(rows, clean, nan, subRanks, sentinel, ranks);
  }

  lemma SentinelRanks(rows: seq<Point>, clean: seq<nat>, nan: seq<nat>, subRanks: seq<nat>, sentinel: nat,
                      ranks: seq<nat>)
    requires clean == NanPositions(rows, false) && nan == NanPositions(rows, true) && |subRanks| == |clean|
    requires forall i :: 0 <= i < |subRanks| ==> subRanks[i] < sentinel
    requires sentinel > 0 ==> exists i :: 0 <= i < |subRanks| && subRanks[i] + 1 == sentinel
    requires |ranks| == |rows|
    requires forall t :: 0 <= t < |clean| ==> ranks[clean[t]] == subRanks[t]
    requires forall t :: 0 <= t < |nan| ==> ranks[nan[t]] == sentinel
    ensures NanRanked(rows, ranks)
  {
    NanPositionsFacts(rows, false);
    NanPositionsFacts(rows, true);
    hide HasNan, NanPositions;
    forall i | 0 <= i < |rows| && HasNan(rows[i]) ensures ranks[i] == sentinel {
      var s := PositionOf(nan, i);
    }
    forall j | 0 <= j < |rows| && !HasNan(rows[j]) ensures ranks[j] < sentinel {
      var s := PositionOf(clean, j);
    }
    if sentinel > 0 {
      var s :| 0 <= s < |subRanks| && subRanks[s] + 1 == sentinel;
      assert clean[s] in clean;
      assert CleanRankExists(rows, ranks, sentinel - 1);
    }
  }

  lemma EmptyRanked(nBelow: nat)
    ensures Ranked([], nBelow, [], 0)
  {
  }

  lemma NoNanRanked(rows: seq<Point>, ranks: seq<nat>)
    requires NoNan(rows) && |ranks| == |rows|
    ensures NanRanked(rows, ranks)
  {
  }

  lemma CleanRanked(rows: seq<Point>)
    ensures |CleanSet(rows)| <= |rows|
  {
    hide HasNan;
    BelowFacts(|rows|);
    SubsetSize(CleanSet(rows), Below(|rows|));
  }

  lemma AllEmitted(rows: seq<Point>, ranks: seq<nat>, limit: nat)
    requires |ranks| == |rows| && forall i :: 0 <= i < |rows| ==> ranks[i] < limit
    ensures Emitted(CleanSet(rows), ranks, limit) == CleanSet(rows)
  {
  }

  /** Every rank below the limit is the row's exact depth; the limit itself is a lower bound. */
  lemma RankIsDepth(rows: seq<Point>, nBelow: nat, ranks: seq<nat>, limit: nat, i: nat)
    requires Ranked(rows, nBelow, ranks, limit) && i < |rows| && !HasNan(rows[i])
    ensures ranks[i] < limit ==> IsDepth(DomRel(rows), i, ranks[i])
    ensures ranks[i] >= limit ==> ranks[i] == limit && DepthAtLeast(DomRel(rows), i, limit)
  {
    hide HasNan, DomRel;
    DomRelWithin(rows);
    CertifiedDepth(DomRel(rows), CleanSet(rows), ranks, limit, i);
    CertifiedBound(DomRel(rows), CleanSet(rows), ranks, limit, i);
  }
}
