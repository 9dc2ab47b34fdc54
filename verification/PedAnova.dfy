/** The top quantile sets of the PED-ANOVA importance evaluator (`ped_anova.rs`). */
module PedAnova {
  import opened FiniteSets
  import opened Coords
  import opened Orders
  import opened Hssp
  import opened Nds
  import opened ParetoFront
  import opened Split
  import opened SplitQuality

  function Ceil(x: real): int {
    -((-x).Floor)
  }

  /** `(n * quantile).ceil()` */
  function TopCount(n: nat, quantile: real): int {
    Ceil(n as real * quantile)
  }

  lemma MulNonNegative(a: real, b: real)
    requires a >= 0.0 && b >= 0.0
    ensures a * b >= 0.0
  {
  }

  lemma TopCountMonotone(n: nat, p: real, q: real)
    requires 0.0 <= p <= q <= 1.0
    ensures 0 <= TopCount(n, p) <= TopCount(n, q) <= n
  {
    var m := n as real;
    MulNonNegative(m, p);
    MulNonNegative(m, q - p);
    MulNonNegative(m, 1.0 - q);
    assert m * (q - p) == m * q - m * p;
    assert m * (1.0 - q) == m - m * q;
    assert (-m).Floor + n == 0;
  }

  ghost function Under(vals: seq<int>, t: int): set<nat> {
    set i: nat | i < |vals| && vals[i] < t
  }

  ghost function AtMost(vals: seq<int>, t: int): set<nat> {
    set i: nat | i < |vals| && vals[i] <= t
  }

  /** `t` is the value at position `k` of the sorted list. */
  ghost predicate IsNth(vals: seq<int>, k: nat, t: int) {
    |Under(vals, t)| <= k < |AtMost(vals, t)|
  }

  /** `select_nth_unstable_by`: the value at a position of the sorted list. */
  method SelectNth(vals: seq<int>, k: nat) returns (t: int)
    requires k < |vals|
    ensures IsNth(vals, k, t)
  {
    var n := |vals|;
    var le := (a: nat, b: nat) => a < n && b < n && vals[a] <= vals[b];
    var order := Sort(Upto(n), le);
    forall i | 0 <= i < n ensures order[i] < n {
      assert order[i] in order;
    }
    forall i, j | 0 <= i < j < n ensures vals[order[i]] <= vals[order[j]] {
      assert le(order[i], order[j]);
    }
    t := vals[order[k]];
    SortedIsNth(vals, order, k);
  }

  lemma SortedIsNth(vals: seq<int>, order: seq<nat>, k: nat)
    requires |order| == |vals| && InRange(order, |vals|) && Distinct(order) && k < |vals|
    requires forall x: nat :: x < |vals| ==> x in order
    requires forall i, j :: 0 <= i < j < |order| ==> vals[order[i]] <= vals[order[j]]
    ensures IsNth(vals, k, vals[order[k]])
  {
    var t := vals[order[k]];
    BelowFacts(k);
    BelowFacts(k + 1);
    hide Below;
    ImageSize(Below(k), order);
    ImageSize(Below(k + 1), order);
    forall i | i in Under(vals, t) ensures i in Image(Below(k), order) {
      assert i in order;
      var q :| 0 <= q < |order| && order[q] == i;
      assert q < k;
    }
    SubsetSize(Under(vals, t), Image(Below(k), order));
    SubsetSize(Image(Below(k + 1), order), AtMost(vals, t));
  }

  lemma NthMonotone(vals: seq<int>, k: nat, t: int, l: nat, u: int)
    requires k <= l && IsNth(vals, k, t) && IsNth(vals, l, u)
    ensures t <= u
  {
    if u < t {
      SubsetSize(AtMost(vals, u), Under(vals, t));
    }
  }

  /** The positions whose value is at most the threshold, in order. */
  function AtMostPositions(vals: seq<int>, t: int): (pos: seq<nat>) {
    if vals == [] then []
    else
      var n := |vals| - 1;
      AtMostPositions(vals[..n], t) + if vals[n] <= t then [n] else []
  }

  lemma {:induction false} AtMostPositionsIn(vals: seq<int>, t: int)
    ensures forall x: nat :: x in AtMostPositions(vals, t) <==> x < |vals| && vals[x] <= t
  {
    if vals != [] {
      AtMostPositionsIn(vals[..|vals| - 1], t);
    }
  }

  /** The lower-is-better value of each trial in the single-value branch: the target if there is
      one, else the first objective, negated when it is maximised. */
  function ObjectiveValues(values: seq<Point>, directions: seq<Direction>, targets: seq<int>,
                           hasTarget: bool): (vals: seq<int>)
    requires directions != [] && Shaped(values, |directions|) && |targets| == |values|
    ensures |vals| == |values|
  {
    seq(|values|, i requires 0 <= i < |values| =>
      if hasTarget then targets[i]
      else if directions[0] == Minimize then values[i][0] else -values[i][0])
  }

  /** What `get_top_quantile_trials` returns, by branch. */
  ghost predicate IsTop(values: seq<Point>, directions: seq<Direction>, targets: seq<int>, hasTarget: bool,
                        quantile: real, top: seq<nat>)
    requires directions != [] && Shaped(values, |directions|) && |targets| == |values|
  {
    var n := |values|;
    if quantile == 1.0 then top == Upto(n)
    else if |directions| > 1 && !hasTarget then TopOfQuota(values, directions, TopCount(n, quantile), top)
    else TopOfThreshold(ObjectiveValues(values, directions, targets, hasTarget), Max(TopCount(n, quantile), 1) - 1, top)
  }

  /** The values at most the one at position `k` of the sorted list. */
  ghost predicate TopOfThreshold(vals: seq<int>, k: nat, top: seq<nat>) {
    exists t :: IsNth(vals, k, t) && top == AtMostPositions(vals, t)
  }

  /** The promising set of a split with quota `gamma`. */
  ghost predicate TopOfQuota(values: seq<Point>, directions: seq<Direction>, gamma: int, top: seq<nat>) {
    if gamma >= |values| then top == Upto(|values|)
    else gamma >= 0 && exists ranks, limit, b :: TopOfSplit(values, directions, gamma, top, ranks, limit, b)
  }

  ghost predicate TopOfSplit(values: seq<Point>, directions: seq<Direction>, gamma: nat, top: seq<nat>,
                             ranks: seq<nat>, limit: nat, b: nat) {
    var losses := Losses(values, directions);
    && Shaped(losses, |directions|) && |ranks| == |losses| && Ranked(losses, gamma, ranks, limit)
      && IsBoundary(ranks, gamma, b)
    && top == GoodLocal(losses, |directions|, ranks, gamma, b)
  }

  method GetTopQuantileTrials(solver: Solver, values: seq<Point>, directions: seq<Direction>, targets: seq<int>,
                              hasTarget: bool, quantile: real)
      returns (top: seq<nat>)
    requires solver.Valid() && directions != [] && Shaped(values, |directions|) && |targets| == |values| && values != []
    requires 0.0 < quantile <= 1.0
    modifies solver
    ensures solver.Valid() && IsTop(values, directions, targets, hasTarget, quantile, top)
  {
    hide TopCount, TopOfThreshold, TopOfQuota, ObjectiveValues;
    var n := |values|;
    if quantile == 1.0 {
      return Upto(n);
    }
    TopCountMonotone(n, quantile, 1.0);
    if |directions| > 1 && !hasTarget {
      top := TopByQuota(solver, values, directions, TopCount(n, quantile));
    } else {
      var vals := ObjectiveValues(values, directions, targets, hasTarget);
      top := TopByThreshold(vals, Max(TopCount(n, quantile), 1) - 1);
    }
  }

  method TopByQuota(solver: Solver, values: seq<Point>, directions: seq<Direction>, gamma: nat) returns (top: seq<nat>)
    requires solver.Valid() && directions != [] && Shaped(values, |directions|) && gamma <= |values|
    modifies solver
    ensures solver.Valid() && TopOfQuota(values, directions, gamma, top)
  {
    hide SplitBy, TopOfSplit;
    var n := |values|;
    var poor;
    ghost var ranks, limit, b;
    top, poor, ranks, limit, b := SplitFeasible(solver, values, Upto(n), directions, gamma);
    if gamma < n {
      SplitIsTop(values, directions, gamma, top, poor, ranks, limit, b);
    }
  }

  method TopByThreshold(vals: seq<int>, k: nat) returns (top: seq<nat>)
    requires k < |vals|
    ensures TopOfThreshold(vals, k, top)
  {
    hide IsNth;
    var threshold := SelectNth(vals, k);
    top := [];
    for i := 0 to |vals|
      invariant top == AtMostPositions(vals[..i], threshold)
    {
      assert vals[..i + 1][..i] == vals[..i];
      if vals[i] <= threshold {
        top := top + [i];
      }
    }
    assert vals[..|vals|] == vals;
  }

  lemma SplitIsTop(values: seq<Point>, directions: seq<Direction>, gamma: nat, good: seq<nat>, poor: seq<nat>,
                   ranks: seq<nat>, limit: nat, b: nat)
    requires Shaped(values, |directions|) && gamma < |values|
    requires SplitBy(values, Upto(|values|), directions, gamma, good, poor, ranks, limit, b)
    ensures TopOfSplit(values, directions, gamma, good, ranks, limit, b)
  {
    hide Ranked, IsBoundary, GoodLocal, Rest, Loss;
    var all := Upto(|values|);
    assert Front.Select(values, all) == values;
    LossesShape(values, all, directions);
    RankedLength(Losses(values, directions), gamma, ranks, limit);
    GoodLocalRange(Losses(values, directions), |directions|, ranks, gamma, b);
    var goodLocal := GoodLocal(Losses(values, directions), |directions|, ranks, gamma, b);
    assert Lookup(all, goodLocal) == goodLocal;
  }

  /** The two calls of `evaluate_with` and the subset assertion between them. */
  method TargetAndRegion(solver: Solver, values: seq<Point>, directions: seq<Direction>, targets: seq<int>,
                         hasTarget: bool,
                         targetQuantile: real, regionQuantile: real) returns (target: seq<nat>, region: seq<nat>)
    requires solver.Valid() && directions != [] && Shaped(values, |directions|) && |targets| == |values| && |values| > 1
    requires 0.0 < targetQuantile < regionQuantile <= 1.0
    modifies solver
    ensures solver.Valid() && forall x :: x in target ==> x in region
  {
    hide IsTop;
    target := GetTopQuantileTrials(solver, values, directions, targets, hasTarget, targetQuantile);
    region := GetTopQuantileTrials(solver, values, directions, targets, hasTarget, regionQuantile);
    TopSetsNest(values, directions, targets, hasTarget, targetQuantile, target, regionQuantile, region);
  }

  lemma ThresholdNests(vals: seq<int>, k: nat, small: seq<nat>, l: nat, large: seq<nat>)
    requires k <= l && TopOfThreshold(vals, k, small) && TopOfThreshold(vals, l, large)
    ensures forall x :: x in small ==> x < |vals| && x in large
  {
    hide IsNth;
    var t :| IsNth(vals, k, t) && small == AtMostPositions(vals, t);
    var u :| IsNth(vals, l, u) && large == AtMostPositions(vals, u);
    NthMonotone(vals, k, t, l, u);
    AtMostPositionsIn(vals, t);
    AtMostPositionsIn(vals, u);
  }

  lemma QuotaNests(values: seq<Point>, directions: seq<Direction>, gamma: nat, small: seq<nat>, gamma': nat,
                   large: seq<nat>)
    requires gamma <= gamma' && TopOfQuota(values, directions, gamma, small)
      && TopOfQuota(values, directions, gamma', large)
    ensures forall x :: x in small ==> x < |values| && x in large
  {
    hide TopOfSplit;
    if gamma < |values| {
      var ranks, limit, b :| TopOfSplit(values, directions, gamma, small, ranks, limit, b);
      SplitTopInRange(values, directions, gamma, small, ranks, limit, b);
      if gamma' < |values| {
        var ranks', limit', b' :| TopOfSplit(values, directions, gamma', large, ranks', limit', b');
        SplitTopsNest(values, directions, gamma, small, ranks, limit, b, gamma', large, ranks', limit', b');
      }
    }
  }

  lemma SplitTopInRange(values: seq<Point>, directions: seq<Direction>, gamma: nat, top: seq<nat>, ranks: seq<nat>,
                        limit: nat, b: nat)
    requires TopOfSplit(values, directions, gamma, top, ranks, limit, b)
    ensures forall x :: x in top ==> x < |values|
  {
    hide Ranked, IsBoundary, GoodLocal, Loss;
    GoodLocalRange(Losses(values, directions), |directions|, ranks, gamma, b);
  }

  /** `g` is `n * quantile`, rounded up. */
  ghost predicate RoundedUp(n: nat, quantile: real, g: int) {
    g as real - 1.0 < n as real * quantile <= g as real
  }

  lemma TopCountRoundsUp(n: nat, quantile: real, g: int)
    ensures RoundedUp(n, quantile, g) <==> g == TopCount(n, quantile)
  {
  }

  /** Trial `i` is at least as good as trial `j`: a target is minimised, an objective has a direction. */
  predicate AtLeastAsGood(values: seq<Point>, directions: seq<Direction>, targets: seq<int>, hasTarget: bool,
                          i: nat, j: nat)
    requires directions != [] && Shaped(values, |directions|) && |targets| == |values| && i < |values| && j < |values|
  {
    if hasTarget then targets[i] <= targets[j]
    else if directions[0] == Minimize then values[i][0] <= values[j][0]
    else values[i][0] >= values[j][0]
  }

  ghost function StrictlyBetter(values: seq<Point>, directions: seq<Direction>, targets: seq<int>, hasTarget: bool,
                                j: nat): set<nat>
    requires directions != [] && Shaped(values, |directions|) && |targets| == |values| && j < |values|
  {
    set i: nat | i < |values| && !AtLeastAsGood(values, directions, targets, hasTarget, j, i)
  }

  /** What the top set is for the caller. By a single value: no trial left out is at least as good as one
      kept, at least the rounded-up share of the trials is kept, and fewer than that are better than the
      worst one kept. By a split: exactly the rounded-up share is kept. */
  lemma TopSetMeaning(values: seq<Point>, directions: seq<Direction>, targets: seq<int>, hasTarget: bool,
                      quantile: real, top: seq<nat>, g: int)
    requires directions != [] && Shaped(values, |directions|) && |targets| == |values| && values != []
    requires 0.0 < quantile < 1.0 && RoundedUp(|values|, quantile, g)
    requires IsTop(values, directions, targets, hasTarget, quantile, top)
    ensures |directions| > 1 && !hasTarget ==> |top| == g
    ensures |directions| == 1 || hasTarget ==>
      && InRange(top, |values|) && |top| >= Max(g, 1)
      && (forall i: nat, j: nat :: i < |values| && i !in top && j in top ==>
            j < |values| && !AtLeastAsGood(values, directions, targets, hasTarget, i, j))
      && (exists w: nat :: w in top && w < |values|
            && |StrictlyBetter(values, directions, targets, hasTarget, w)| < Max(g, 1)
            && forall j :: j in top && j < |values| ==> AtLeastAsGood(values, directions, targets, hasTarget, j, w))
  {
    hide TopCount, TopOfThreshold, TopOfQuota, ObjectiveValues;
    TopCountRoundsUp(|values|, quantile, g);
    if |directions| == 1 || hasTarget {
      var vals := ObjectiveValues(values, directions, targets, hasTarget);
      forall i: nat, j: nat | i < |values| && j < |values|
        ensures vals[i] <= vals[j] <==> AtLeastAsGood(values, directions, targets, hasTarget, i, j) {
        ValuesDecide(values, directions, targets, hasTarget, i, j);
      }
      hide AtLeastAsGood;
      var w := ThresholdFacts(vals, Max(g, 1) - 1, top);
      assert StrictlyBetter(values, directions, targets, hasTarget, w) == Under(vals, vals[w]);
    } else {
      TopCountMonotone(|values|, quantile, 1.0);
      QuotaSize(values, directions, g, top);
    }
  }

  lemma ValuesDecide(values: seq<Point>, directions: seq<Direction>, targets: seq<int>, hasTarget: bool, i: nat, j: nat)
    requires directions != [] && Shaped(values, |directions|) && |targets| == |values| && i < |values| && j < |values|
    ensures var vals := ObjectiveValues(values, directions, targets, hasTarget);
      vals[i] <= vals[j] <==> AtLeastAsGood(values, directions, targets, hasTarget, i, j)
  {
  }

  /** The worst of the values kept; fewer than `k + 1` are smaller, and all kept are at most as large. */
  lemma ThresholdFacts(vals: seq<int>, k: nat, top: seq<nat>) returns (w: nat)
    requires TopOfThreshold(vals, k, top)
    ensures InRange(top, |vals|) && |top| >= k + 1 && w in top && w < |vals| && |Under(vals, vals[w])| <= k
    ensures forall i: nat :: i < |vals| ==> (i in top <==> vals[i] <= vals[w])
  {
    var t :| IsNth(vals, k, t) && top == AtMostPositions(vals, t);
    AtMostPositionsIn(vals, t);
    if forall i: nat :: i < |vals| && vals[i] <= t ==> vals[i] < t {
      SubsetSize(AtMost(vals, t), Under(vals, t));
    }
    w :| w < |vals| && vals[w] == t;
    forall i | 0 <= i < |top| ensures top[i] < |vals| {
      assert top[i] in top;
    }
    assert Elements(top) == AtMost(vals, t);
    ElementsSize(top);
  }

  lemma QuotaSize(values: seq<Point>, directions: seq<Direction>, gamma: nat, top: seq<nat>)
    requires gamma <= |values| && TopOfQuota(values, directions, gamma, top)
    ensures |top| == gamma
  {
    hide Ranked, IsBoundary, Loss;
  }

  /** Top sets nest on every branch, which is what the evaluator asserts. */
  lemma TopSetsNest(values: seq<Point>, directions: seq<Direction>, targets: seq<int>, hasTarget: bool,
                    p: real, small: seq<nat>, q: real, large: seq<nat>)
    requires directions != [] && Shaped(values, |directions|) && |targets| == |values|
    requires 0.0 < p <= q <= 1.0
    requires IsTop(values, directions, targets, hasTarget, p, small)
    requires IsTop(values, directions, targets, hasTarget, q, large)
    ensures forall x :: x in small ==> x in large
  {
    hide TopCount, TopOfThreshold, TopOfQuota, ObjectiveValues;
    var n := |values|;
    TopCountMonotone(n, p, q);
    var gamma, gamma' := TopCount(n, p), TopCount(n, q);
    if p < 1.0 {
      if |directions| > 1 && !hasTarget {
        QuotaNests(values, directions, gamma, small, if q < 1.0 then gamma' else gamma, if q < 1.0 then large
          else small);
      } else {
        var vals := ObjectiveValues(values, directions, targets, hasTarget);
        var k, l := Max(gamma, 1) - 1, Max(gamma', 1) - 1;
        ThresholdNests(vals, k, small, if q < 1.0 then l else k, if q < 1.0 then large else small);
      }
    }
  }

  lemma SplitTopsNest(values: seq<Point>, directions: seq<Direction>, gamma: nat, small: seq<nat>, ranks: seq<nat>,
                      limit: nat, b: nat,
                      gamma': nat, large: seq<nat>, ranks': seq<nat>, limit': nat, b': nat)
    requires TopOfSplit(values, directions, gamma, small, ranks, limit, b)
    requires TopOfSplit(values, directions, gamma', large, ranks', limit', b')
    requires gamma <= gamma'
    ensures forall x :: x in small ==> x in large
  {
    hide Ranked, IsBoundary, GoodLocal, Loss;
    GoodNests(Losses(values, directions), |directions|, gamma, ranks, limit, b, gamma', ranks', limit', b');
  }
}
