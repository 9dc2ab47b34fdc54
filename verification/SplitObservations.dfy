/** The split of feasible and infeasible observations together (`split.rs`). */
module SplitObservations {
  import opened FiniteSets
  import opened Coords
  import opened Orders
  import opened Front
  import opened Hssp
  import opened Nds
  import opened ParetoFront
  import opened Split
  import opened SplitQuality

  /** Feasibility and total constraint violation of one observation. */
  datatype Constraint = Constraint(feasible: bool, violation: int)

  /** `good` and `poor` share out the indices below `n`, `gamma` of them to `good`. */
  ghost predicate IsPartition(n: nat, gamma: nat, good: seq<nat>, poor: seq<nat>) {
    && |good| == gamma && |good| + |poor| == n && InRange(good, n) && InRange(poor, n)
    && forall x: nat :: x < n ==> x in good || x in poor
  }

  /** A list as long as the range it covers repeats nothing. */
  lemma {:induction false} FullDistinct(xs: seq<nat>)
    requires |Elements(xs)| == |xs|
    ensures Distinct(xs)
  {
    if xs != [] {
      var n := |xs| - 1;
      assert xs == xs[..n] + [xs[n]];
      assert Elements(xs) == Elements(xs[..n]) + {xs[n]};
      ElementsSize(xs[..n]);
      assert xs[n] !in Elements(xs[..n]);
      FullDistinct(xs[..n]);
    }
  }

  /** The two sides of a partition have no index in common, and none twice. */
  lemma PartitionDisjoint(n: nat, gamma: nat, good: seq<nat>, poor: seq<nat>)
    requires IsPartition(n, gamma, good, poor)
    ensures Distinct(good) && Distinct(poor) && forall x :: x in good ==> x !in poor
  {
    hide Distinct;
    var all := good + poor;
    BelowFacts(n);
    assert Elements(all) == Below(n);
    FullDistinct(all);
    DistinctParts(good, poor);
  }

  lemma DistinctParts(good: seq<nat>, poor: seq<nat>)
    requires Distinct(good + poor)
    ensures Distinct(good) && Distinct(poor) && forall x :: x in good ==> x !in poor
  {
    var all := good + poor;
    assert forall i :: 0 <= i < |good| ==> all[i] == good[i];
    assert forall j :: 0 <= j < |poor| ==> all[|good| + j] == poor[j];
    forall i, j | 0 <= i < j < |poor| ensures poor[i] != poor[j] {
      assert all[|good| + i] != all[|good| + j];
    }
    forall i, j | 0 <= i < |good| && 0 <= j < |poor| ensures good[i] != poor[j] {
      assert all[i] != all[|good| + j];
    }
  }

  /** No promising observation is worse than a poor one: feasible before infeasible, undominated
      and clean before NaN among the feasible, less violating among the infeasible. */
  ghost predicate RespectsOrder(losses: seq<Point>, constraints: seq<Constraint>, good: seq<nat>, poor: seq<nat>) {
    && |losses| == |constraints|
    && forall i, j ::
      i in good && j in poor && i < |constraints| && j < |constraints| ==> !Preferable(losses, constraints, j, i)
  }

  /** `j` is strictly preferable to `i`. */
  ghost predicate Preferable(losses: seq<Point>, constraints: seq<Constraint>, j: nat, i: nat)
    requires i < |constraints| && j < |constraints|
  {
    if constraints[j].feasible then !constraints[i].feasible || Surpasses(losses, j, i)
    else !constraints[i].feasible && constraints[j].violation < constraints[i].violation
  }

  /** The indices of the feasible (or infeasible) observations, ascending. */
  function WithFeasibility(constraints: seq<Constraint>, feasible: bool): (idx: seq<nat>)
    ensures InRange(idx, |constraints|)
  {
    if constraints == [] then []
    else
      var n := |constraints| - 1;
      WithFeasibility(constraints[..n], feasible) + if constraints[n].feasible == feasible then [n] else []
  }

  lemma {:induction false} WithFeasibilityIn(constraints: seq<Constraint>, feasible: bool)
    ensures forall x: nat :: x in WithFeasibility(constraints, feasible) <==>
      x < |constraints| && constraints[x].feasible == feasible
    ensures Distinct(WithFeasibility(constraints, feasible))
  {
    if constraints != [] {
      WithFeasibilityIn(constraints[..|constraints| - 1], feasible);
    }
  }

  lemma {:induction false} FeasibilityCounts(constraints: seq<Constraint>)
    ensures |WithFeasibility(constraints, true)| + |WithFeasibility(constraints, false)| == |constraints|
  {
    if constraints != [] {
      FeasibilityCounts(constraints[..|constraints| - 1]);
    }
  }

  /** `select_nth_unstable_by(gamma)` and `split_at(gamma)`: the `gamma` least violating indices. */
  method SplitInfeasible(constraints: seq<Constraint>, infeasible: seq<nat>, gamma: nat)
    returns (good: seq<nat>, poor: seq<nat>)
    requires InRange(infeasible, |constraints|) && gamma <= |infeasible|
    ensures |good| == gamma && multiset(good + poor) == multiset(infeasible)
    ensures forall a, b :: 0 <= a < |good| && 0 <= b < |poor| && good[a] < |constraints| && poor[b] < |constraints| ==>
      constraints[good[a]].violation <= constraints[poor[b]].violation
  {
    if gamma == 0 {
      assert [] + infeasible == infeasible;
      return [], infeasible;
    }
    if gamma == |infeasible| {
      assert infeasible + [] == infeasible;
      return infeasible, [];
    }
    var le := (a: nat, b: nat) => a < |constraints| && b < |constraints|
      && constraints[a].violation <= constraints[b].violation;
    forall a | a in infeasible ensures a < |constraints| {
    }
    var sorted := Sort(infeasible, le);
    good, poor := sorted[..gamma], sorted[gamma..];
    assert good + poor == sorted;
    forall a, b | 0 <= a < |good| && 0 <= b < |poor| ensures le(good[a], poor[b]) {
      assert good[a] == sorted[a] && poor[b] == sorted[gamma + b];
    }
  }

  method PartitionFeasible(constraints: seq<Constraint>) returns (feasible: seq<nat>, infeasible: seq<nat>)
    ensures feasible == WithFeasibility(constraints, true) && infeasible == WithFeasibility(constraints, false)
  {
    feasible, infeasible := [], [];
    for index := 0 to |constraints|
      invariant feasible == WithFeasibility(constraints[..index], true)
      invariant infeasible == WithFeasibility(constraints[..index], false)
    {
      assert constraints[..index + 1][..index] == constraints[..index];
      if constraints[index].feasible {
        feasible := feasible + [index];
      } else {
        infeasible := infeasible + [index];
      }
    }
    assert constraints[..|constraints|] == constraints;
  }

  /** `split_observation_indices_for_multi_objective` */
  method SplitAll(solver: Solver, values: seq<Point>, constraints: seq<Constraint>, directions: seq<Direction>,
                  gamma: nat)
      returns (good: seq<nat>, poor: seq<nat>)
    requires solver.Valid() && directions != [] && Shaped(values, |directions|)
    requires |constraints| == |values| && gamma <= |values|
    modifies solver
    ensures solver.Valid() && IsPartition(|values|, gamma, good, poor)
    ensures RespectsOrder(Losses(values, directions), constraints, good, poor)
    ensures FeasiblePicked(values, constraints, directions, gamma, good)
  {
    hide SplitBy, Losses, IsPartition, RespectsOrder;
    var n := |values|;
    if gamma == n {
      good, poor := Upto(n), [];
      WithFeasibilityIn(constraints, true);
      FeasibilityCounts(constraints);
      TrivialSplit(Losses(values, directions), constraints, n);
      assert |Losses(values, directions)| == n;
      return;
    }
    var feasible, infeasible := PartitionFeasible(constraints);
    WithFeasibilityIn(constraints, true);
    WithFeasibilityIn(constraints, false);
    FeasibilityCounts(constraints);
    hide WithFeasibility;
    var feasibleGamma := Min(gamma, |feasible|);
    ghost var ranks, limit, b;
    var goodF, poorF;
    goodF, poorF, ranks, limit, b := SplitFeasible(solver, values, feasible, directions, feasibleGamma);
    FeasiblePart(values, feasible, directions, feasibleGamma, goodF, poorF, ranks, limit, b);
    var infeasibleGamma := if gamma >= |goodF| then gamma - |goodF| else 0;
    var goodI, poorI := SplitInfeasible(constraints, infeasible, infeasibleGamma);
    good, poor := goodF + goodI, poorF + poorI;
    if gamma < |feasible| {
      assert goodI == [] && good == goodF;
    }
    Assemble(values, directions, constraints, gamma, feasible, infeasible, goodF, poorF, goodI, poorI);
  }

  /** With enough feasible observations the promising ones are those the hypervolume split of the feasible
      ones selects; otherwise they include all feasible ones. */
  ghost predicate FeasiblePicked(values: seq<Point>, constraints: seq<Constraint>, directions: seq<Direction>,
                                 gamma: nat, good: seq<nat>)
    requires Shaped(values, |directions|) && |constraints| == |values|
  {
    var feasible := WithFeasibility(constraints, true);
    if gamma < |feasible| then
      exists poor, ranks, limit, b :: SplitBy(values, feasible, directions, gamma, good, poor, ranks, limit, b)
    else forall x :: x in feasible ==> x in good
  }

  lemma TrivialSplit(losses: seq<Point>, constraints: seq<Constraint>, n: nat)
    requires |losses| == |constraints| == n
    ensures IsPartition(n, n, Upto(n), []) && RespectsOrder(losses, constraints, Upto(n), [])
  {
  }

  /** The two halves of the feasible list: a partition that respects dominance and
      puts NaN rows last. */
  ghost predicate FeasibleSplit(losses: seq<Point>, feasible: seq<nat>, gamma: nat, good: seq<nat>, poor: seq<nat>) {
    && |good| == gamma && |good| + |poor| == |feasible|
    && (forall x :: x in feasible <==> x in good || x in poor)
    && (forall i, j :: i in good && j in poor ==> !Surpasses(losses, j, i))
  }

  lemma FeasiblePart(values: seq<Point>, feasible: seq<nat>, directions: seq<Direction>, gamma: nat,
                     good: seq<nat>, poor: seq<nat>, ranks: seq<nat>, limit: nat, b: nat)
    requires Shaped(values, |directions|) && InRange(feasible, |values|) && gamma <= |feasible|
    requires gamma == |feasible| ==> good == feasible && poor == []
    requires gamma < |feasible| ==> SplitBy(values, feasible, directions, gamma, good, poor, ranks, limit, b)
    ensures FeasibleSplit(Losses(values, directions), feasible, gamma, good, poor)
  {
    if gamma < |feasible| {
      var dims, losses := |directions|, Losses(Select(values, feasible), directions);
      LossesShape(values, feasible, directions);
      RankedLength(losses, gamma, ranks, limit);
      var goodLocal := GoodLocal(losses, dims, ranks, gamma, b);
      var poorLocal := Rest(|feasible|, goodLocal);
      SplitPartitions(losses, dims, ranks, gamma, b);
      assert good == Lookup(feasible, goodLocal) && poor == Lookup(feasible, poorLocal);
      forall p, q | p in goodLocal && q in poorLocal
        ensures p < |feasible| && q < |feasible| && !Surpasses(Losses(values, directions), feasible[q], feasible[p])
      {
        LocalDominance(values, feasible, directions, gamma, ranks, limit, b, p, q);
      }
      hide *;
      FeasibleParts(Losses(values, directions), feasible, gamma, good, poor, goodLocal, poorLocal);
    } else {
      hide Surpasses, Losses;
    }
  }

  lemma LocalDominance(values: seq<Point>, feasible: seq<nat>, directions: seq<Direction>, gamma: nat,
                       ranks: seq<nat>, limit: nat, b: nat, p: nat, q: nat)
    requires Shaped(values, |directions|) && InRange(feasible, |values|)
    requires var losses := Losses(Select(values, feasible), directions);
      |ranks| == |losses| && Shaped(losses, |directions|) && Ranked(losses, gamma, ranks, limit)
        && IsBoundary(ranks, gamma, b)
      && p in GoodLocal(losses, |directions|, ranks, gamma, b)
        && q in Rest(|losses|, GoodLocal(losses, |directions|, ranks, gamma, b))
    ensures p < |feasible| && q < |feasible| && !Surpasses(Losses(values, directions), feasible[q], feasible[p])
  {
    hide Ranked, IsBoundary, GoodLocal, Rest, Loss, HasNan, StrictDom;
    var losses := Losses(Select(values, feasible), directions);
    GoodLocalRange(losses, |directions|, ranks, gamma, b);
    SplitPartitions(losses, |directions|, ranks, gamma, b);
    NoPoorSurpassesGood(losses, |directions|, gamma, ranks, limit, b, p, q);
    assert losses[p] == Losses(values, directions)[feasible[p]] && losses[q] == Losses(values, directions)[feasible[q]];
  }

  lemma FeasibleParts(losses: seq<Point>, feasible: seq<nat>, gamma: nat, good: seq<nat>, poor: seq<nat>,
                      goodLocal: seq<nat>, poorLocal: seq<nat>)
    requires InRange(goodLocal, |feasible|) && InRange(poorLocal, |feasible|)
    requires |goodLocal| == gamma && |poorLocal| == |feasible| - gamma
    requires forall x: nat :: x < |feasible| ==> (x in goodLocal <==> x !in poorLocal)
    requires good == Lookup(feasible, goodLocal) && poor == Lookup(feasible, poorLocal)
    requires forall p, q :: p in goodLocal && q in poorLocal ==>
      p < |feasible| && q < |feasible| && !Surpasses(losses, feasible[q], feasible[p])
    ensures FeasibleSplit(losses, feasible, gamma, good, poor)
  {
  }

  lemma Assemble(values: seq<Point>, directions: seq<Direction>, constraints: seq<Constraint>, gamma: nat,
                 feasible: seq<nat>, infeasible: seq<nat>,
                 goodF: seq<nat>, poorF: seq<nat>, goodI: seq<nat>, poorI: seq<nat>)
    requires |constraints| == |values| && |feasible| + |infeasible| == |values|
    requires forall x: nat :: x in feasible <==> x < |constraints| && constraints[x].feasible
    requires forall x: nat :: x in infeasible <==> x < |constraints| && !constraints[x].feasible
    requires gamma <= |values|
      && FeasibleSplit(Losses(values, directions), feasible, Min(gamma, |feasible|), goodF, poorF)
    requires |goodI| == gamma - |goodF| && multiset(goodI + poorI) == multiset(infeasible)
    requires forall a, b ::
      0 <= a < |goodI| && 0 <= b < |poorI| && goodI[a] < |constraints| && poorI[b] < |constraints| ==>
      constraints[goodI[a]].violation <= constraints[poorI[b]].violation
    ensures IsPartition(|values|, gamma, goodF + goodI, poorF + poorI)
    ensures RespectsOrder(Losses(values, directions), constraints, goodF + goodI, poorF + poorI)
  {
    hide Losses, IsPartition, RespectsOrder;
    assert |Losses(values, directions)| == |values|;
    PermutationFacts(goodI + poorI, infeasible);
    MembersOfBoth(goodI, poorI, infeasible);
    AssembleOrder(Losses(values, directions), constraints, feasible, infeasible, goodF, poorF, goodI, poorI);
    AssemblePartition(constraints, gamma, feasible, infeasible, goodF, poorF, goodI, poorI);
  }

  lemma MembersOfBoth(a: seq<nat>, b: seq<nat>, all: seq<nat>)
    requires SameElements(a + b, all)
    ensures forall x: nat :: x in a || x in b <==> x in all
  {
  }

  lemma AssemblePartition(constraints: seq<Constraint>, gamma: nat, feasible: seq<nat>, infeasible: seq<nat>,
                          goodF: seq<nat>, poorF: seq<nat>, goodI: seq<nat>, poorI: seq<nat>)
    requires |feasible| + |infeasible| == |constraints| && gamma <= |constraints|
    requires forall x: nat :: x in feasible <==> x < |constraints| && constraints[x].feasible
    requires forall x: nat :: x in infeasible <==> x < |constraints| && !constraints[x].feasible
    requires forall x: nat :: x in goodI || x in poorI <==> x in infeasible
    requires forall x :: x in feasible <==> x in goodF || x in poorF
    requires |goodF| + |poorF| == |feasible| && |goodI| + |poorI| == |infeasible| && |goodF| + |goodI| == gamma
    ensures IsPartition(|constraints|, gamma, goodF + goodI, poorF + poorI)
  {
    var good, poor := goodF + goodI, poorF + poorI;
    forall k | 0 <= k < |good| ensures good[k] < |constraints| {
      assert good[k] in good;
    }
    forall k | 0 <= k < |poor| ensures poor[k] < |constraints| {
      assert poor[k] in poor;
    }
  }

  /** Feasible before infeasible, then by dominance or by violation. */
  lemma AssembleOrder(losses: seq<Point>, constraints: seq<Constraint>, feasible: seq<nat>, infeasible: seq<nat>,
                      goodF: seq<nat>, poorF: seq<nat>, goodI: seq<nat>, poorI: seq<nat>)
    requires |constraints| == |losses|
    requires forall x: nat :: x in feasible <==> x < |constraints| && constraints[x].feasible
    requires forall x: nat :: x in infeasible <==> x < |constraints| && !constraints[x].feasible
    requires forall x: nat :: x in goodI || x in poorI <==> x in infeasible
    requires forall x :: x in feasible <==> x in goodF || x in poorF
    requires forall i, j :: i in goodF && j in poorF ==> !Surpasses(losses, j, i)
    requires goodI != [] ==> poorF == []
    requires forall a, b ::
      0 <= a < |goodI| && 0 <= b < |poorI| && goodI[a] < |constraints| && poorI[b] < |constraints| ==>
      constraints[goodI[a]].violation <= constraints[poorI[b]].violation
    ensures RespectsOrder(losses, constraints, goodF + goodI, poorF + poorI)
  {
  }
}
