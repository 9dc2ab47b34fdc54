/** Splitting observations into promising and poor ones (`split.rs`). */
module Split {
  import opened Coords
  import opened Orders
  import opened Front
  import opened Hssp
  import opened Nds
  import opened ParetoFront

  /** The indices of rank `r`, ascending: one entry of `rank_to_indices`. */
  function Group(ranks: seq<nat>, r: nat): (g: seq<nat>)
    ensures InRange(g, |ranks|) && |g| <= |ranks|
  {
    if ranks == [] then []
    else
      var n := |ranks| - 1;
      Group(ranks[..n], r) + if ranks[n] == r then [n] else []
  }

  /** The groups of all ranks below `b`, in rank order. */
  function GroupsBelow(ranks: seq<nat>, b: nat): (g: seq<nat>)
    ensures InRange(g, |ranks|)
  {
    if b == 0 then [] else GroupsBelow(ranks, b - 1) + Group(ranks, b - 1)
  }

  /** `b` is the first rank whose group does not fit. */
  ghost predicate IsBoundary(ranks: seq<nat>, gamma: nat, b: nat) {
    |GroupsBelow(ranks, b)| <= gamma < |GroupsBelow(ranks, b + 1)|
  }

  datatype Signature = HasNegInf | AllFiniteOrNan | HasPosInf

  /** The infinities of a loss row decide how it is treated in the boundary group. */
  function SignatureOf(row: Point): Signature {
    if -INF in row then HasNegInf else if INF in row then HasPosInf else AllFiniteOrNan
  }

  function OfSignature(rows: seq<Point>, sig: Signature): (pos: seq<nat>)
    ensures InRange(pos, |rows|) && |pos| <= |rows|
  {
    if rows == [] then []
    else
      var n := |rows| - 1;
      OfSignature(rows[..n], sig) + if SignatureOf(rows[n]) == sig then [n] else []
  }

  /** The worst non-NaN loss in one objective, or -INF. */
  function Worst(rows: seq<Point>, d: nat): int
    requires forall i :: 0 <= i < |rows| ==> d < |rows[i]|
  {
    if rows == [] then -INF
    else
      var n := |rows| - 1;
      var w := Worst(rows[..n], d);
      if !IsNan(rows[n][d]) && rows[n][d] > w then rows[n][d] else w
  }

  /** One coordinate of the reference, in tenths of a tick: max(1.1 w, 0.9 w), or EPS = 1e-12. */
  function RefCoord(w: int): int {
    var r := Max(11 * w, 9 * w);
    if r == 0 then 1 else r
  }

  function WorstPoint(rows: seq<Point>, dims: nat): (w: Point)
    requires Shaped(rows, dims)
    ensures |w| == dims
  {
    seq(dims, d requires 0 <= d < dims => Worst(rows, d))
  }

  function Reference(worst: Point): (r: Point)
    ensures |r| == |worst|
  {
    seq(|worst|, d requires 0 <= d < |worst| => RefCoord(worst[d]))
  }

  /** Losses in tenths of a tick, the unit of the reference. */
  function Tenths(rows: seq<Point>, dims: nat): (scaled: seq<Point>)
    requires Shaped(rows, dims)
    ensures Shaped(scaled, dims) && |scaled| == |rows|
  {
    seq(|rows|, i requires 0 <= i < |rows| => seq(dims, d requires 0 <= d < dims => 10 * rows[i][d]))
  }

  /** The picks among the finite rows of the boundary group. */
  ghost function FinitePicks(group: seq<Point>, dims: nat, t: nat): (picks: seq<nat>)
    requires Shaped(group, dims) && t <= |OfSignature(group, AllFiniteOrNan)|
    ensures |picks| == t && InRange(picks, |group|)
  {
    var finite := OfSignature(group, AllFiniteOrNan);
    var rows := Select(group, finite);
    var worst := WorstPoint(rows, dims);
    if forall d :: 0 <= d < dims ==> worst[d] > -INF then
      Lookup(finite, Selection(Tenths(rows, dims), Reference(worst), t))
    else finite[..t]
  }

  lemma {:induction false} SignatureSplit(rows: seq<Point>)
    ensures |OfSignature(rows, HasNegInf)| + |OfSignature(rows, AllFiniteOrNan)| + |OfSignature(rows, HasPosInf)|
      == |rows|
  {
    hide SignatureOf;
    if rows != [] {
      SignatureSplit(rows[..|rows| - 1]);
    }
  }

  /** The `k` picks from the boundary group, as positions in it: rows with -inf first, then the
      hypervolume subset selection of the finite rows, then rows with +inf. */
  ghost function BoundaryPicks(group: seq<Point>, dims: nat, k: nat): (picks: seq<nat>)
    requires Shaped(group, dims) && k <= |group|
    ensures |picks| == k && InRange(picks, |group|)
  {
    SignatureSplit(group);
    var neg, pos := OfSignature(group, HasNegInf), OfSignature(group, HasPosInf);
    var a := Min(k, |neg|);
    var t := Min(k - a, |OfSignature(group, AllFiniteOrNan)|);
    neg[..a] + FinitePicks(group, dims, t) + pos[..k - a - t]
  }

  /** The promising set, as positions: every group below the boundary, and the boundary's picks. */
  ghost function GoodLocal(rows: seq<Point>, dims: nat, ranks: seq<nat>, gamma: nat, b: nat): (good: seq<nat>)
    requires Shaped(rows, dims) && |ranks| == |rows| && IsBoundary(ranks, gamma, b)
    ensures |good| == gamma && InRange(good, |rows|)
  {
    var whole, group := GroupsBelow(ranks, b), Group(ranks, b);
    whole + Lookup(group, BoundaryPicks(Select(rows, group), dims, gamma - |whole|))
  }

  /** The positions not in `good`, ascending. */
  function Rest(n: nat, good: seq<nat>): (poor: seq<nat>)
    ensures InRange(poor, n)
  {
    if n == 0 then [] else Rest(n - 1, good) + if n - 1 in good then [] else [n - 1]
  }

  /** The loop that fills `rank_to_indices`. */
  method GroupByRank(ranks: seq<nat>) returns (groups: map<nat, seq<nat>>)
    ensures forall r: nat :: GroupOf(groups, r) == Group(ranks, r)
  {
    groups := map[];
    for i := 0 to |ranks|
      invariant forall r: nat :: GroupOf(groups, r) == Group(ranks[..i], r)
    {
      var r := ranks[i];
      assert ranks[..i + 1][..i] == ranks[..i];
      groups := groups[r := GroupOf(groups, r) + [i]];
    }
    assert ranks[..|ranks|] == ranks;
  }

  function GroupOf(groups: map<nat, seq<nat>>, r: nat): seq<nat> {
    if r in groups then groups[r] else []
  }

  /** Once every rank is included nothing is left out. */
  lemma {:induction false} GroupsBelowAll(ranks: seq<nat>, top: nat)
    requires forall i :: 0 <= i < |ranks| ==> ranks[i] < top
    ensures |GroupsBelow(ranks, top)| == |ranks|
    decreases |ranks|
  {
    if ranks == [] {
      GroupsBelowEmpty(top);
    } else {
      var n := |ranks| - 1;
      GroupsBelowAll(ranks[..n], top);
      GroupsBelowPush(ranks[..n], ranks[n], top);
      assert ranks == ranks[..n] + [ranks[n]];
    }
  }

  lemma {:induction false} GroupsBelowEmpty(b: nat)
    ensures GroupsBelow([], b) == []
  {
    if b > 0 {
      GroupsBelowEmpty(b - 1);
    }
  }

  lemma {:induction false} GroupsBelowPush(ranks: seq<nat>, last: nat, b: nat)
    ensures |GroupsBelow(ranks + [last], b)| == |GroupsBelow(ranks, b)| + if last < b then 1 else 0
  {
    hide Group, GroupsBelow;
    GroupsBelowZero(ranks);
    GroupsBelowZero(ranks + [last]);
    if b > 0 {
      GroupsBelowPush(ranks, last, b - 1);
      GroupPush(ranks, last, b - 1);
      GroupsBelowStep(ranks, b);
      GroupsBelowStep(ranks + [last], b);
    }
  }

  lemma GroupsBelowZero(ranks: seq<nat>)
    ensures GroupsBelow(ranks, 0) == []
  {
  }

  lemma GroupPush(ranks: seq<nat>, last: nat, r: nat)
    ensures |Group(ranks + [last], r)| == |Group(ranks, r)| + if last == r then 1 else 0
  {
  }

  lemma GroupsBelowStep(ranks: seq<nat>, b: nat)
    requires b > 0
    ensures GroupsBelow(ranks, b) == GroupsBelow(ranks, b - 1) + Group(ranks, b - 1)
  {
  }

  lemma {:induction false} GroupsBelowGrows(ranks: seq<nat>, a: nat, b: nat)
    requires a <= b
    ensures |GroupsBelow(ranks, a)| <= |GroupsBelow(ranks, b)|
    ensures GroupsBelow(ranks, a) <= GroupsBelow(ranks, b)
    decreases b - a
  {
    hide Group;
    if a < b {
      GroupsBelowGrows(ranks, a, b - 1);
    }
  }

  /** Takes whole groups while they fit. */
  method TakeWholeGroups(ranks: seq<nat>, groups: map<nat, seq<nat>>, gamma: nat)
    returns (good: seq<nat>, currentRank: nat)
    requires gamma < |ranks| && forall r: nat :: GroupOf(groups, r) == Group(ranks, r)
    ensures IsBoundary(ranks, gamma, currentRank) && good == GroupsBelow(ranks, currentRank)
  {
    hide Group;
    ghost var top := RanksTop(ranks);
    GroupsBelowAll(ranks, top);
    good, currentRank := [], 0;
    while |good| + |GroupOf(groups, currentRank)| <= gamma
      invariant good == GroupsBelow(ranks, currentRank) && |good| <= gamma
      decreases top - currentRank
    {
      if currentRank >= top {
        GroupsBelowGrows(ranks, top, currentRank);
      }
      good := good + GroupOf(groups, currentRank);
      currentRank := currentRank + 1;
    }
  }

  ghost function RanksTop(ranks: seq<nat>): (top: nat)
    ensures forall i :: 0 <= i < |ranks| ==> ranks[i] < top
  {
    if ranks == [] then 0
    else
      var n := |ranks| - 1;
      var t := RanksTop(ranks[..n]);
      assert forall i :: 0 <= i < n ==> ranks[i] == ranks[..n][i];
      if ranks[n] < t then t else ranks[n] + 1
  }

  method PartitionSignatures(rows: seq<Point>) returns (neg: seq<nat>, finite: seq<nat>, pos: seq<nat>)
    ensures neg == OfSignature(rows, HasNegInf) && finite == OfSignature(rows, AllFiniteOrNan)
      && pos == OfSignature(rows, HasPosInf)
  {
    neg, finite, pos := [], [], [];
    for i := 0 to |rows|
      invariant neg == OfSignature(rows[..i], HasNegInf)
      invariant finite == OfSignature(rows[..i], AllFiniteOrNan)
      invariant pos == OfSignature(rows[..i], HasPosInf)
    {
      assert rows[..i + 1][..i] == rows[..i];
      var hasNegInf := -INF in rows[i];
      var hasPosInf := INF in rows[i];
      if hasNegInf {
        neg := neg + [i];
      } else if hasPosInf {
        pos := pos + [i];
      } else {
        finite := finite + [i];
      }
    }
    assert rows[..|rows|] == rows;
  }

  /** The loop over the finite rows that collects the worst point. */
  method CollectWorst(rows: seq<Point>, dims: nat) returns (worst: Point, allFinite: bool)
    requires Shaped(rows, dims)
    ensures worst == WorstPoint(rows, dims)
    ensures allFinite <==> forall d :: 0 <= d < dims ==> worst[d] > -INF
  {
    worst := seq(dims, _ => -INF);
    var dimHasFinite := seq(dims, _ => false);
    for i := 0 to |rows|
      invariant |worst| == |dimHasFinite| == dims
      invariant forall e :: 0 <= e < dims ==> worst[e] == Worst(rows[..i], e) && (dimHasFinite[e] <==> worst[e] > -INF)
    {
      ghost var was, had := worst, dimHasFinite;
      assert rows[..i + 1][..i] == rows[..i];
      for d := 0 to dims
        invariant |worst| == |dimHasFinite| == dims
        invariant forall e ::
          0 <= e < d ==> worst[e] == Worst(rows[..i + 1], e) && (dimHasFinite[e] <==> worst[e] > -INF)
        invariant forall e :: d <= e < dims ==> worst[e] == was[e] && dimHasFinite[e] == had[e]
      {
        var v := rows[i][d];
        WorstAtLeast(rows[..i], d);
        if !IsNan(v) && v > worst[d] {
          worst := worst[d := v];
          dimHasFinite := dimHasFinite[d := true];
        }
      }
    }
    assert rows[..|rows|] == rows;
    allFinite := forall d :: 0 <= d < dims ==> dimHasFinite[d];
  }

  lemma {:induction false} WorstAtLeast(rows: seq<Point>, d: nat)
    requires forall i :: 0 <= i < |rows| ==> d < |rows[i]|
    ensures Worst(rows, d) >= -INF
  {
    if rows != [] {
      WorstAtLeast(rows[..|rows| - 1], d);
    }
  }

  lemma LookupConcat(indices: seq<nat>, a: seq<nat>, b: seq<nat>)
    requires InRange(a, |indices|) && InRange(b, |indices|)
    ensures Lookup(indices, a + b) == Lookup(indices, a) + Lookup(indices, b)
  {
  }

  /** The hypervolume part of the boundary picks. */
  method PickFinite(solver: Solver, rows: seq<Point>, indices: seq<nat>, finite: seq<nat>, dims: nat, take: nat)
    returns (picked: seq<nat>)
    requires solver.Valid() && dims > 0 && Shaped(rows, dims) && |indices| == |rows|
    requires finite == OfSignature(rows, AllFiniteOrNan) && take <= |finite|
    modifies solver
    ensures solver.Valid() && picked == Lookup(indices, FinitePicks(rows, dims, take))
  {
    hide Selection, OfSignature, Worst;
    var finiteRows := Select(rows, finite);
    var finiteIndices := Lookup(indices, finite);
    var worst, allFinite := CollectWorst(finiteRows, dims);
    if allFinite {
      picked := solver.HypervolumeSubsetSelection(Tenths(finiteRows, dims), finiteIndices, Reference(worst), take);
    } else {
      picked := Lookup(indices, finite[..take]);
    }
  }

  /** The picks from the boundary group, pushed onto the promising list. */
  method PickFromBoundary(solver: Solver, rows: seq<Point>, indices: seq<nat>, dims: nat, k: nat)
    returns (picked: seq<nat>)
    requires solver.Valid() && dims > 0 && Shaped(rows, dims) && |indices| == |rows| && 0 < k <= |rows|
    modifies solver
    ensures solver.Valid() && picked == Lookup(indices, BoundaryPicks(rows, dims, k))
  {
    hide OfSignature, FinitePicks;
    SignatureSplit(rows);
    var neg, finite, pos := PartitionSignatures(rows);
    var remaining := k;
    picked := Lookup(indices, neg[..Min(remaining, |neg|)]);
    remaining := if remaining >= |neg| then remaining - |neg| else 0;
    ghost var t := Min(remaining, |finite|);
    LookupConcat(indices, neg[..Min(k, |neg|)], FinitePicks(rows, dims, t));
    if remaining > 0 && finite != [] {
      var take := Min(remaining, |finite|);
      var selected := PickFinite(solver, rows, indices, finite, dims, take);
      picked := picked + selected;
      remaining := remaining - take;
    }
    assert picked == Lookup(indices, neg[..Min(k, |neg|)] + FinitePicks(rows, dims, t));
    LookupConcat(indices, neg[..Min(k, |neg|)] + FinitePicks(rows, dims, t), pos[..remaining]);
    picked := picked + Lookup(indices, pos[..Min(remaining, |pos|)]);
  }

  /** The promising set of a loss list, by rank and then within the boundary group. */
  method SplitLocal(solver: Solver, losses: seq<Point>, dims: nat, gamma: nat)
      returns (goodLocal: seq<nat>, ghost ranks: seq<nat>, ghost limit: nat, ghost b: nat)
    requires solver.Valid() && dims > 0 && Shaped(losses, dims) && gamma < |losses|
    modifies solver
    ensures solver.Valid() && Ranked(losses, gamma, ranks, limit) && |ranks| == |losses| && IsBoundary(ranks, gamma, b)
    ensures goodLocal == GoodLocal(losses, dims, ranks, gamma, b)
  {
    hide Ranked, Group, GroupsBelow, BoundaryPicks;
    var found;
    found, limit := FastNonDominatedSortPartial(losses, gamma);
    ranks := found;
    RankedLength(losses, gamma, found, limit);
    var rankToIndices := GroupByRank(found);
    var currentRank;
    goodLocal, currentRank := TakeWholeGroups(found, rankToIndices, gamma);
    b := currentRank;
    var hssSubsetSize := gamma - |goodLocal|;
    var rankIndices := GroupOf(rankToIndices, currentRank);
    BoundaryRoom(found, gamma, currentRank);
    if hssSubsetSize > 0 {
      var picked := PickFromBoundary(solver, Select(losses, rankIndices), rankIndices, dims, hssSubsetSize);
      goodLocal := goodLocal + picked;
    } else {
      NoPicks(Select(losses, rankIndices), dims);
    }
  }

  /** `split_feasible_observation_indices`. Every row has one value per direction, and a study has
      at least one direction. */
  method SplitFeasible(solver: Solver, values: seq<Point>, feasible: seq<nat>, directions: seq<Direction>, gamma: nat)
      returns (good: seq<nat>, poor: seq<nat>, ghost ranks: seq<nat>, ghost limit: nat, ghost b: nat)
    requires solver.Valid() && directions != [] && Shaped(values, |directions|) && InRange(feasible, |values|)
    requires gamma <= |feasible|
    modifies solver
    ensures solver.Valid()
    ensures gamma == |feasible| ==> good == feasible && poor == []
    ensures gamma < |feasible| ==> SplitBy(values, feasible, directions, gamma, good, poor, ranks, limit, b)
  {
    var n := |feasible|;
    ranks, limit, b := [], 0, 0;
    if n == 0 {
      return [], [], [], 0, 0;
    }
    if gamma == n {
      return feasible, [], [], 0, 0;
    }
    hide Ranked, IsBoundary, GoodLocal, Losses;
    LossesShape(values, feasible, directions);
    var losses := Losses(Select(values, feasible), directions);
    var goodLocal;
    goodLocal, ranks, limit, b := SplitLocal(solver, losses, |directions|, gamma);
    GoodLocalRange(losses, |directions|, ranks, gamma, b);
    var poorLocal := PoorOf(n, goodLocal);
    good, poor := Lookup(feasible, goodLocal), Lookup(feasible, poorLocal);
  }

  method PoorOf(n: nat, goodLocal: seq<nat>) returns (poorLocal: seq<nat>)
    ensures poorLocal == Rest(n, goodLocal)
  {
    poorLocal := [];
    for local := 0 to n
      invariant poorLocal == Rest(local, goodLocal)
    {
      if local !in goodLocal {
        poorLocal := poorLocal + [local];
      }
    }
  }

  lemma LossesShape(values: seq<Point>, feasible: seq<nat>, directions: seq<Direction>)
    requires Shaped(values, |directions|) && InRange(feasible, |values|)
    ensures var losses := Losses(Select(values, feasible), directions);
      |losses| == |feasible| && Shaped(losses, |directions|)
  {
  }

  lemma GoodLocalRange(rows: seq<Point>, dims: nat, ranks: seq<nat>, gamma: nat, b: nat)
    requires Shaped(rows, dims) && |ranks| == |rows| && IsBoundary(ranks, gamma, b)
    ensures InRange(GoodLocal(rows, dims, ranks, gamma, b), |rows|)
  {
  }

  lemma RankedLength(losses: seq<Point>, gamma: nat, ranks: seq<nat>, limit: nat)
    requires Ranked(losses, gamma, ranks, limit)
    ensures |ranks| == |losses|
  {
  }

  lemma BoundaryRoom(ranks: seq<nat>, gamma: nat, b: nat)
    requires IsBoundary(ranks, gamma, b)
    ensures gamma - |GroupsBelow(ranks, b)| < |Group(ranks, b)|
  {
  }

  lemma NoPicks(group: seq<Point>, dims: nat)
    requires Shaped(group, dims)
    ensures BoundaryPicks(group, dims, 0) == []
  {
  }

  /** What the split of a feasible list is, with its ghost ranks, exactness limit and boundary. */
  ghost predicate SplitBy(values: seq<Point>, feasible: seq<nat>, directions: seq<Direction>, gamma: nat,
                          good: seq<nat>, poor: seq<nat>, ranks: seq<nat>, limit: nat, b: nat)
    requires Shaped(values, |directions|) && InRange(feasible, |values|) && gamma < |feasible|
  {
    var losses := Losses(Select(values, feasible), directions);
    && Ranked(losses, gamma, ranks, limit)
    && IsBoundary(ranks, gamma, b)
    && var goodLocal := GoodLocal(losses, |directions|, ranks, gamma, b);
       good == Lookup(feasible, goodLocal) && poor == Lookup(feasible, Rest(|feasible|, goodLocal))
  }
}
