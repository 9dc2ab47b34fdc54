/** Peeling a strict partial order layer by layer, as NSGA-II's sort does (`nsgaii.rs`), and what the
    layers are. */
module Layers {
  import opened FiniteSets
  import opened Orders
  import opened Chains

  ghost predicate StrictOrder(rel: Rel) {
    && (forall x: nat :: (x, x) !in rel)
    && (forall x: nat, y: nat, z: nat :: (x, y) in rel && (y, z) in rel ==> (x, z) in rel)
  }

  /** Nothing in `among` is related to `x`. */
  ghost predicate Free(rel: Rel, among: set<nat>, x: nat) {
    forall y: nat :: y in among ==> (y, x) !in rel
  }

  /** Removal of one position by moving the last entry into it. */
  function SwapRemove(xs: seq<nat>, i: nat): (rest: seq<nat>)
    requires i < |xs|
    ensures |rest| == |xs| - 1 && multiset(rest) + multiset{xs[i]} == multiset(xs)
  {
    var n := |xs| - 1;
    assert xs == xs[..n] + [xs[n]];
    if i == n then xs[..n]
    else
      assert xs[..n] == xs[..i] + [xs[i]] + xs[i + 1..n];
      assert xs[..n][i := xs[n]] == xs[..i] + [xs[n]] + xs[i + 1..n];
      xs[..n][i := xs[n]]
  }

  /** Every other entry stays where it is. */
  lemma SwapRemoveAt(xs: seq<nat>, i: nat, k: nat)
    requires i < |xs| && k < |xs| - 1
    ensures SwapRemove(xs, i)[k] == if k == i then xs[|xs| - 1] else xs[k]
  {
  }

  /** One scan from position `i`: the entries that are free, in the order met, and what remains. */
  ghost function Scan(rel: Rel, among: set<nat>, xs: seq<nat>, i: nat): (out: (seq<nat>, seq<nat>))
    requires i <= |xs|
    ensures |out.0| + |out.1| == |xs| && multiset(out.0) + multiset(out.1) == multiset(xs)
    decreases |xs| - i
  {
    if i == |xs| then ([], xs)
    else if Free(rel, among, xs[i]) then
      var rest := Scan(rel, among, SwapRemove(xs, i), i);
      ([xs[i]] + rest.0, rest.1)
    else Scan(rel, among, xs, i + 1)
  }

  lemma {:induction false} ScanFacts(rel: Rel, among: set<nat>, xs: seq<nat>, i: nat)
    requires i <= |xs| && forall k :: 0 <= k < i ==> !Free(rel, among, xs[k])
    ensures forall x :: x in Scan(rel, among, xs, i).0 ==> Free(rel, among, x)
    ensures forall x :: x in Scan(rel, among, xs, i).1 ==> !Free(rel, among, x)
    ensures forall x :: x in xs <==> x in Scan(rel, among, xs, i).0 || x in Scan(rel, among, xs, i).1
    decreases |xs| - i
  {
    hide Free;
    var out := Scan(rel, among, xs, i);
    forall x ensures x in xs <==> x in out.0 || x in out.1 {
      assert x in multiset(xs) <==> x in multiset(out.0) || x in multiset(out.1);
    }
    if i == |xs| {
    } else if Free(rel, among, xs[i]) {
      ScanFacts(rel, among, SwapRemove(xs, i), i);
    } else {
      ScanFacts(rel, among, xs, i + 1);
    }
  }

  /** The layers of `xs`: each is what is free among the entries left. */
  ghost function Peel(rel: Rel, xs: seq<nat>): (layers: seq<seq<nat>>)
    decreases |xs|
  {
    var step := Scan(rel, Elements(xs), xs, 0);
    if step.0 == [] then [] else [step.0] + Peel(rel, step.1)
  }

  ghost function Flatten(layers: seq<seq<nat>>): seq<nat> {
    if layers == [] then [] else layers[0] + Flatten(layers[1..])
  }

  /** Those of `among` that are related to `x`. */
  ghost function Dominators(rel: Rel, among: set<nat>, x: nat): set<nat> {
    set y | y in among && (y, x) in rel
  }

  /** In a finite set, what is not free has a free dominator. */
  lemma {:induction false} FreeDominator(rel: Rel, among: set<nat>, x: nat) returns (y: nat)
    requires StrictOrder(rel) && !Free(rel, among, x)
    ensures y in among && (y, x) in rel && Free(rel, among, y)
    decreases |Dominators(rel, among, x)|
  {
    y :| y in among && (y, x) in rel;
    if !Free(rel, among, y) {
      forall z | z in Dominators(rel, among, y) ensures z in Dominators(rel, among, x) && z != y {
        assert (z, y) in rel && (y, x) in rel;
      }
      SubsetSize(Dominators(rel, among, y), Dominators(rel, among, x) - {y});
      y := FreeDominator(rel, among, y);
      assert (y, x) in rel;
    }
  }

  /** Peeling ends only when nothing is left. */
  lemma ScanProgress(rel: Rel, xs: seq<nat>)
    requires StrictOrder(rel) && xs != []
    ensures Scan(rel, Elements(xs), xs, 0).0 != []
  {
    hide StrictOrder;
    ScanFacts(rel, Elements(xs), xs, 0);
    if !Free(rel, Elements(xs), xs[0]) {
      var y := FreeDominator(rel, Elements(xs), xs[0]);
      assert y in xs;
    }
  }

  /** The layers hold every entry once. */
  lemma {:induction false} PeelPartitions(rel: Rel, xs: seq<nat>)
    requires StrictOrder(rel)
    ensures multiset(Flatten(Peel(rel, xs))) == multiset(xs)
    ensures forall k :: 0 <= k < |Peel(rel, xs)| ==> Peel(rel, xs)[k] != []
    decreases |xs|
  {
    hide StrictOrder;
    var step := Scan(rel, Elements(xs), xs, 0);
    if xs != [] {
      ScanProgress(rel, xs);
      PeelPartitions(rel, step.1);
      assert Peel(rel, xs)[1..] == Peel(rel, step.1);
    }
  }

  /** The first layer that holds `x`. */
  ghost function RankIn(layers: seq<seq<nat>>, x: nat): nat {
    if layers == [] || x in layers[0] then 0 else 1 + RankIn(layers[1..], x)
  }

  /** What a sort into layers promises: the entries of layer `k` are those of rank `k`, ranks grow
      along the relation, and every positive rank has a dominator one layer below. */
  ghost predicate Layered(rel: Rel, xs: seq<nat>, layers: seq<seq<nat>>) {
    && (forall x :: x in xs ==> RankIn(layers, x) < |layers|)
    && (forall k, x :: 0 <= k < |layers| && x in layers[k] ==> x in xs && RankIn(layers, x) == k)
    && (forall x, y :: x in xs && y in xs && (y, x) in rel ==> RankIn(layers, y) < RankIn(layers, x))
    && (forall x :: x in xs && RankIn(layers, x) > 0 ==> HasLower(rel, xs, layers, x))
  }

  /** Some dominator of `x` is ranked one below it. */
  ghost predicate HasLower(rel: Rel, xs: seq<nat>, layers: seq<seq<nat>>, x: nat) {
    exists y :: y in xs && (y, x) in rel && RankIn(layers, y) + 1 == RankIn(layers, x)
  }

  lemma {:induction false} PeelLayered(rel: Rel, xs: seq<nat>)
    requires StrictOrder(rel)
    ensures Layered(rel, xs, Peel(rel, xs))
    decreases |xs|
  {
    hide StrictOrder, Free, Layered;
    if xs == [] {
      EmptyLayered(rel);
    } else {
      ScanProgress(rel, xs);
      var step := Scan(rel, Elements(xs), xs, 0);
      ScanFacts(rel, Elements(xs), xs, 0);
      PeelLayered(rel, step.1);
      LayeredStep(rel, xs, step.0, step.1, Peel(rel, step.1));
    }
  }

  lemma EmptyLayered(rel: Rel)
    ensures Layered(rel, [], [])
  {
  }

  lemma LayeredStep(rel: Rel, xs: seq<nat>, front: seq<nat>, rest: seq<nat>, layers: seq<seq<nat>>)
    requires StrictOrder(rel) && Layered(rel, rest, layers)
    requires forall x :: x in xs <==> x in front || x in rest
    requires forall x :: x in front ==> Free(rel, Elements(xs), x)
    requires forall x :: x in rest ==> !Free(rel, Elements(xs), x)
    ensures Layered(rel, xs, [front] + layers)
  {
    hide StrictOrder, Free;
    var all := [front] + layers;
    assert all[1..] == layers;
    forall x | x in xs
      ensures RankIn(all, x) == (if x in front then 0 else 1 + RankIn(layers, x)) && RankIn(all, x) < |all| {
    }
    forall k, x | 0 <= k < |all| && x in all[k] ensures x in xs && RankIn(all, x) == k {
      if k > 0 {
        assert x in layers[k - 1];
      }
    }
    forall x, y | x in xs && y in xs && (y, x) in rel ensures RankIn(all, y) < RankIn(all, x) {
      NotFree(rel, Elements(xs), y, x);
    }
    forall x | x in xs && RankIn(all, x) > 0 ensures HasLower(rel, xs, all, x) {
      LowerStep(rel, xs, front, rest, layers, x);
    }
  }

  lemma NotFree(rel: Rel, among: set<nat>, y: nat, x: nat)
    requires y in among && (y, x) in rel
    ensures !Free(rel, among, x)
  {
  }

  lemma LowerStep(rel: Rel, xs: seq<nat>, front: seq<nat>, rest: seq<nat>, layers: seq<seq<nat>>, x: nat)
    requires StrictOrder(rel) && Layered(rel, rest, layers) && x in rest
    requires forall x :: x in xs <==> x in front || x in rest
    requires forall x :: x in front ==> Free(rel, Elements(xs), x)
    requires forall x :: x in rest ==> !Free(rel, Elements(xs), x)
    ensures HasLower(rel, xs, [front] + layers, x)
  {
  }

  lemma RankIsDepth(rel: Rel, n: nat, layers: seq<seq<nat>>, i: nat)
    requires Within(rel, Below(n)) && Layered(rel, Upto(n), layers) && i < n
    ensures IsDepth(rel, i, RankIn(layers, i)) && RankIn(layers, i) < |layers|
  {
    hide IsDepth, Upto, Certified, RankIn, Within, HasLower;
    BelowFacts(n);
    var ranks := seq(n, x requires 0 <= x < n => RankIn(layers, x));
    LayeredCertifies(rel, n, layers, ranks);
    CertifiedDepth(rel, Below(n), ranks, |layers|, i);
  }

  /** Sorting `0..n` by peeling puts each index at its depth. */
  lemma LayerIsDepth(rel: Rel, n: nat, k: nat, i: nat)
    requires StrictOrder(rel) && Within(rel, Below(n)) && k < |Peel(rel, Upto(n))|
    ensures i in Peel(rel, Upto(n))[k] <==> i < n && IsDepth(rel, i, k)
  {
    hide StrictOrder, IsDepth, Upto, RankIn, HasLower, Within, Peel;
    var layers := Peel(rel, Upto(n));
    PeelLayered(rel, Upto(n));
    assert i in layers[k] ==> i in Upto(n) && RankIn(layers, i) == k;
    assert i in Upto(n) <==> i < n;
    if i < n {
      RankIsDepth(rel, n, layers, i);
      InItsLayer(layers, i);
      if IsDepth(rel, i, k) {
        DepthUnique(rel, i, k, RankIn(layers, i));
      }
    }
  }

  /** An entry is in the layer of its rank. */
  lemma {:induction false} InItsLayer(layers: seq<seq<nat>>, x: nat)
    requires RankIn(layers, x) < |layers|
    ensures x in layers[RankIn(layers, x)]
  {
    if x !in layers[0] {
      InItsLayer(layers[1..], x);
    }
  }

  /** What is related to an entry is in an earlier layer. */
  lemma LayersOrdered(rel: Rel, n: nat, i: nat, j: nat, a: nat, b: nat)
    requires StrictOrder(rel) && Within(rel, Below(n)) && (i, j) in rel
    requires a < |Peel(rel, Upto(n))| && i in Peel(rel, Upto(n))[a]
    requires b < |Peel(rel, Upto(n))| && j in Peel(rel, Upto(n))[b]
    ensures a < b
  {
    hide Peel, StrictOrder, Within, Upto, RankIn, HasLower;
    PeelLayered(rel, Upto(n));
  }

  lemma LayeredCertifies(rel: Rel, n: nat, layers: seq<seq<nat>>, ranks: seq<nat>)
    requires Layered(rel, Upto(n), layers) && |ranks| == n
    requires forall x: nat :: x < n ==> ranks[x] == RankIn(layers, x)
    ensures Certified(rel, Below(n), ranks, |layers|)
  {
    hide Upto, RankIn, HasLower;
    BelowFacts(n);
    hide Below;
    forall i | i in Below(n) && ranks[i] > 0 ensures Witnessed(rel, Below(n), ranks, i) {
      LowerWitness(rel, n, layers, ranks, i);
    }
  }

  lemma LowerWitness(rel: Rel, n: nat, layers: seq<seq<nat>>, ranks: seq<nat>, i: nat)
    requires |ranks| == n && i < n && HasLower(rel, Upto(n), layers, i)
    requires forall x: nat :: x < n ==> ranks[x] == RankIn(layers, x)
    ensures Witnessed(rel, Below(n), ranks, i)
  {
    hide RankIn;
    BelowFacts(n);
  }
}
