/** Depth in a dominance relation: the length of the longest chain of dominators. */
module Chains {

  type Rel = set<(nat, nat)>

  /** Each element of the chain is related to the next. */
  ghost predicate IsChain(rel: Rel, c: seq<nat>) {
    c != [] && forall k :: 0 <= k < |c| - 1 ==> (c[k], c[k + 1]) in rel
  }

  ghost predicate ChainTo(rel: Rel, c: seq<nat>, i: nat) {
    IsChain(rel, c) && c[|c| - 1] == i
  }

  /** The longest chain that ends at `i` has `d` steps. */
  ghost predicate IsDepth(rel: Rel, i: nat, d: nat) {
    && (exists c :: ChainTo(rel, c, i) && |c| == d + 1)
    && (forall c :: ChainTo(rel, c, i) ==> |c| <= d + 1)
  }

  /** Some chain that ends at `i` has `d` steps. */
  ghost predicate DepthAtLeast(rel: Rel, i: nat, d: nat) {
    exists c :: ChainTo(rel, c, i) && |c| == d + 1
  }

  lemma DepthUnique(rel: Rel, i: nat, d: nat, e: nat)
    requires IsDepth(rel, i, d) && IsDepth(rel, i, e)
    ensures d == e
  {
  }

  /** Ranks that certify themselves up to `limit`: a related pair has increasing ranks, and every
      positive rank has a witness just below it. */
  ghost predicate Certified(rel: Rel, dom: set<nat>, ranks: seq<nat>, limit: nat) {
    && (forall i :: i in dom ==> i < |ranks| && ranks[i] <= limit)
    && (forall i, j :: i in dom && j in dom && (j, i) in rel && ranks[i] < limit ==> ranks[j] < ranks[i])
    && (forall i :: i in dom && ranks[i] > 0 ==> Witnessed(rel, dom, ranks, i))
  }

  ghost predicate Witnessed(rel: Rel, dom: set<nat>, ranks: seq<nat>, i: nat) {
    i < |ranks| && exists j :: j in dom && j < |ranks| && (j, i) in rel && ranks[j] + 1 == ranks[i]
  }

  ghost predicate Within(rel: Rel, dom: set<nat>) {
    forall i, j :: (i, j) in rel ==> i in dom && j in dom
  }

  lemma {:induction false} RankHasChain(rel: Rel, dom: set<nat>, ranks: seq<nat>, limit: nat, i: nat)
    requires Certified(rel, dom, ranks, limit) && i in dom
    ensures DepthAtLeast(rel, i, ranks[i])
    decreases ranks[i]
  {
    if ranks[i] == 0 {
      assert ChainTo(rel, [i], i);
    } else {
      assert Witnessed(rel, dom, ranks, i);
      var j :| j in dom && j < |ranks| && (j, i) in rel && ranks[j] + 1 == ranks[i];
      RankHasChain(rel, dom, ranks, limit, j);
      var c :| ChainTo(rel, c, j) && |c| == ranks[j] + 1;
      assert ChainTo(rel, c + [i], i);
    }
  }

  lemma {:induction false} RankBoundsChains(rel: Rel, dom: set<nat>, ranks: seq<nat>, limit: nat, i: nat, c: seq<nat>)
    requires Certified(rel, dom, ranks, limit) && Within(rel, dom)
    requires i in dom && ranks[i] < limit && ChainTo(rel, c, i)
    ensures |c| <= ranks[i] + 1
    decreases |c|
  {
    if |c| > 1 {
      var n := |c| - 1;
      assert (c[n - 1], c[n]) in rel;
      assert ChainTo(rel, c[..n], c[n - 1]);
      RankBoundsChains(rel, dom, ranks, limit, c[n - 1], c[..n]);
    }
  }

  /** A certified rank below the limit is the depth; one at the limit is a lower bound. */
  lemma CertifiedDepth(rel: Rel, dom: set<nat>, ranks: seq<nat>, limit: nat, i: nat)
    requires Certified(rel, dom, ranks, limit) && Within(rel, dom) && i in dom
    ensures DepthAtLeast(rel, i, ranks[i])
    ensures ranks[i] < limit ==> IsDepth(rel, i, ranks[i])
  {
    RankHasChain(rel, dom, ranks, limit, i);
    if ranks[i] < limit {
      forall c | ChainTo(rel, c, i) ensures |c| <= ranks[i] + 1 {
        RankBoundsChains(rel, dom, ranks, limit, i, c);
      }
    }
  }

  /** Two certified rankings agree wherever both are below their limits. */
  lemma CertifiedAgree(rel: Rel, dom: set<nat>, ranks: seq<nat>, limit: nat, ranks': seq<nat>, limit': nat, i: nat)
    requires Certified(rel, dom, ranks, limit) && Certified(rel, dom, ranks', limit') && Within(rel, dom) && i in dom
    ensures ranks[i] < limit && ranks'[i] < limit' ==> ranks[i] == ranks'[i]
    ensures ranks[i] < limit && ranks'[i] == limit' ==> limit' <= ranks[i]
  {
    hide Certified, Within;
    CertifiedDepth(rel, dom, ranks, limit, i);
    CertifiedDepth(rel, dom, ranks', limit', i);
    CertifiedBound(rel, dom, ranks, limit, i);
    CertifiedBound(rel, dom, ranks', limit', i);
  }

  lemma CertifiedBound(rel: Rel, dom: set<nat>, ranks: seq<nat>, limit: nat, i: nat)
    requires Certified(rel, dom, ranks, limit) && i in dom
    ensures i < |ranks| && ranks[i] <= limit
  {
  }

  lemma LongChain(rel: Rel, c: seq<nat>, i: nat)
    requires ChainTo(rel, c, i) && |c| > 1
    ensures (c[|c| - 2], i) in rel
  {
  }

  /** Depth zero means that nothing is related to `i`. */
  lemma DepthZero(rel: Rel, i: nat)
    ensures IsDepth(rel, i, 0) <==> forall j: nat :: (j, i) !in rel
  {
    assert ChainTo(rel, [i], i);
    if forall j: nat :: (j, i) !in rel {
      forall c | ChainTo(rel, c, i) ensures |c| <= 1 {
        if |c| > 1 {
          LongChain(rel, c, i);
        }
      }
    }
    forall j: nat | (j, i) in rel ensures !IsDepth(rel, i, 0) {
      assert ChainTo(rel, [j, i], i);
    }
  }
}
