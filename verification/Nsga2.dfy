/** NSGA-II's non-dominated sort by counting dominators (`nsgaii.rs`). */
module Nsga2 {
  import opened FiniteSets
  import opened Coords
  import opened Orders
  import opened NanRows
  import opened Chains
  import opened Nds
  import opened ParetoFront
  import opened Layers

  /** What the sort sees of a trial: nothing, or its objective values and constraint values. */
  datatype Individual = Unfinished | Evaluated(values: Point, constraints: seq<real>)

  predicate Feasible(constraints: seq<real>) {
    forall k :: 0 <= k < |constraints| ==> constraints[k] <= 0.0
  }

  /** The sum of the positive constraint values. */
  function Violation(constraints: seq<real>): real {
    if constraints == [] then 0.0
    else
      var n := |constraints| - 1;
      Violation(constraints[..n]) + if constraints[n] > 0.0 then constraints[n] else 0.0
  }

  /** `validate_trials` accepts: complete trials have one value per direction, and no NaN. */
  predicate Comparable(pop: seq<Individual>, directions: seq<Direction>) {
    forall i :: 0 <= i < |pop| && pop[i].Evaluated? ==> |pop[i].values| == |directions| && !HasNan(pop[i].values)
  }

  predicate WellFormed(x: Individual, directions: seq<Direction>) {
    x.Evaluated? ==> |x.values| == |directions| && !HasNan(x.values)
  }

  /** `constrained_dominates` */
  predicate ConstrainedDominates(x: Individual, y: Individual, directions: seq<Direction>)
    requires WellFormed(x, directions) && WellFormed(y, directions)
  {
    if x.Unfinished? then false
    else if y.Unfinished? then true
    else if Feasible(x.constraints) && Feasible(y.constraints) then
      StrictDom(Loss(x.values, directions), Loss(y.values, directions))
    else if Feasible(x.constraints) then true
    else if Feasible(y.constraints) then false
    else Violation(x.constraints) < Violation(y.constraints)
  }

  /** Constrained dominance is a strict partial order. */
  lemma ConstrainedStrict(x: Individual, y: Individual, z: Individual, directions: seq<Direction>)
    requires WellFormed(x, directions) && WellFormed(y, directions) && WellFormed(z, directions)
    ensures !ConstrainedDominates(x, x, directions)
    ensures ConstrainedDominates(x, y, directions) && ConstrainedDominates(y, z, directions) ==>
      ConstrainedDominates(x, z, directions)
  {
  }

  /** How far a value is above its bound of zero. */
  function Excess(x: real): real {
    if x > 0.0 then x else 0.0
  }

  /** The violation is zero exactly on feasible lists, additive, and the excess of a single constraint. */
  lemma {:induction false} ViolationFacts(a: seq<real>, b: seq<real>, x: real)
    ensures Violation(a) >= 0.0 && (Violation(a) == 0.0 <==> Feasible(a))
    ensures Violation(a + b) == Violation(a) + Violation(b)
    ensures Violation([x]) == Excess(x)
    decreases |a| + |b|
  {
    assert Violation([x]) == Violation([]) + Excess(x);
    if a != [] {
      var n := |a| - 1;
      ViolationFacts(a[..n], [], x);
      assert Feasible(a) <==> Feasible(a[..n]) && a[n] <= 0.0 by {
        assert a == a[..n] + [a[n]];
      }
    }
    if b == [] {
      assert a + b == a;
    } else {
      var n := |b| - 1;
      ViolationFacts(a, b[..n], x);
      assert (a + b)[..|a| + n] == a + b[..n];
    }
  }

  /** No constraint of `a` is exceeded by more than that of `b`, and one is exceeded by less. */
  ghost predicate LessExceeding(a: seq<real>, b: seq<real>) {
    && |a| == |b|
    && (forall k :: 0 <= k < |a| ==> Excess(a[k]) <= Excess(b[k]))
    && (exists k :: 0 <= k < |a| && Excess(a[k]) < Excess(b[k]))
  }

  lemma {:induction false} ExcessesAddUp(a: seq<real>, b: seq<real>)
    requires |a| == |b| && forall k :: 0 <= k < |a| ==> Excess(a[k]) <= Excess(b[k])
    ensures Violation(a) <= Violation(b)
    ensures (exists k :: 0 <= k < |a| && Excess(a[k]) < Excess(b[k])) ==> Violation(a) < Violation(b)
  {
    if a != [] {
      var n := |a| - 1;
      ExcessesAddUp(a[..n], b[..n]);
      LastExcess(a);
      LastExcess(b);
    }
  }

  lemma LastExcess(a: seq<real>)
    requires a != []
    ensures Violation(a) == Violation(a[..|a| - 1]) + Excess(a[|a| - 1])
  {
    assert a == a[..|a| - 1] + [a[|a| - 1]];
    ViolationFacts(a[..|a| - 1], [a[|a| - 1]], a[|a| - 1]);
  }

  /** At least as good in every objective, and better in one, under the directions. */
  ghost predicate BetterValues(v: Point, w: Point, directions: seq<Direction>) {
    && |v| == |w| == |directions|
    && (forall k :: 0 <= k < |v| ==> if directions[k] == Minimize then v[k] <= w[k] else v[k] >= w[k])
    && v != w
  }

  /** What constrained dominance prefers: complete trials, then feasible ones, then better values, and
      among infeasible trials those that exceed their constraints by less. */
  lemma PreferredDominates(x: Individual, y: Individual, directions: seq<Direction>)
    requires WellFormed(x, directions) && WellFormed(y, directions)
    ensures x.Evaluated? && y.Unfinished? ==> ConstrainedDominates(x, y, directions)
    ensures x.Evaluated? && y.Evaluated? && Feasible(x.constraints) && !Feasible(y.constraints) ==>
      ConstrainedDominates(x, y, directions)
    ensures x.Evaluated? && y.Evaluated? && Feasible(x.constraints) && Feasible(y.constraints) ==>
      (ConstrainedDominates(x, y, directions) <==> BetterValues(x.values, y.values, directions))
    ensures x.Evaluated? && y.Evaluated? && !Feasible(x.constraints) && !Feasible(y.constraints) ==>
      && (ConstrainedDominates(x, y, directions) <==> Violation(x.constraints) < Violation(y.constraints))
      && (LessExceeding(x.constraints, y.constraints) ==> ConstrainedDominates(x, y, directions))
    ensures x.Unfinished? ==> !ConstrainedDominates(x, y, directions)
  {
    hide Feasible, Violation, HasNan, LessExceeding, Loss;
    if x.Evaluated? && y.Evaluated? {
      if LessExceeding(x.constraints, y.constraints) {
        LessViolation(x.constraints, y.constraints);
      }
      BetterIsDominance(x.values, y.values, directions);
    }
  }

  lemma LessViolation(a: seq<real>, b: seq<real>)
    requires LessExceeding(a, b)
    ensures Violation(a) < Violation(b)
  {
    ExcessesAddUp(a, b);
  }

  lemma BetterIsDominance(v: Point, w: Point, directions: seq<Direction>)
    requires |v| == |w| == |directions| && !HasNan(v) && !HasNan(w)
    ensures StrictDom(Loss(v, directions), Loss(w, directions)) <==> BetterValues(v, w, directions)
  {
    hide HasNan, Loss;
    forall k | 0 <= k < |v|
      ensures v[k] == w[k] <==> Loss(v, directions)[k] == Loss(w, directions)[k]
      ensures (if directions[k] == Minimize then v[k] <= w[k] else v[k] >= w[k])
        <==> Loss(v, directions)[k] <= Loss(w, directions)[k]
    {
      LossDecides(v, w, directions, k);
    }
    if v != w {
      var k :| 0 <= k < |v| && v[k] != w[k];
      assert Loss(v, directions)[k] != Loss(w, directions)[k];
    }
  }

  /** Constrained dominance between positions of a population. */
  ghost function PopRel(pop: seq<Individual>, directions: seq<Direction>): Rel
    requires Comparable(pop, directions)
  {
    set j: nat, i: nat | j < |pop| && i < |pop| && ConstrainedDominates(pop[j], pop[i], directions) :: (j, i)
  }

  lemma PopRelStrict(pop: seq<Individual>, directions: seq<Direction>)
    requires Comparable(pop, directions)
    ensures StrictOrder(PopRel(pop, directions)) && Within(PopRel(pop, directions), Below(|pop|))
  {
    hide ConstrainedDominates, HasNan;
    var rel := PopRel(pop, directions);
    BelowFacts(|pop|);
    forall x: nat ensures (x, x) !in rel {
      if x < |pop| {
        ConstrainedStrict(pop[x], pop[x], pop[x], directions);
      }
    }
    forall x: nat, y: nat, z: nat | (x, y) in rel && (y, z) in rel ensures (x, z) in rel {
      ConstrainedStrict(pop[x], pop[y], pop[z], directions);
    }
  }

  /** The count of recorded dominators and the list of recorded dominated positions, per position. */
  ghost predicate Recorded(done: Rel, n: nat, counts: seq<nat>, lists: seq<seq<nat>>) {
    && |counts| == |lists| == n
    && (forall b: nat :: b < n ==> counts[b] == |Dominators(done, Below(n), b)|)
    && ListsFor(done, n, lists)
  }

  ghost predicate ListsFor(done: Rel, n: nat, lists: seq<seq<nat>>) {
    |lists| == n && forall a: nat :: a < n ==> Distinct(lists[a]) && ListsAll(done, a, lists[a])
  }

  ghost predicate ListsAll(done: Rel, a: nat, dominated: seq<nat>) {
    forall b: nat :: b in dominated <==> (a, b) in done
  }

  lemma Record(done: Rel, n: nat, counts: seq<nat>, lists: seq<seq<nat>>, a: nat, b: nat)
    requires Recorded(done, n, counts, lists) && a < n && b < n && (a, b) !in done
    ensures Recorded(done + {(a, b)}, n, counts[b := counts[b] + 1], lists[a := lists[a] + [b]])
  {
    BelowFacts(n);
    var (more, lists') := (done + {(a, b)}, lists[a := lists[a] + [b]]);
    forall c: nat | c < n ensures counts[b := counts[b] + 1][c] == |Dominators(more, Below(n), c)| {
      if c == b {
        assert Dominators(more, Below(n), b) == Dominators(done, Below(n), b) + {a};
      } else {
        assert Dominators(more, Below(n), c) == Dominators(done, Below(n), c);
      }
    }
    forall c: nat | c < n ensures Distinct(lists'[c]) && ListsAll(more, c, lists'[c]) {
      assert ListsAll(done, c, lists[c]);
    }
  }

  /** The pair of positions has been compared before `(i, j)` in row order. */
  predicate Compared(a: nat, b: nat, i: nat, j: nat) {
    var (lo, hi) := (if a < b then a else b, if a < b then b else a);
    lo < i || (lo == i && hi < j)
  }

  /** The pairwise comparison loop. */
  method CountDominance(pop: seq<Individual>, directions: seq<Direction>)
    returns (counts: seq<nat>, lists: seq<seq<nat>>)
    requires Comparable(pop, directions)
    ensures Recorded(PopRel(pop, directions), |pop|, counts, lists)
  {
    hide ConstrainedDominates, HasNan, Recorded, ComparedSoFar, PopRel, StrictOrder, Within;
    var n := |pop|;
    ghost var rel := PopRel(pop, directions);
    PopRelStrict(pop, directions);
    counts, lists := seq(n, _ => 0), seq(n, _ => []);
    ghost var done: Rel := {};
    NothingRecorded(n, counts, lists);
    NothingCompared(rel);
    for i := 0 to n
      invariant Recorded(done, n, counts, lists) && |counts| == |lists| == n && ComparedSoFar(done, rel, i, i + 1)
    {
      for j := i + 1 to n
        invariant Recorded(done, n, counts, lists) && |counts| == |lists| == n && ComparedSoFar(done, rel, i, j)
      {
        InPopRel(pop, directions, i, j);
        InPopRel(pop, directions, j, i);
        ComparedNext(done, rel, i, j);
        if ConstrainedDominates(pop[i], pop[j], directions) {
          Record(done, n, counts, lists, i, j);
          done := done + {(i, j)};
          lists := lists[i := lists[i] + [j]];
          counts := counts[j := counts[j] + 1];
        } else if ConstrainedDominates(pop[j], pop[i], directions) {
          Record(done, n, counts, lists, j, i);
          done := done + {(j, i)};
          lists := lists[j := lists[j] + [i]];
          counts := counts[i := counts[i] + 1];
        }
      }
      ComparedRow(done, rel, n, i);
    }
    ComparedAll(done, rel, n);
  }

  lemma InPopRel(pop: seq<Individual>, directions: seq<Direction>, j: nat, i: nat)
    requires Comparable(pop, directions) && j < |pop| && i < |pop|
    ensures (j, i) in PopRel(pop, directions) <==> ConstrainedDominates(pop[j], pop[i], directions)
  {
  }

  /** The related pairs among those compared before `(i, j)` are recorded. */
  ghost predicate ComparedSoFar(done: Rel, rel: Rel, i: nat, j: nat) {
    forall a: nat, b: nat :: (a, b) in done <==> (a, b) in rel && Compared(a, b, i, j)
  }

  lemma NothingCompared(rel: Rel)
    requires StrictOrder(rel)
    ensures ComparedSoFar({}, rel, 0, 1)
  {
  }

  lemma ComparedNext(done: Rel, rel: Rel, i: nat, j: nat)
    requires StrictOrder(rel) && i < j && ComparedSoFar(done, rel, i, j)
    ensures (i, j) !in done && (j, i) !in done
    ensures (i, j) in rel ==> ComparedSoFar(done + {(i, j)}, rel, i, j + 1)
    ensures (i, j) !in rel && (j, i) in rel ==> ComparedSoFar(done + {(j, i)}, rel, i, j + 1)
    ensures (i, j) !in rel && (j, i) !in rel ==> ComparedSoFar(done, rel, i, j + 1)
  {
  }

  lemma ComparedRow(done: Rel, rel: Rel, n: nat, i: nat)
    requires StrictOrder(rel) && Within(rel, Below(n)) && i < n
      && ComparedSoFar(done, rel, i, if i + 1 < n then n else i + 1)
    ensures ComparedSoFar(done, rel, i + 1, i + 2)
  {
    BelowFacts(n);
    forall a: nat, b: nat ensures (a, b) in done <==> (a, b) in rel && Compared(a, b, i + 1, i + 2) {
      if (a, b) in rel {
        assert a < n && b < n && a != b;
      }
    }
  }

  lemma ComparedAll(done: Rel, rel: Rel, n: nat)
    requires Within(rel, Below(n)) && ComparedSoFar(done, rel, n, n + 1)
    ensures done == rel
  {
    BelowFacts(n);
    SameRel(done, rel);
  }

  lemma SameRel(a: Rel, b: Rel)
    requires forall x: nat, y: nat :: (x, y) in a <==> (x, y) in b
    ensures a == b
  {
    forall p | p in a ensures p in b {
      assert (p.0, p.1) in a;
    }
    forall p | p in b ensures p in a {
      assert (p.0, p.1) in b;
    }
  }

  lemma NothingRecorded(n: nat, counts: seq<nat>, lists: seq<seq<nat>>)
    requires |counts| == |lists| == n && (forall b: nat :: b < n ==> counts[b] == 0) && forall a: nat ::
      a < n ==> lists[a] == []
    ensures Recorded({}, n, counts, lists)
  {
  }

  /** Each count is the number of dominators among those not yet placed in a layer. */
  ghost predicate CountsFor(rel: Rel, n: nat, left: set<nat>, counts: seq<nat>) {
    |counts| == n && forall b: nat :: b < n ==> counts[b] == |Dominators(rel, left, b)|
  }

  lemma ZeroIsFree(rel: Rel, n: nat, left: set<nat>, counts: seq<nat>, x: nat)
    requires CountsFor(rel, n, left, counts) && x < n
    ensures counts[x] == 0 <==> Free(rel, left, x)
  {
    var doms := Dominators(rel, left, x);
    if doms == {} {
      forall y: nat | y in left ensures (y, x) !in rel {
        assert y !in doms;
      }
    } else {
      var y :| y in doms;
    }
  }

  /** Taking one placed position out of the counts of all it dominates; no count was zero. */
  method Release(ghost rel: Rel, n: nat, ghost left: set<nat>, counts: seq<nat>, x: nat, dominated: seq<nat>)
    returns (counts': seq<nat>)
    requires CountsFor(rel, n, left, counts) && x in left && Within(rel, Below(n))
    requires Distinct(dominated) && ListsAll(rel, x, dominated)
    ensures CountsFor(rel, n, left - {x}, counts')
  {
    BelowFacts(n);
    counts' := counts;
    for k := 0 to |dominated|
      invariant |counts'| == n
      invariant forall b: nat ::
        b < n ==> counts'[b] == |Dominators(rel, if b in dominated[..k] then left - {x} else left, b)|
    {
      var y := dominated[k];
      assert y in dominated && (x, y) in rel;
      assert y !in dominated[..k];
      assert Dominators(rel, left, y) == Dominators(rel, left - {x}, y) + {x};
      assert dominated[..k + 1] == dominated[..k] + [y];
      counts' := counts'[y := counts'[y] - 1];
    }
    assert dominated[..|dominated|] == dominated;
    forall b: nat | b < n ensures counts'[b] == |Dominators(rel, left - {x}, b)| {
      if b !in dominated {
        assert (x, b) !in rel;
        assert Dominators(rel, left, b) == Dominators(rel, left - {x}, b);
      }
    }
  }

  method ReleaseAll(ghost rel: Rel, n: nat, ghost left: set<nat>, counts: seq<nat>, front: seq<nat>,
                    lists: seq<seq<nat>>) returns (counts': seq<nat>)
    requires CountsFor(rel, n, left, counts) && Within(rel, Below(n)) && ListsFor(rel, n, lists)
    requires Distinct(front) && InRange(front, n) && forall x :: x in front ==> x in left
    ensures CountsFor(rel, n, left - Elements(front), counts')
  {
    hide CountsFor, Within, ListsAll;
    counts' := counts;
    assert left - Elements([]) == left;
    for k := 0 to |front|
      invariant CountsFor(rel, n, left - Elements(front[..k]), counts')
    {
      var x := front[k];
      assert x in front && x !in front[..k];
      assert front[..k + 1] == front[..k] + [x];
      assert left - Elements(front[..k + 1]) == left - Elements(front[..k]) - {x};
      counts' := Release(rel, n, left - Elements(front[..k]), counts', x, lists[x]);
    }
    assert front[..|front|] == front;
  }

  /** One scan of the positions left: those with count zero are moved to the front, in place. */
  method TakeFront(ghost rel: Rel, n: nat, counts: seq<nat>, remaining: seq<nat>)
    returns (front: seq<nat>, rest: seq<nat>)
    requires InRange(remaining, n) && CountsFor(rel, n, Elements(remaining), counts) && |counts| == n
    ensures front == Scan(rel, Elements(remaining), remaining, 0).0
      && rest == Scan(rel, Elements(remaining), remaining, 0).1
  {
    hide CountsFor, Free, Scan, Elements, SwapRemove;
    ghost var left := Elements(remaining);
    rest, front := remaining, [];
    var i := 0;
    while i < |rest|
      invariant i <= |rest| && InRange(rest, n) && |counts| == n
      invariant Scan(rel, left, remaining, 0).0 == front + Scan(rel, left, rest, i).0
      invariant Scan(rel, left, remaining, 0).1 == Scan(rel, left, rest, i).1
      decreases |rest| - i
    {
      var idx := rest[i];
      ZeroIsFree(rel, n, left, counts, idx);
      if counts[idx] == 0 {
        ScanTakes(rel, left, rest, i, front, n);
        rest := SwapRemove(rest, i);
        front := front + [idx];
      } else {
        ScanPasses(rel, left, rest, i);
        i := i + 1;
      }
    }
    ScanEnds(rel, left, rest, i);
  }

  lemma ScanTakes(rel: Rel, left: set<nat>, rest: seq<nat>, i: nat, front: seq<nat>, n: nat)
    requires i < |rest| && Free(rel, left, rest[i]) && InRange(rest, n)
    ensures front + Scan(rel, left, rest, i).0 == (front + [rest[i]]) + Scan(rel, left, SwapRemove(rest, i), i).0
    ensures Scan(rel, left, rest, i).1 == Scan(rel, left, SwapRemove(rest, i), i).1
    ensures InRange(SwapRemove(rest, i), n)
  {
    SwapRemoveInRange(rest, i, n);
    hide Free, InRange, SwapRemove;
    var more := Scan(rel, left, SwapRemove(rest, i), i).0;
    assert Scan(rel, left, rest, i).0 == [rest[i]] + more;
    Associate(front, rest[i], more);
  }

  lemma SwapRemoveInRange(rest: seq<nat>, i: nat, n: nat)
    requires i < |rest| && InRange(rest, n)
    ensures InRange(SwapRemove(rest, i), n)
  {
  }

  lemma ScanPasses(rel: Rel, left: set<nat>, rest: seq<nat>, i: nat)
    requires i < |rest| && !Free(rel, left, rest[i])
    ensures Scan(rel, left, rest, i) == Scan(rel, left, rest, i + 1)
  {
  }

  lemma ScanEnds(rel: Rel, left: set<nat>, rest: seq<nat>, i: nat)
    requires i == |rest|
    ensures Scan(rel, left, rest, i) == ([], rest)
  {
  }

  /** `fast_non_dominated_sort` on positions: the layers of the dominance relation. */
  method SortPositions(pop: seq<Individual>, directions: seq<Direction>) returns (layers: seq<seq<nat>>)
    requires Comparable(pop, directions)
    ensures layers == Peel(PopRel(pop, directions), Upto(|pop|))
  {
    assert Peel(PopRel(pop, directions), []) == [];
    hide PopRel, CountsFor, Comparable, Within, StrictOrder, Upto, ListsFor, Free, Peel, InRange, Distinct,
      Elements, Below;
    var n := |pop|;
    ghost var rel := PopRel(pop, directions);
    PopRelStrict(pop, directions);
    var counts, lists := CountDominance(pop, directions);
    var remaining := Upto(n);
    CountsAtFirst(rel, n, counts);
    layers := [];
    while remaining != []
      invariant InRange(remaining, n) && Distinct(remaining) && |counts| == n
      invariant CountsFor(rel, n, Elements(remaining), counts)
      invariant Peel(rel, Upto(n)) == layers + Peel(rel, remaining)
      decreases |remaining|
    {
      var front, rest;
      front, rest, counts := PeelOne(rel, n, counts, lists, remaining);
      Associate(layers, front, Peel(rel, rest));
      layers := layers + [front];
      remaining := rest;
    }
    assert layers + [] == layers;
  }

  lemma Associate<T>(xs: seq<T>, x: T, more: seq<T>)
    ensures xs + ([x] + more) == (xs + [x]) + more
  {
  }

  /** One round: the front of what is left, and the counts without it. */
  method PeelOne(ghost rel: Rel, n: nat, counts: seq<nat>, lists: seq<seq<nat>>, remaining: seq<nat>)
    returns (front: seq<nat>, rest: seq<nat>, counts': seq<nat>)
    requires StrictOrder(rel) && Within(rel, Below(n)) && ListsFor(rel, n, lists)
    requires InRange(remaining, n) && Distinct(remaining) && remaining != []
    requires CountsFor(rel, n, Elements(remaining), counts) && |counts| == n
    ensures InRange(rest, n) && Distinct(rest) && |counts'| == n && |rest| < |remaining|
    ensures CountsFor(rel, n, Elements(rest), counts')
    ensures Peel(rel, remaining) == [front] + Peel(rel, rest)
  {
    hide CountsFor, Within, StrictOrder, ListsFor, Free, Scan;
    front, rest := TakeFront(rel, n, counts, remaining);
    ScanProgress(rel, remaining);
    SplitFront(rel, remaining, front, rest);
    assert InRange(front, n) by {
      forall i | 0 <= i < |front| ensures front[i] < n {
        assert front[i] in remaining;
      }
    }
    assert InRange(rest, n) by {
      forall i | 0 <= i < |rest| ensures rest[i] < n {
        assert rest[i] in remaining;
      }
    }
    counts' := ReleaseAll(rel, n, Elements(remaining), counts, front, lists);
    CountsLength(rel, n, Elements(rest), counts');
  }

  lemma CountsAtFirst(rel: Rel, n: nat, counts: seq<nat>)
    requires |counts| == n && forall b: nat :: b < n ==> counts[b] == |Dominators(rel, Below(n), b)|
    ensures CountsFor(rel, n, Elements(Upto(n)), counts)
    ensures Distinct(Upto(n)) && InRange(Upto(n), n)
  {
    BelowFacts(n);
    assert Elements(Upto(n)) == Below(n);
  }

  lemma CountsLength(rel: Rel, n: nat, left: set<nat>, counts: seq<nat>)
    requires CountsFor(rel, n, left, counts)
    ensures |counts| == n
  {
  }

  /** The two parts of a scan are disjoint and keep the entries distinct. */
  lemma SplitFront(rel: Rel, xs: seq<nat>, front: seq<nat>, rest: seq<nat>)
    requires front == Scan(rel, Elements(xs), xs, 0).0 && rest == Scan(rel, Elements(xs), xs, 0).1 && Distinct(xs)
    ensures Elements(rest) == Elements(xs) - Elements(front)
    ensures forall x :: x in front || x in rest ==> x in xs
    ensures Distinct(front) && Distinct(rest)
  {
    hide Free, Scan;
    ScanFacts(rel, Elements(xs), xs, 0);
    assert multiset(front + rest) == multiset(xs);
    PermutationFacts(front + rest, xs);
    assert forall i :: 0 <= i < |front| ==> (front + rest)[i] == front[i];
    assert forall i :: 0 <= i < |rest| ==> (front + rest)[|front| + i] == rest[i];
    forall i, j | 0 <= i < j < |rest| ensures rest[i] != rest[j] {
      assert (front + rest)[|front| + i] != (front + rest)[|front| + j];
    }
    forall i, j | 0 <= i < j < |front| ensures front[i] != front[j] {
      assert (front + rest)[i] != (front + rest)[j];
    }
  }

  /** The layers hold every position once, each at its depth under constrained dominance. */
  lemma SortIsDepth(pop: seq<Individual>, directions: seq<Direction>, k: nat, i: nat)
    requires Comparable(pop, directions) && k < |Peel(PopRel(pop, directions), Upto(|pop|))|
    ensures i in Peel(PopRel(pop, directions), Upto(|pop|))[k] <==> i < |pop| && IsDepth(PopRel(pop, directions), i, k)
    ensures multiset(Flatten(Peel(PopRel(pop, directions), Upto(|pop|)))) == multiset(Upto(|pop|))
  {
    hide PopRel, Peel, IsDepth, StrictOrder, Within;
    PopRelStrict(pop, directions);
    LayerIsDepth(PopRel(pop, directions), |pop|, k, i);
    PeelPartitions(PopRel(pop, directions), Upto(|pop|));
  }

  /** Position `i` is preferred to position `j` for one of the reasons above. */
  ghost predicate Preferred(x: Individual, y: Individual, directions: seq<Direction>) {
    && x.Evaluated?
    && (y.Evaluated? ==>
          if Feasible(x.constraints) then !Feasible(y.constraints) || BetterValues(x.values, y.values, directions)
          else !Feasible(y.constraints) && LessExceeding(x.constraints, y.constraints))
  }

  /** The layers of the sort: complete trials come before unfinished ones, feasible before infeasible,
      better values before worse, and smaller excesses before larger. */
  lemma PreferredEarlier(pop: seq<Individual>, directions: seq<Direction>, i: nat, j: nat, a: nat, b: nat)
    requires Comparable(pop, directions) && i < |pop| && j < |pop| && Preferred(pop[i], pop[j], directions)
    requires var layers := Peel(PopRel(pop, directions), Upto(|pop|));
      a < |layers| && b < |layers| && i in layers[a] && j in layers[b]
    ensures a < b
  {
    hide Peel, StrictOrder, Within, ConstrainedDominates, Feasible, LessExceeding, BetterValues, HasNan;
    PreferredDominates(pop[i], pop[j], directions);
    assert (i, j) in PopRel(pop, directions);
    PopRelStrict(pop, directions);
    LayersOrdered(PopRel(pop, directions), |pop|, i, j, a, b);
  }

  /** On a population of feasible complete trials, both sorts rank alike. */
  lemma FeasibleAgrees(pop: seq<Individual>, directions: seq<Direction>, rows: seq<Point>, nBelow: nat,
                       ranks: seq<nat>, limit: nat, i: nat)
    requires Comparable(pop, directions) && |rows| == |pop| && i < |pop|
    requires forall j :: 0 <= j < |pop| ==>
      pop[j].Evaluated? && Floats(pop[j].values) && Feasible(pop[j].constraints)
        && rows[j] == Loss(pop[j].values, directions)
    requires Ranked(rows, nBelow, ranks, limit) && ranks[i] < limit
    ensures ranks[i] < |Peel(PopRel(pop, directions), Upto(|pop|))|
      && i in Peel(PopRel(pop, directions), Upto(|pop|))[ranks[i]]
  {
    hide IsDepth, Peel, Certified, StrictOrder, Upto, Within, RankIn, Layered;
    var rel := PopRel(pop, directions);
    FeasibleRel(pop, directions, rows);
    assert NoNan(rows);
    Nds.RankIsDepth(rows, nBelow, ranks, limit, i);
    PopRelStrict(pop, directions);
    PeelLayered(rel, Upto(|pop|));
    var layers := Peel(rel, Upto(|pop|));
    Layers.RankIsDepth(rel, |pop|, layers, i);
    DepthUnique(rel, i, ranks[i], RankIn(layers, i));
    InItsLayer(layers, i);
  }

  lemma FeasibleRel(pop: seq<Individual>, directions: seq<Direction>, rows: seq<Point>)
    requires Comparable(pop, directions) && |rows| == |pop|
    requires forall j :: 0 <= j < |pop| ==>
      pop[j].Evaluated? && Floats(pop[j].values) && Feasible(pop[j].constraints)
        && rows[j] == Loss(pop[j].values, directions)
    ensures PopRel(pop, directions) == DomRel(rows) && NoNan(rows)
  {
  }
}
