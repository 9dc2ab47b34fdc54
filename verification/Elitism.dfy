/** NSGA-II's elite selection and the parents of every generation (`nsgaii.rs`). */
module Elitism {
  import opened FiniteSets
  import opened Options
  import opened Orders
  import opened Chains
  import opened ParetoFront
  import opened Layers
  import opened Nsga2

  /** The study's trials by number, its directions, and the population size; `unreadable` numbers the
      trials with a stored constraint that is not a number. */
  datatype Search = Search(trials: seq<Option<Individual>>, directions: seq<Direction>, size: nat, unreadable: set<nat>)

  /** Every number names a trial that is not discarded, the trials validate, and the constraints of
      the complete ones can be read. */
  predicate Sortable(search: Search, numbers: seq<nat>) {
    forall k :: 0 <= k < |numbers| ==>
      && numbers[k] < |search.trials| && search.trials[numbers[k]].Some?
      && WellFormed(search.trials[numbers[k]].value, search.directions)
      && (search.trials[numbers[k]].value.Evaluated? ==> numbers[k] !in search.unreadable)
  }

  function PopOf(search: Search, numbers: seq<nat>): (pop: seq<Individual>)
    requires Sortable(search, numbers)
    ensures |pop| == |numbers| && Comparable(pop, search.directions)
    ensures forall k :: 0 <= k < |numbers| ==> pop[k] == search.trials[numbers[k]].value
  {
    seq(|numbers|, k requires 0 <= k < |numbers| => search.trials[numbers[k]].value)
  }

  ghost function LayersOf(search: Search, numbers: seq<nat>): (layers: seq<seq<nat>>)
    requires Sortable(search, numbers)
  {
    Peel(PopRel(PopOf(search, numbers), search.directions), Upto(|numbers|))
  }

  lemma LayersInRange(search: Search, numbers: seq<nat>)
    requires Sortable(search, numbers)
    ensures forall k :: 0 <= k < |LayersOf(search, numbers)| ==> InRange(LayersOf(search, numbers)[k], |numbers|)
  {
    hide PopRel, Peel, StrictOrder, Within, Upto, RankIn, HasLower;
    var rel, layers := PopRel(PopOf(search, numbers), search.directions), LayersOf(search, numbers);
    PopRelStrict(PopOf(search, numbers), search.directions);
    PeelLayered(rel, Upto(|numbers|));
    forall k | 0 <= k < |layers| ensures InRange(layers[k], |numbers|) {
      forall i | 0 <= i < |layers[k]| ensures layers[k][i] < |numbers| {
        assert layers[k][i] in layers[k];
        assert layers[k][i] in Upto(|numbers|);
      }
    }
  }

  /** The ranks as lists of trial numbers. */
  ghost function RanksOf(search: Search, numbers: seq<nat>): (ranks: seq<seq<nat>>)
    requires Sortable(search, numbers)
    ensures |ranks| == |LayersOf(search, numbers)|
  {
    LayersInRange(search, numbers);
    Lookups(numbers, LayersOf(search, numbers))
  }

  function Lookups(numbers: seq<nat>, layers: seq<seq<nat>>): (ranks: seq<seq<nat>>)
    requires forall k :: 0 <= k < |layers| ==> InRange(layers[k], |numbers|)
    ensures |ranks| == |layers| && forall k :: 0 <= k < |layers| ==> ranks[k] == Lookup(numbers, layers[k])
  {
    seq(|layers|, k requires 0 <= k < |layers| => Lookup(numbers, layers[k]))
  }

  /** `fast_non_dominated_sort` on trial numbers; an error for a discarded trial,
      invalid values or an unreadable constraint. */
  method FastNonDominatedSort(search: Search, numbers: seq<nat>) returns (ranks: Option<seq<seq<nat>>>)
    ensures ranks.Some? <==> Sortable(search, numbers)
    ensures ranks.Some? ==> ranks.value == RanksOf(search, numbers)
  {
    hide PopRel, Peel, WellFormed;
    if !Sortable(search, numbers) {
      return None;
    }
    var layers := SortPositions(PopOf(search, numbers), search.directions);
    LayersInRange(search, numbers);
    assert layers == LayersOf(search, numbers);
    ranks := Some(Lookups(numbers, layers));
  }

  /** `crowding_distance_sort` is some deterministic reordering. */
  ghost predicate Reorders(crowd: seq<nat> -> seq<nat>) {
    forall xs: seq<nat> :: |crowd(xs)| == |xs| && multiset(crowd(xs)) == multiset(xs)
  }

  /** The elite: whole ranks while they fit, then the first of the reordered next rank. */
  ghost function Elite(ranks: seq<seq<nat>>, room: nat, crowd: seq<nat> -> seq<nat>): (elite: seq<nat>)
    requires Reorders(crowd)
  {
    if ranks == [] then []
    else if |ranks[0]| <= room then ranks[0] + Elite(ranks[1..], room - |ranks[0]|, crowd)
    else crowd(ranks[0])[..room]
  }

  /** The elite is the first ranks as long as they fit, and then the front of the reordered next one. */
  lemma {:induction false} EliteShape(ranks: seq<seq<nat>>, room: nat, crowd: seq<nat> -> seq<nat>) returns (k: nat)
    requires Reorders(crowd)
    ensures k <= |ranks| && |Flatten(ranks[..k])| <= room
    ensures k < |ranks| ==> |Flatten(ranks[..k])| + |ranks[k]| > room
    ensures Elite(ranks, room, crowd)
      == Flatten(ranks[..k]) + if k < |ranks| then crowd(ranks[k])[..room - |Flatten(ranks[..k])|] else []
  {
    hide Reorders;
    k := 0;
    if ranks != [] && |ranks[0]| <= room {
      var rest, left := ranks[1..], room - |ranks[0]|;
      var j := EliteShape(rest, left, crowd);
      k := j + 1;
      assert Elite(ranks, room, crowd) == ranks[0] + Elite(rest, left, crowd);
      FlattenMore(ranks, j);
      hide Elite, Flatten;
      assert k < |ranks| ==> ranks[k] == rest[j];
    }
  }

  lemma FlattenMore(ranks: seq<seq<nat>>, j: nat)
    requires ranks != [] && j < |ranks|
    ensures Flatten(ranks[..j + 1]) == ranks[0] + Flatten(ranks[1..][..j])
  {
    assert ranks[..j + 1][1..] == ranks[1..][..j];
  }

  ghost function EliteOf(search: Search, numbers: seq<nat>, crowd: seq<nat> -> seq<nat>): (elite: Option<seq<nat>>)
    requires Reorders(crowd)
  {
    if Sortable(search, numbers) then Some(Elite(RanksOf(search, numbers), search.size, crowd)) else None
  }

  /** `select_elite_population_numbers` */
  method SelectElite(search: Search, numbers: seq<nat>, crowd: seq<nat> -> seq<nat>) returns (elite: Option<seq<nat>>)
    requires Reorders(crowd)
    ensures elite == EliteOf(search, numbers, crowd)
  {
    hide RanksOf, Sortable, Elite, Reorders;
    var sorted := FastNonDominatedSort(search, numbers);
    if sorted.None? {
      return None;
    }
    var out := TakeElite(sorted.value, search.size, crowd);
    elite := Some(out);
  }

  method TakeElite(ranks: seq<seq<nat>>, size: nat, crowd: seq<nat> -> seq<nat>) returns (out: seq<nat>)
    requires Reorders(crowd)
    ensures out == Elite(ranks, size, crowd)
  {
    hide Elite, Reorders;
    out := [];
    assert ranks[0..] == ranks;
    for k := 0 to |ranks|
      invariant |out| <= size
      invariant Elite(ranks, size, crowd) == out + Elite(ranks[k..], size - |out|, crowd)
    {
      EliteStep(ranks, k, size - |out|, crowd, out);
      if |out| + |ranks[k]| <= size {
        out := out + ranks[k];
      } else {
        out := out + crowd(ranks[k])[..size - |out|];
        return;
      }
    }
    EliteEnd(ranks, size - |out|, crowd);
  }

  lemma EliteStep(ranks: seq<seq<nat>>, k: nat, room: nat, crowd: seq<nat> -> seq<nat>, out: seq<nat>)
    requires Reorders(crowd) && k < |ranks|
    ensures |ranks[k]| <= room ==>
      out + Elite(ranks[k..], room, crowd) == (out + ranks[k]) + Elite(ranks[k + 1..], room - |ranks[k]|, crowd)
    ensures |crowd(ranks[k])| == |ranks[k]|
    ensures |ranks[k]| > room ==> Elite(ranks[k..], room, crowd) == crowd(ranks[k])[..room]
  {
  }

  lemma EliteEnd(ranks: seq<seq<nat>>, room: nat, crowd: seq<nat> -> seq<nat>)
    requires Reorders(crowd)
    ensures Elite(ranks[|ranks|..], room, crowd) == []
  {
  }

  /** The elite has the population size, or everything if there is less. */
  lemma {:induction false} EliteSize(ranks: seq<seq<nat>>, room: nat, crowd: seq<nat> -> seq<nat>)
    requires Reorders(crowd)
    ensures |Elite(ranks, room, crowd)| == if |Flatten(ranks)| < room then |Flatten(ranks)| else room
    ensures forall x :: x in Elite(ranks, room, crowd) ==> x in Flatten(ranks)
  {
    if ranks != [] {
      if |ranks[0]| <= room {
        EliteSize(ranks[1..], room - |ranks[0]|, crowd);
      } else {
        forall x | x in crowd(ranks[0])[..room] ensures x in ranks[0] {
          assert x in multiset(crowd(ranks[0]));
        }
      }
    }
  }

  ghost predicate Apart(ranks: seq<seq<nat>>) {
    forall j, k, x :: 0 <= j < k < |ranks| && x in ranks[j] ==> x !in ranks[k]
  }

  /** Nothing left out has a better rank than anything kept. */
  lemma {:induction false} EliteOrder(ranks: seq<seq<nat>>, room: nat, crowd: seq<nat> -> seq<nat>, ra: nat, a: nat,
                                      rb: nat, b: nat)
    requires Reorders(crowd) && Apart(ranks)
    requires ra < |ranks| && a in ranks[ra] && a in Elite(ranks, room, crowd)
    requires rb < |ranks| && b in ranks[rb] && b !in Elite(ranks, room, crowd)
    ensures ra <= rb
  {
    if ra > 0 {
      if |ranks[0]| <= room {
        assert rb > 0;
        assert ranks[1..][ra - 1] == ranks[ra] && ranks[1..][rb - 1] == ranks[rb];
        assert Apart(ranks[1..]);
        EliteOrder(ranks[1..], room - |ranks[0]|, crowd, ra - 1, a, rb - 1, b);
      } else {
        CrowdMember(crowd, ranks[0], room, a);
      }
    }
  }

  lemma CrowdMember(crowd: seq<nat> -> seq<nat>, xs: seq<nat>, room: nat, x: nat)
    requires Reorders(crowd) && room <= |xs|
    ensures x in crowd(xs)[..room] ==> x in xs
  {
    assert x in multiset(crowd(xs)) <==> x in multiset(xs);
  }

  // What the ranks of trial numbers are.

  /** No number of the population dominates `x`. */
  ghost predicate Undominated(search: Search, numbers: seq<nat>, x: nat)
    requires Sortable(search, numbers) && x in numbers
  {
    forall y :: y in numbers ==> !Beats(search, y, x)
  }

  predicate Beats(search: Search, y: nat, x: nat) {
    && y < |search.trials| && search.trials[y].Some? && WellFormed(search.trials[y].value, search.directions)
    && x < |search.trials| && search.trials[x].Some? && WellFormed(search.trials[x].value, search.directions)
    && ConstrainedDominates(search.trials[y].value, search.trials[x].value, search.directions)
  }

  lemma BeatsIsRel(search: Search, numbers: seq<nat>, j: nat, i: nat)
    requires Sortable(search, numbers) && j < |numbers| && i < |numbers|
    ensures (j, i) in PopRel(PopOf(search, numbers), search.directions) <==> Beats(search, numbers[j], numbers[i])
  {
  }

  /** The first rank is what no number of the population dominates. */
  lemma FirstRank(search: Search, numbers: seq<nat>, x: nat)
    requires Sortable(search, numbers) && x in numbers
    ensures RanksOf(search, numbers) != []
    ensures x in RanksOf(search, numbers)[0] <==> Undominated(search, numbers, x)
  {
    hide PopRel, Peel, Sortable, Beats, StrictOrder, Within, IsDepth;
    var n := |numbers|;
    var rel, layers := PopRel(PopOf(search, numbers), search.directions), LayersOf(search, numbers);
    PopRelStrict(PopOf(search, numbers), search.directions);
    LayersInRange(search, numbers);
    var i :| 0 <= i < n && numbers[i] == x;
    FirstLayer(rel, n, i);
    if x in RanksOf(search, numbers)[0] {
      var p :| 0 <= p < |layers[0]| && numbers[layers[0][p]] == x;
      FirstLayer(rel, n, layers[0][p]);
      forall y | y in numbers ensures !Beats(search, y, x) {
        var j :| 0 <= j < n && numbers[j] == y;
        BeatsIsRel(search, numbers, j, layers[0][p]);
      }
    }
    if Undominated(search, numbers, x) {
      forall j: nat | j < n ensures (j, i) !in rel {
        BeatsIsRel(search, numbers, j, i);
      }
      var p :| 0 <= p < |layers[0]| && layers[0][p] == i;
      assert Lookup(numbers, layers[0])[p] == x;
    }
  }

  /** The first layer holds what nothing is related to. */
  lemma FirstLayer(rel: Rel, n: nat, i: nat)
    requires StrictOrder(rel) && Within(rel, Below(n)) && i < n
    ensures Peel(rel, Upto(n)) != []
    ensures i in Peel(rel, Upto(n))[0] <==> forall j: nat :: j < n ==> (j, i) !in rel
  {
    hide StrictOrder, Within;
    var xs := Upto(n);
    ScanProgress(rel, xs);
    ScanFacts(rel, Elements(xs), xs, 0);
    assert forall j: nat :: j in Elements(xs) <==> j < n;
  }

  /** The ranks hold the numbers of the population, each as often as it occurs. */
  lemma RanksHold(search: Search, numbers: seq<nat>)
    requires Sortable(search, numbers)
    ensures multiset(Flatten(RanksOf(search, numbers))) == multiset(numbers)
  {
    hide PopRel, Peel, Sortable, StrictOrder, Within, Flatten;
    var n, layers := |numbers|, LayersOf(search, numbers);
    PopRelStrict(PopOf(search, numbers), search.directions);
    LayersInRange(search, numbers);
    PeelPartitions(PopRel(PopOf(search, numbers), search.directions), Upto(n));
    FlattenLookups(numbers, layers);
    PermutationFacts(Flatten(layers), Upto(n));
    LookupPermuted(numbers, Flatten(layers), Upto(n));
    assert Lookup(numbers, Upto(n)) == numbers;
  }

  lemma {:induction false} FlattenLookups(numbers: seq<nat>, layers: seq<seq<nat>>)
    requires forall k :: 0 <= k < |layers| ==> InRange(layers[k], |numbers|)
    ensures InRange(Flatten(layers), |numbers|) && Flatten(Lookups(numbers, layers)) == Lookup(numbers, Flatten(layers))
  {
    if layers != [] {
      FlattenLookups(numbers, layers[1..]);
      assert Lookups(numbers, layers)[1..] == Lookups(numbers, layers[1..]);
      assert Lookup(numbers, layers[0] + Flatten(layers[1..]))
        == Lookup(numbers, layers[0]) + Lookup(numbers, Flatten(layers[1..]));
    }
  }

  lemma {:induction false} LookupPermuted(numbers: seq<nat>, a: seq<nat>, b: seq<nat>)
    requires InRange(a, |numbers|) && InRange(b, |numbers|) && multiset(a) == multiset(b)
    ensures multiset(Lookup(numbers, a)) == multiset(Lookup(numbers, b))
    decreases |a|
  {
    hide InRange, Distinct;
    PermutationFacts(a, b);
    if a != [] {
      assert a[0] in a;
      var p :| 0 <= p < |b| && b[p] == a[0];
      RemoveOne(a, b, p);
      InRangeRest(a, 0, |numbers|);
      InRangeRest(b, p, |numbers|);
      LookupPermuted(numbers, Without(a, 0), Without(b, p));
      LookupOne(numbers, a, 0);
      LookupOne(numbers, b, p);
    }
  }

  function Without(a: seq<nat>, p: nat): (rest: seq<nat>)
    requires p < |a|
    ensures |rest| == |a| - 1
  {
    a[..p] + a[p + 1..]
  }

  lemma InRangeRest(a: seq<nat>, p: nat, n: nat)
    requires InRange(a, n) && p < |a|
    ensures InRange(Without(a, p), n) && a[p] < n
  {
  }

  lemma RemoveOne(a: seq<nat>, b: seq<nat>, p: nat)
    requires a != [] && p < |b| && b[p] == a[0] && multiset(a) == multiset(b)
    ensures multiset(Without(a, 0)) == multiset(Without(b, p))
  {
    WithoutMultiset(a, 0);
    WithoutMultiset(b, p);
  }

  lemma WithoutMultiset(a: seq<nat>, p: nat)
    requires p < |a|
    ensures multiset(Without(a, p)) == multiset(a) - multiset{a[p]}
  {
    assert a == a[..p] + [a[p]] + a[p + 1..];
  }

  lemma LookupOne(numbers: seq<nat>, a: seq<nat>, p: nat)
    requires InRange(a, |numbers|) && p < |a|
    ensures InRange(Without(a, p), |numbers|)
    ensures multiset(Lookup(numbers, a)) == multiset(Lookup(numbers, Without(a, p))) + multiset{numbers[a[p]]}
  {
    var x, y := Lookup(numbers, a[..p]), Lookup(numbers, a[p + 1..]);
    assert Lookup(numbers, a) == x + [numbers[a[p]]] + y;
    assert Lookup(numbers, Without(a, p)) == x + y;
  }

  /** Size of the elite of a population, and where it comes from. */
  lemma EliteFacts(search: Search, numbers: seq<nat>, crowd: seq<nat> -> seq<nat>)
    requires Reorders(crowd) && Sortable(search, numbers)
    ensures |EliteOf(search, numbers, crowd).value| == if |numbers| < search.size then |numbers| else search.size
    ensures forall x :: x in EliteOf(search, numbers, crowd).value ==> x in numbers
  {
    hide RanksOf, Sortable, Reorders, Elite;
    RanksHold(search, numbers);
    EliteSize(RanksOf(search, numbers), search.size, crowd);
    PermutationFacts(Flatten(RanksOf(search, numbers)), numbers);
  }

  /** Elitism of one selection: what is kept is nowhere deeper in the dominance order than what is not. */
  lemma EliteKeepsBetter(search: Search, numbers: seq<nat>, crowd: seq<nat> -> seq<nat>, i: nat, di: nat, j: nat,
                         dj: nat)
    requires Reorders(crowd) && Sortable(search, numbers) && i < |numbers| && j < |numbers|
    requires IsDepth(PopRel(PopOf(search, numbers), search.directions), i, di)
    requires IsDepth(PopRel(PopOf(search, numbers), search.directions), j, dj)
    requires numbers[i] in EliteOf(search, numbers, crowd).value && numbers[j] !in EliteOf(search, numbers, crowd).value
    ensures di <= dj
  {
    hide PopRel, Peel, IsDepth, StrictOrder, Within, Sortable, Elite, Reorders;
    RankOfNumber(search, numbers, i, di);
    RankOfNumber(search, numbers, j, dj);
    RanksApart(search, numbers);
    EliteOrder(RanksOf(search, numbers), search.size, crowd, di, numbers[i], dj, numbers[j]);
  }

  lemma RankOfNumber(search: Search, numbers: seq<nat>, i: nat, d: nat)
    requires Sortable(search, numbers) && i < |numbers|
    requires IsDepth(PopRel(PopOf(search, numbers), search.directions), i, d)
    ensures d < |RanksOf(search, numbers)| && numbers[i] in RanksOf(search, numbers)[d]
  {
    hide PopRel, Peel, IsDepth, StrictOrder, Within, Sortable;
    var rel, n, layers := PopRel(PopOf(search, numbers), search.directions), |numbers|, LayersOf(search, numbers);
    PopRelStrict(PopOf(search, numbers), search.directions);
    PeelLayered(rel, Upto(n));
    Layers.RankIsDepth(rel, n, layers, i);
    DepthUnique(rel, i, d, RankIn(layers, i));
    InItsLayer(layers, i);
    LayersInRange(search, numbers);
    var p :| 0 <= p < |layers[d]| && layers[d][p] == i;
    assert Lookup(numbers, layers[d])[p] == numbers[i];
  }

  /** Whatever a chain ends with may be replaced by the same trial at another position. */
  lemma SameTrialChain(search: Search, numbers: seq<nat>, i: nat, j: nat, c: seq<nat>)
    requires Sortable(search, numbers) && i < |numbers| && j < |numbers| && numbers[i] == numbers[j]
    requires ChainTo(PopRel(PopOf(search, numbers), search.directions), c, i)
    ensures ChainTo(PopRel(PopOf(search, numbers), search.directions), c[..|c| - 1] + [j], j)
  {
    hide PopRel, Sortable, Beats, StrictOrder, Within;
    var rel := PopRel(PopOf(search, numbers), search.directions);
    var n := |c| - 1;
    if n > 0 {
      PopRelStrict(PopOf(search, numbers), search.directions);
      assert (c[n - 1], c[n]) in rel;
      InPopulation(rel, |numbers|, c[n - 1], i);
      BeatsIsRel(search, numbers, c[n - 1], i);
      BeatsIsRel(search, numbers, c[n - 1], j);
    }
  }

  lemma InPopulation(rel: Rel, n: nat, j: nat, i: nat)
    requires Within(rel, Below(n)) && (j, i) in rel
    ensures j < n && i < n
  {
    assert j in Below(n) && i in Below(n);
    BelowFacts(n);
  }

  /** A trial has one depth, however often it occurs among the candidates. */
  lemma SameTrialDepth(search: Search, numbers: seq<nat>, i: nat, j: nat, d: nat)
    requires Sortable(search, numbers) && i < |numbers| && j < |numbers| && numbers[i] == numbers[j]
    requires IsDepth(PopRel(PopOf(search, numbers), search.directions), i, d)
    ensures IsDepth(PopRel(PopOf(search, numbers), search.directions), j, d)
  {
    hide PopRel, Sortable, ChainTo;
    var rel := PopRel(PopOf(search, numbers), search.directions);
    var c :| ChainTo(rel, c, i) && |c| == d + 1;
    SameTrialChain(search, numbers, i, j, c);
    forall c | ChainTo(rel, c, j) ensures |c| <= d + 1 {
      hide ChainTo;
      assert |c| > 0 by {
        ChainNotEmpty(rel, c, j);
      }
      SameTrialChain(search, numbers, j, i, c);
    }
  }

  lemma ChainNotEmpty(rel: Rel, c: seq<nat>, i: nat)
    requires ChainTo(rel, c, i)
    ensures |c| > 0
  {
  }

  /** No trial is in two ranks, even if it occurs twice among the candidates. */
  lemma RanksApart(search: Search, numbers: seq<nat>)
    requires Sortable(search, numbers)
    ensures Apart(RanksOf(search, numbers))
  {
    hide PopRel, Peel, StrictOrder, Within, Sortable, RankIn, IsDepth;
    var rel, layers, ranks :=
      PopRel(PopOf(search, numbers), search.directions), LayersOf(search, numbers), RanksOf(search, numbers);
    LayersInRange(search, numbers);
    forall j, k, x | 0 <= j < k < |ranks| && x in ranks[j] ensures x !in ranks[k] {
      if x in ranks[k] {
        var p :| 0 <= p < |layers[j]| && numbers[layers[j][p]] == x;
        var q :| 0 <= q < |layers[k]| && numbers[layers[k][q]] == x;
        LayerDepth(search, numbers, j, p);
        LayerDepth(search, numbers, k, q);
        SameTrialDepth(search, numbers, layers[j][p], layers[k][q], j);
        DepthUnique(rel, layers[k][q], j, k);
      }
    }
  }

  /** A layer's entries have its depth. */
  lemma LayerDepth(search: Search, numbers: seq<nat>, k: nat, p: nat)
    requires Sortable(search, numbers) && k < |LayersOf(search, numbers)| && p < |LayersOf(search, numbers)[k]|
    ensures LayersOf(search, numbers)[k][p] < |numbers|
    ensures IsDepth(PopRel(PopOf(search, numbers), search.directions), LayersOf(search, numbers)[k][p], k)
  {
    hide PopRel, Peel, StrictOrder, Within, Sortable, RankIn, IsDepth;
    var rel, layers := PopRel(PopOf(search, numbers), search.directions), LayersOf(search, numbers);
    PopRelStrict(PopOf(search, numbers), search.directions);
    PeelLayered(rel, Upto(|numbers|));
    LayersInRange(search, numbers);
    assert layers[k][p] in layers[k];
    Layers.RankIsDepth(rel, |numbers|, layers, layers[k][p]);
  }

  /** Every candidate has a depth. */
  lemma SomeDepth(search: Search, numbers: seq<nat>, i: nat) returns (d: nat)
    requires Sortable(search, numbers) && i < |numbers|
    ensures IsDepth(PopRel(PopOf(search, numbers), search.directions), i, d)
  {
    hide PopRel, Peel, StrictOrder, Within, Sortable, IsDepth;
    var rel, layers := PopRel(PopOf(search, numbers), search.directions), LayersOf(search, numbers);
    PopRelStrict(PopOf(search, numbers), search.directions);
    PeelLayered(rel, Upto(|numbers|));
    Layers.RankIsDepth(rel, |numbers|, layers, i);
    d := RankIn(layers, i);
  }

  /** Nothing left out dominates anything kept. */
  lemma LeftOutNeverBeats(search: Search, numbers: seq<nat>, crowd: seq<nat> -> seq<nat>, x: nat, y: nat)
    requires Reorders(crowd) && Sortable(search, numbers) && y in numbers
    requires x in EliteOf(search, numbers, crowd).value && y !in EliteOf(search, numbers, crowd).value
    ensures !Beats(search, y, x)
  {
    hide PopRel, IsDepth, Sortable, Reorders, EliteOf, Beats, StrictOrder, Within;
    EliteFacts(search, numbers, crowd);
    var rel := PopRel(PopOf(search, numbers), search.directions);
    var i :| 0 <= i < |numbers| && numbers[i] == x;
    var j :| 0 <= j < |numbers| && numbers[j] == y;
    var di := SomeDepth(search, numbers, i);
    var dj := SomeDepth(search, numbers, j);
    EliteKeepsBetter(search, numbers, crowd, i, di, j, dj);
    BeatsIsRel(search, numbers, j, i);
    if (j, i) in rel {
      DepthGrows(rel, j, dj, i, di);
    }
  }

  lemma DepthGrows(rel: Rel, j: nat, dj: nat, i: nat, di: nat)
    requires (j, i) in rel && IsDepth(rel, j, dj) && IsDepth(rel, i, di)
    ensures dj < di
  {
    var c :| ChainTo(rel, c, j) && |c| == dj + 1;
    assert ChainTo(rel, c + [i], i);
  }

  // Generations.

  type Generations = map<nat, seq<nat>>

  predicate Full(gens: Generations, size: nat, g: nat) {
    g in gens && |gens[g]| >= size
  }

  /** `get_child_generation`: the first generation that is not full. */
  method GetChildGeneration(gens: Generations, size: nat) returns (child: nat)
    ensures !Full(gens, size, child) && AllFull(gens, size, child)
    ensures !(child in gens && |gens[child]| >= size) && forall g: nat :: g < child ==> g in gens && |gens[g]| >= size
  {
    child := 0;
    while Full(gens, size, child)
      invariant AllFull(gens, size, child)
      decreases |From(gens, child)|
    {
      assert From(gens, child + 1) == From(gens, child) - {child};
      child := child + 1;
    }
    forall g: nat | g < child ensures g in gens && |gens[g]| >= size {
      assert Full(gens, size, g);
    }
  }

  ghost function From(gens: Generations, g: nat): set<nat> {
    set h | h in gens.Keys && h >= g
  }

  /** The generations below `g` all have an entry; all are full. */
  predicate Known(gens: Generations, g: nat) {
    forall h: nat :: h < g ==> h in gens
  }

  predicate AllFull(gens: Generations, size: nat, g: nat) {
    Known(gens, g) && forall h: nat :: h < g ==> Full(gens, size, h)
  }

  /** The parents of generation `g`, recomputed from the first generation on. */
  ghost function Parents(search: Search, gens: Generations, crowd: seq<nat> -> seq<nat>,
                         g: nat): (parents: Option<seq<nat>>)
    requires Reorders(crowd) && Known(gens, g)
  {
    if g == 0 then Some([])
    else
      var previous := Parents(search, gens, crowd, g - 1);
      if previous.None? then None else EliteOf(search, gens[g - 1] + previous.value, crowd)
  }

  /** The recomputation of missing generations, which stops early at one that is not full. */
  ghost function Resumed(search: Search, gens: Generations, crowd: seq<nat> -> seq<nat>, from: nat, child: nat,
                         parents: seq<nat>): (out: Option<seq<nat>>)
    requires Reorders(crowd) && from > 0
    decreases child + 1 - from
  {
    if from > child || !Full(gens, search.size, from - 1) then Some(parents)
    else
      var next := EliteOf(search, gens[from - 1] + parents, crowd);
      if next.None? then None else Resumed(search, gens, crowd, from + 1, child, next.value)
  }

  /** The first generation the recomputation does not reach. */
  function Stop(gens: Generations, size: nat, from: nat, child: nat): (stop: nat)
    requires from > 0
    ensures from <= stop && (stop == from || stop <= child + 1)
    decreases child + 1 - from
  {
    if from > child || !Full(gens, size, from - 1) then from else Stop(gens, size, from + 1, child)
  }

  /** Nothing is left to recompute once every earlier generation is full. */
  lemma {:induction false} StopsAtChild(gens: Generations, size: nat, from: nat, child: nat)
    requires 0 < from <= child + 1 && AllFull(gens, size, child)
    ensures Stop(gens, size, from, child) == child + 1
    decreases child + 1 - from
  {
    if from <= child {
      StopsAtChild(gens, size, from + 1, child);
    }
  }

  /** The first generation whose parents are missing. */
  function FirstMissing(cached: Option<(nat, seq<nat>)>): (from: nat)
    ensures from > 0
  {
    if cached.Some? then cached.value.0 + 1 else 1
  }

  /** The parents known before it. */
  function LastKnown(cached: Option<(nat, seq<nat>)>): seq<nat> {
    if cached.Some? then cached.value.1 else []
  }

  /** The persisted list, if any, is what recomputation would give. */
  ghost predicate CacheRight(search: Search, gens: Generations, crowd: seq<nat> -> seq<nat>, child: nat,
                             cached: Option<(nat, seq<nat>)>)
    requires Reorders(crowd) && Known(gens, child)
  {
    cached.Some? ==> cached.value.0 <= child && Parents(search, gens, crowd, cached.value.0) == Some(cached.value.1)
  }

  /** `get_parent_population_numbers`: the parents, and the lists to persist, by generation: one for
      every generation recomputed, the parents being the last of them. */
  method GetParents(search: Search, gens: Generations, crowd: seq<nat> -> seq<nat>, child: nat,
                    cached: Option<(nat, seq<nat>)>)
    returns (parents: Option<seq<nat>>, saved: Generations)
    requires Reorders(crowd)
    ensures child == 0 ==> parents == Some([]) && saved == map[]
    ensures child > 0 && cached.Some? && cached.value.0 == child ==> parents == Some(cached.value.1) && saved == map[]
    ensures child > 0 && FirstMissing(cached) != child + 1 ==>
      && parents == Resumed(search, gens, crowd, FirstMissing(cached), child, LastKnown(cached))
      && (parents.None? ==> saved == map[])
      && (parents.Some? ==>
            SavedUpTo(FirstMissing(cached), Stop(gens, search.size, FirstMissing(cached), child), LastKnown(cached),
              parents.value, saved))
    ensures parents.Some? && Known(gens, child) && CacheRight(search, gens, crowd, child, cached) ==>
      forall g :: g in saved ==> g <= child && Parents(search, gens, crowd, g) == Some(saved[g])
  {
    hide EliteOf, Reorders, SavedUpTo, Stop;
    if child == 0 {
      return Some([]), map[];
    }
    var generation, numbers: seq<nat> := 1, [];
    if cached.Some? {
      if cached.value.0 == child {
        return Some(cached.value.1), map[];
      }
      generation, numbers := cached.value.0 + 1, cached.value.1;
    }
    parents, saved := Recompute(search, gens, crowd, generation, child, numbers);
  }

  /** The loop over the missing generations from `from` on, starting with the parents before them. */
  method Recompute(search: Search, gens: Generations, crowd: seq<nat> -> seq<nat>, from: nat, child: nat,
                   start: seq<nat>)
    returns (parents: Option<seq<nat>>, saved: Generations)
    requires Reorders(crowd) && from > 0
    ensures parents == Resumed(search, gens, crowd, from, child, start)
    ensures parents.None? ==> saved == map[]
    ensures parents.Some? ==> SavedUpTo(from, Stop(gens, search.size, from, child), start, parents.value, saved)
    ensures (parents.Some? && Known(gens, child) && from <= child + 1
        && Parents(search, gens, crowd, from - 1) == Some(start)) ==>
      forall g :: g in saved ==> g <= child && Parents(search, gens, crowd, g) == Some(saved[g])
  {
    hide EliteOf, Reorders, SavedUpTo;
    var generation, numbers := from, start;
    saved := map[];
    ghost var right := Known(gens, child) && from <= child + 1 && Parents(search, gens, crowd, from - 1) == Some(start);
    NothingSaved(from, start);
    while generation <= child && Full(gens, search.size, generation - 1)
      invariant from <= generation
      invariant Resumed(search, gens, crowd, from, child, start)
        == Resumed(search, gens, crowd, generation, child, numbers)
      invariant Stop(gens, search.size, from, child) == Stop(gens, search.size, generation, child)
      invariant SavedUpTo(from, generation, start, numbers, saved)
      invariant right ==> generation <= child + 1 && Parents(search, gens, crowd, generation - 1) == Some(numbers)
      invariant right ==> forall g :: g in saved ==> g <= child && Parents(search, gens, crowd, g) == Some(saved[g])
      decreases child + 1 - generation
    {
      var elite := SelectElite(search, gens[generation - 1] + numbers, crowd);
      if elite.None? {
        return None, map[];
      }
      SaveNext(from, generation, start, numbers, saved, elite.value);
      numbers := elite.value;
      saved := saved[generation := numbers];
      generation := generation + 1;
    }
    parents := Some(numbers);
  }

  /** The generations from `from` up to `stop` are saved, no others, and the last of them, or `start`,
      is the result. */
  ghost predicate SavedUpTo(from: nat, stop: nat, start: seq<nat>, parents: seq<nat>, saved: Generations) {
    && from <= stop
    && (forall g :: g in saved <==> from <= g < stop)
    && parents == if stop == from then start else saved[stop - 1]
  }

  lemma NothingSaved(from: nat, start: seq<nat>)
    ensures SavedUpTo(from, from, start, start, map[])
  {
  }

  lemma SaveNext(from: nat, stop: nat, start: seq<nat>, parents: seq<nat>, saved: Generations, next: seq<nat>)
    requires SavedUpTo(from, stop, start, parents, saved)
    ensures SavedUpTo(from, stop + 1, start, next, saved[stop := next])
  {
  }

  /** Resuming from what recomputation would give up to some generation completes the recomputation. */
  lemma {:induction false} ResumeCompletes(search: Search, gens: Generations, crowd: seq<nat> -> seq<nat>, from: nat,
                                           child: nat, parents: seq<nat>)
    requires Reorders(crowd) && 0 < from <= child + 1
    requires AllFull(gens, search.size, child)
    requires Parents(search, gens, crowd, from - 1) == Some(parents)
    ensures Resumed(search, gens, crowd, from, child, parents) == Parents(search, gens, crowd, child)
    decreases child + 1 - from
  {
    hide EliteOf, Reorders;
    if from <= child {
      var next := EliteOf(search, gens[from - 1] + parents, crowd);
      if next.None? {
        NoneStays(search, gens, crowd, from, child);
      } else {
        ResumeCompletes(search, gens, crowd, from + 1, child, next.value);
      }
    }
  }

  lemma {:induction false} NoneStays(search: Search, gens: Generations, crowd: seq<nat> -> seq<nat>, g: nat, child: nat)
    requires Reorders(crowd) && g <= child && Known(gens, child)
    requires Parents(search, gens, crowd, g).None?
    ensures Parents(search, gens, crowd, child).None?
    decreases child - g
  {
    hide EliteOf, Reorders;
    if g < child {
      NoneStays(search, gens, crowd, g, child - 1);
    }
  }

  /** Resuming from any right persisted list gives the same parents as starting from generation 1. */
  lemma ResumeIsRecompute(search: Search, gens: Generations, crowd: seq<nat> -> seq<nat>, child: nat,
                          cached: (nat, seq<nat>))
    requires Reorders(crowd) && AllFull(gens, search.size, child)
    requires CacheRight(search, gens, crowd, child, Some(cached))
    ensures Resumed(search, gens, crowd, cached.0 + 1, child, cached.1) == Resumed(search, gens, crowd, 1, child, [])
  {
    hide Reorders;
    ResumeCompletes(search, gens, crowd, cached.0 + 1, child, cached.1);
    ResumeCompletes(search, gens, crowd, 1, child, []);
  }

  /** Every generation's parents number exactly the population size, and are trials of earlier generations. */
  lemma {:induction false} ParentsSize(search: Search, gens: Generations, crowd: seq<nat> -> seq<nat>, g: nat)
    requires Reorders(crowd) && AllFull(gens, search.size, g)
    requires Parents(search, gens, crowd, g).Some?
    ensures g > 0 ==> |Parents(search, gens, crowd, g).value| == search.size
    ensures forall x :: x in Parents(search, gens, crowd, g).value ==> x in Earlier(gens, g)
  {
    hide Reorders, Sortable, RanksOf;
    hide EliteOf;
    if g > 0 {
      assert Full(gens, search.size, g - 1);
      ParentsStep(search, gens, crowd, g);
      ParentsSize(search, gens, crowd, g - 1);
      EliteFacts(search, gens[g - 1] + Parents(search, gens, crowd, g - 1).value, crowd);
    }
  }

  lemma ParentsStep(search: Search, gens: Generations, crowd: seq<nat> -> seq<nat>, g: nat)
    requires Reorders(crowd) && Known(gens, g) && g > 0 && Parents(search, gens, crowd, g).Some?
    ensures Parents(search, gens, crowd, g - 1).Some?
    ensures Sortable(search, gens[g - 1] + Parents(search, gens, crowd, g - 1).value)
    ensures Parents(search, gens, crowd, g)
      == EliteOf(search, gens[g - 1] + Parents(search, gens, crowd, g - 1).value, crowd)
  {
  }

  /** What the parents of generation `g` are selected from. */
  ghost function Candidates(search: Search, gens: Generations, crowd: seq<nat> -> seq<nat>, g: nat): (numbers: seq<nat>)
    requires Reorders(crowd) && Known(gens, g) && g > 0 && Parents(search, gens, crowd, g).Some?
    ensures Sortable(search, numbers)
  {
    hide Sortable, EliteOf;
    ParentsStep(search, gens, crowd, g);
    gens[g - 1] + Parents(search, gens, crowd, g - 1).value
  }

  /** Elitism of the fold: of a generation and its parents, what becomes the next parents is nowhere
      deeper in the dominance order than what does not, whether or not a trial occurs in both. */
  lemma ParentsKeepBetter(search: Search, gens: Generations, crowd: seq<nat> -> seq<nat>, g: nat, i: nat, di: nat,
                          j: nat, dj: nat)
    requires Reorders(crowd) && Known(gens, g) && g > 0 && Parents(search, gens, crowd, g).Some?
    requires i < |Candidates(search, gens, crowd, g)| && j < |Candidates(search, gens, crowd, g)|
    requires IsDepth(PopRel(PopOf(search, Candidates(search, gens, crowd, g)), search.directions), i, di)
    requires IsDepth(PopRel(PopOf(search, Candidates(search, gens, crowd, g)), search.directions), j, dj)
    requires Candidates(search, gens, crowd, g)[i] in Parents(search, gens, crowd, g).value
    requires Candidates(search, gens, crowd, g)[j] !in Parents(search, gens, crowd, g).value
    ensures di <= dj && !Beats(search, Candidates(search, gens, crowd, g)[j], Candidates(search, gens, crowd, g)[i])
  {
    hide Sortable, EliteOf, Reorders, PopRel, IsDepth, Beats;
    var numbers := Candidates(search, gens, crowd, g);
    ParentsStep(search, gens, crowd, g);
    EliteKeepsBetter(search, numbers, crowd, i, di, j, dj);
    LeftOutNeverBeats(search, numbers, crowd, numbers[i], numbers[j]);
  }

  /** All trials of the generations before `g`. */
  ghost function Earlier(gens: Generations, g: nat): seq<nat>
    requires Known(gens, g)
  {
    if g == 0 then [] else gens[g - 1] + Earlier(gens, g - 1)
  }

  /** The first rank of every selection up to generation `g` fits in the population. */
  ghost predicate FrontsFit(search: Search, gens: Generations, crowd: seq<nat> -> seq<nat>, g: nat)
    requires Reorders(crowd) && Known(gens, g)
  {
    g > 0 ==>
      var previous := Parents(search, gens, crowd, g - 1);
      && FrontsFit(search, gens, crowd, g - 1)
      && (previous.Some? && Sortable(search, gens[g - 1] + previous.value) ==>
            |FirstOf(RanksOf(search, gens[g - 1] + previous.value))| <= search.size)
  }

  ghost function FirstOf(ranks: seq<seq<nat>>): seq<nat> {
    if ranks == [] then [] else ranks[0]
  }

  /** Elitism over whole runs: as long as every first rank fits, the parents of a generation hold
      every trial that no trial of the earlier generations dominates. */
  lemma {:induction false} ParentsKeepFront(search: Search, gens: Generations, crowd: seq<nat> -> seq<nat>, g: nat,
                                            x: nat)
    requires Reorders(crowd) && AllFull(gens, search.size, g)
    requires Parents(search, gens, crowd, g).Some? && FrontsFit(search, gens, crowd, g)
    requires x in Earlier(gens, g) && forall y :: y in Earlier(gens, g) ==> !Beats(search, y, x)
    ensures x in Parents(search, gens, crowd, g).value
  {
    hide Reorders, Sortable, RanksOf, Beats, EliteOf;
    if g > 0 {
      ParentsStep(search, gens, crowd, g);
      var previous := Parents(search, gens, crowd, g - 1).value;
      var candidates := gens[g - 1] + previous;
      if x in Earlier(gens, g - 1) {
        ParentsKeepFront(search, gens, crowd, g - 1, x);
      }
      ParentsSize(search, gens, crowd, g - 1);
      FirstRank(search, candidates, x);
      FirstRankKept(search, candidates, crowd, x);
    }
  }

  lemma FirstRankKept(search: Search, numbers: seq<nat>, crowd: seq<nat> -> seq<nat>, x: nat)
    requires Reorders(crowd) && Sortable(search, numbers)
    requires x in FirstOf(RanksOf(search, numbers)) && |FirstOf(RanksOf(search, numbers))| <= search.size
    ensures x in EliteOf(search, numbers, crowd).value
  {
    hide RanksOf, Sortable, Reorders;
  }
}
