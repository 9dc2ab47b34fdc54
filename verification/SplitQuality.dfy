/** What a split is worth: it is a partition, respects dominance, and nests as the quota grows. */
module SplitQuality {
  import opened FiniteSets
  import opened Coords
  import opened Orders
  import opened Cells
  import opened Greedy
  import opened Front
  import opened Chains
  import opened Hssp
  import opened SelectionQuality
  import opened Nds
  import opened Split

  lemma {:induction false} GroupIn(ranks: seq<nat>, r: nat)
    ensures forall x: nat :: x in Group(ranks, r) <==> x < |ranks| && ranks[x] == r
    ensures Distinct(Group(ranks, r))
  {
    if ranks != [] {
      var n := |ranks| - 1;
      GroupIn(ranks[..n], r);
    }
  }

  lemma {:induction false} GroupsBelowIn(ranks: seq<nat>, b: nat)
    ensures forall x: nat :: x in GroupsBelow(ranks, b) <==> x < |ranks| && ranks[x] < b
    ensures Distinct(GroupsBelow(ranks, b))
  {
    hide Group;
    if b > 0 {
      GroupsBelowIn(ranks, b - 1);
      GroupIn(ranks, b - 1);
      var front, last := GroupsBelow(ranks, b - 1), Group(ranks, b - 1);
      forall i, j | 0 <= i < |front| && 0 <= j < |last| ensures front[i] != last[j] {
        assert front[i] in front && last[j] in last;
      }
    }
  }

  lemma {:induction false} OfSignatureIn(rows: seq<Point>, sig: Signature)
    ensures forall x: nat :: x in OfSignature(rows, sig) <==> x < |rows| && SignatureOf(rows[x]) == sig
    ensures Distinct(OfSignature(rows, sig))
  {
    hide SignatureOf;
    if rows != [] {
      OfSignatureIn(rows[..|rows| - 1], sig);
    }
  }

  lemma LookupFacts(indices: seq<nat>, pos: seq<nat>)
    requires InRange(pos, |indices|) && Distinct(indices) && Distinct(pos)
    ensures Distinct(Lookup(indices, pos))
    ensures forall x :: x in Lookup(indices, pos) ==> x in indices
  {
  }

  lemma FinitePicksFacts(group: seq<Point>, dims: nat, t: nat)
    requires Shaped(group, dims) && t <= |OfSignature(group, AllFiniteOrNan)|
    ensures Distinct(FinitePicks(group, dims, t))
    ensures forall x :: x in FinitePicks(group, dims, t) ==> x in OfSignature(group, AllFiniteOrNan)
  {
    hide OfSignature, Selection, Worst;
    OfSignatureIn(group, AllFiniteOrNan);
    var finite := OfSignature(group, AllFiniteOrNan);
    var rows := Select(group, finite);
    SelectionDistinct(Tenths(rows, dims), Reference(WorstPoint(rows, dims)), t);
    LookupFacts(finite, Selection(Tenths(rows, dims), Reference(WorstPoint(rows, dims)), t));
  }

  /** The reference of the boundary group, from its finite rows. */
  function GroupReference(group: seq<Point>, dims: nat): Point
    requires Shaped(group, dims)
  {
    Reference(WorstPoint(Select(group, OfSignature(group, AllFiniteOrNan)), dims))
  }

  /** The reference lies beyond the worst loss by a tenth of its size, or by a little if it is zero. */
  lemma ReferenceMargin(w: int)
    ensures RefCoord(w) - 10 * w == if w == 0 then 1 else if w > 0 then w else -w
  {
  }

  /** The worst loss of an objective is one of its losses, and none is worse. */
  lemma {:induction false} WorstIsWorst(rows: seq<Point>, d: nat)
    requires forall i :: 0 <= i < |rows| ==> d < |rows[i]|
    ensures forall i :: 0 <= i < |rows| ==> IsNan(rows[i][d]) || rows[i][d] <= Worst(rows, d)
    ensures Worst(rows, d) == -INF || exists i :: 0 <= i < |rows| && !IsNan(rows[i][d]) && rows[i][d] == Worst(rows, d)
  {
    if rows != [] {
      var n := |rows| - 1;
      WorstIsWorst(rows[..n], d);
      if Worst(rows, d) != Worst(rows[..n], d) {
        assert rows[n][d] == Worst(rows, d);
      } else if Worst(rows, d) != -INF {
        var i :| 0 <= i < n && !IsNan(rows[..n][i][d]) && rows[..n][i][d] == Worst(rows[..n], d);
        assert rows[i][d] == Worst(rows, d);
      }
    }
  }

  /** Every finite row without NaN of the boundary group lies strictly inside the reference, so that it
      measures more than nothing by itself. */
  lemma InsideReference(group: seq<Point>, dims: nat, x: nat)
    requires Shaped(group, dims) && !HasNan(GroupReference(group, dims))
    requires x in OfSignature(group, AllFiniteOrNan) && x < |group| && !HasNan(group[x])
    ensures forall d :: 0 <= d < dims ==> Tenths(group, dims)[x][d] < GroupReference(group, dims)[d]
    ensures Hv([Tenths(group, dims)[x]], GroupReference(group, dims)) > 0
  {
    hide OfSignature, Worst, Hv, RefCoord;
    var finite := OfSignature(group, AllFiniteOrNan);
    var some, row, r := Select(group, finite), Tenths(group, dims)[x], GroupReference(group, dims);
    var p :| 0 <= p < |finite| && finite[p] == x;
    forall d | 0 <= d < dims ensures row[d] < r[d] {
      WorstIsWorst(some, d);
      assert some[p] == group[x] && !IsNan(group[x][d]);
      ReferenceMargin(Worst(some, d));
    }
    RowMeasures(row, r);
  }

  lemma RowMeasures(row: Point, r: Point)
    requires |row| == |r| && !HasNan(r) && forall d :: 0 <= d < |r| ==> row[d] < r[d]
    ensures Hv([row], r) > 0
  {
    hide Box;
    assert !HasNan(row) by {
      assert forall d :: 0 <= d < |r| ==> !IsNan(r[d]);
    }
    BoxCells(row, r, row);
    PieceInRegion([row], 0, r);
    assert row in Region([row], r);
  }

  /** The `t` picks among the finite rows of the boundary group measure at least `1 - (1 - 1/t)^t` of
      any `t` of them. */
  lemma FinitePicksApproximation(group: seq<Point>, dims: nat, t: nat, others: seq<nat>)
    requires Shaped(group, dims) && forall i :: 0 <= i < |group| ==> Floats(group[i])
    requires 0 < t <= |OfSignature(group, AllFiniteOrNan)| && !HasNan(GroupReference(group, dims))
    requires |others| <= t && InRange(others, |group|)
    requires forall x :: x in others ==> x in OfSignature(group, AllFiniteOrNan)
    ensures var rows, r := Tenths(group, dims), GroupReference(group, dims);
      var opt := Hv(Select(rows, others), r);
      Pow(t, t) * (opt - Hv(Select(rows, FinitePicks(group, dims, t)), r)) <= Pow(t - 1, t) * opt
  {
    hide OfSignature, Selection, Worst, Hv, Pow, HasNan, Floats;
    var finite := OfSignature(group, AllFiniteOrNan);
    var some := Select(group, finite);
    var worst, rows, r := WorstPoint(some, dims), Tenths(group, dims), GroupReference(group, dims);
    if forall d :: 0 <= d < dims ==> worst[d] > -INF {
      var sel := Selection(Tenths(some, dims), r, t);
      var pos := PositionsIn(finite, others);
      SelectionApproximation(Tenths(some, dims), r, t, pos);
      TenthsOfSome(group, dims, finite, pos);
      TenthsOfSome(group, dims, finite, sel);
    } else {
      var d :| 0 <= d < dims && worst[d] <= -INF;
      NoNumbers(group, dims, d, others);
      NothingMeasured(rows, others, r);
      NoGap(t, 0, Hv(Select(rows, FinitePicks(group, dims, t)), r));
    }
  }

  /** Where the entries of a list are in another that holds them. */
  lemma {:induction false} PositionsIn(all: seq<nat>, some: seq<nat>) returns (pos: seq<nat>)
    requires forall x :: x in some ==> x in all
    ensures |pos| == |some| && InRange(pos, |all|) && Lookup(all, pos) == some
  {
    pos := [];
    if some != [] {
      var n := |some| - 1;
      pos := PositionsIn(all, some[..n]);
      assert some[n] in some;
      var p :| 0 <= p < |all| && all[p] == some[n];
      pos := pos + [p];
      assert some == some[..n] + [some[n]];
    }
  }

  lemma TenthsOfSome(group: seq<Point>, dims: nat, finite: seq<nat>, pos: seq<nat>)
    requires Shaped(group, dims) && InRange(finite, |group|) && InRange(pos, |finite|)
    ensures InRange(Lookup(finite, pos), |group|)
    ensures Select(Tenths(Select(group, finite), dims), pos) == Select(Tenths(group, dims), Lookup(finite, pos))
  {
  }

  /** An objective without a worst value has no value at all in the finite rows. */
  lemma NoNumbers(group: seq<Point>, dims: nat, d: nat, others: seq<nat>)
    requires Shaped(group, dims) && d < dims && forall i :: 0 <= i < |group| ==> Floats(group[i])
    requires Worst(Select(group, OfSignature(group, AllFiniteOrNan)), d) <= -INF && InRange(others, |group|)
    requires forall x :: x in others ==> x in OfSignature(group, AllFiniteOrNan)
    ensures forall k :: 0 <= k < |others| ==> HasNan(Tenths(group, dims)[others[k]])
  {
    hide OfSignature, Worst;
    OfSignatureIn(group, AllFiniteOrNan);
    var finite := OfSignature(group, AllFiniteOrNan);
    forall k | 0 <= k < |others| ensures HasNan(Tenths(group, dims)[others[k]]) {
      assert others[k] in others;
      var p :| 0 <= p < |finite| && finite[p] == others[k];
      WorstIsWorst(Select(group, finite), d);
      assert Select(group, finite)[p] == group[others[k]];
      var row := group[others[k]];
      assert row[d] != -INF;
      assert IsNan(Tenths(group, dims)[others[k]][d]);
    }
  }

  lemma NothingMeasured(rows: seq<Point>, others: seq<nat>, r: Point)
    requires InRange(others, |rows|) && forall k :: 0 <= k < |others| ==> HasNan(rows[others[k]])
    ensures Hv(Select(rows, others), r) == 0
  {
    hide HasNan;
    var pts := Select(rows, others);
    forall i | 0 <= i < |pts| ensures Piece(pts[i], r) <= {} {
    }
    RegionLeast(pts, {}, r);
  }

  lemma BoundaryPicksDistinct(group: seq<Point>, dims: nat, k: nat)
    requires Shaped(group, dims) && k <= |group|
    ensures Distinct(BoundaryPicks(group, dims, k))
  {
    hide OfSignature, FinitePicks, SignatureOf;
    SignatureSplit(group);
    OfSignatureIn(group, HasNegInf);
    OfSignatureIn(group, AllFiniteOrNan);
    OfSignatureIn(group, HasPosInf);
    var neg, pos := OfSignature(group, HasNegInf), OfSignature(group, HasPosInf);
    var a := Min(k, |neg|);
    var t := Min(k - a, |OfSignature(group, AllFiniteOrNan)|);
    FinitePicksFacts(group, dims, t);
    ThreeParts(neg, FinitePicks(group, dims, t), pos, a, k - a - t, group);
  }

  lemma ThreeParts(neg: seq<nat>, mid: seq<nat>, pos: seq<nat>, a: nat, c: nat, group: seq<Point>)
    requires Distinct(neg) && Distinct(mid) && Distinct(pos) && a <= |neg| && c <= |pos|
    requires forall x :: x in neg ==> x < |group| && SignatureOf(group[x]) == HasNegInf
    requires forall x :: x in mid ==> x < |group| && SignatureOf(group[x]) == AllFiniteOrNan
    requires forall x :: x in pos ==> x < |group| && SignatureOf(group[x]) == HasPosInf
    ensures Distinct(neg[..a] + mid + pos[..c])
  {
    hide SignatureOf;
    forall i, j | 0 <= i < a && 0 <= j < |mid| ensures neg[i] != mid[j] {
      assert neg[i] in neg && mid[j] in mid;
    }
    forall i, j | 0 <= i < a && 0 <= j < c ensures neg[i] != pos[j] {
      assert neg[i] in neg && pos[j] in pos;
    }
    forall i, j | 0 <= i < |mid| && 0 <= j < c ensures mid[i] != pos[j] {
      assert mid[i] in mid && pos[j] in pos;
    }
  }

  lemma FinitePicksNest(group: seq<Point>, dims: nat, t: nat, u: nat)
    requires Shaped(group, dims) && t <= u <= |OfSignature(group, AllFiniteOrNan)|
    ensures forall x :: x in FinitePicks(group, dims, t) ==> x in FinitePicks(group, dims, u)
  {
    hide OfSignature, Selection, Worst;
    var finite := OfSignature(group, AllFiniteOrNan);
    var rows := Select(group, finite);
    var worst := WorstPoint(rows, dims);
    SelectionNests(Tenths(rows, dims), Reference(worst), t, u);
    var small, large := FinitePicks(group, dims, t), FinitePicks(group, dims, u);
    if forall d :: 0 <= d < dims ==> worst[d] > -INF {
      var p, q := Selection(Tenths(rows, dims), Reference(worst), t), Selection(Tenths(rows, dims),
        Reference(worst), u);
      forall i | 0 <= i < t ensures small[i] in large {
        assert p[i] in q;
        var j :| 0 <= j < |q| && q[j] == p[i];
        assert large[j] == finite[q[j]];
      }
    } else {
      forall i | 0 <= i < t ensures small[i] in large {
        assert small[i] == large[i];
      }
    }
  }

  /** The boundary picks nest: the rows and the reference do not depend on how many are taken. */
  lemma BoundaryPicksNest(group: seq<Point>, dims: nat, k: nat, l: nat)
    requires Shaped(group, dims) && k <= l <= |group|
    ensures forall x :: x in BoundaryPicks(group, dims, k) ==> x in BoundaryPicks(group, dims, l)
  {
    hide OfSignature, FinitePicks;
    SignatureSplit(group);
    var neg, pos, nFinite :=
      OfSignature(group, HasNegInf), OfSignature(group, HasPosInf), |OfSignature(group, AllFiniteOrNan)|;
    var a, c := Min(k, |neg|), Min(l, |neg|);
    var t, u := Min(k - a, nFinite), Min(l - c, nFinite);
    FinitePicksNest(group, dims, t, u);
    var small, large := BoundaryPicks(group, dims, k), BoundaryPicks(group, dims, l);
    forall i | 0 <= i < k ensures small[i] in large {
      if i < a {
        assert small[i] == neg[i] == large[i];
      } else if i < a + t {
        assert small[i] == FinitePicks(group, dims, t)[i - a] && small[i] in FinitePicks(group, dims, t);
        var j :| 0 <= j < u && FinitePicks(group, dims, u)[j] == small[i];
        assert large[c + j] == small[i];
      } else {
        assert small[i] == pos[i - a - t] == large[i];
      }
    }
  }

  /** Membership in the promising set. */
  lemma GoodIn(rows: seq<Point>, dims: nat, ranks: seq<nat>, gamma: nat, b: nat)
    requires Shaped(rows, dims) && |ranks| == |rows| && IsBoundary(ranks, gamma, b)
    ensures var good := GoodLocal(rows, dims, ranks, gamma, b);
      && Distinct(good)
      && (forall x: nat :: x < |rows| && ranks[x] < b ==> x in good)
      && (forall x :: x in good ==> x < |rows| && ranks[x] <= b)
      && (|GroupsBelow(ranks, b)| == gamma ==> forall x :: x in good ==> ranks[x] < b)
  {
    hide Group, GroupsBelow, BoundaryPicks;
    BoundaryRoom(ranks, gamma, b);
    GroupsBelowIn(ranks, b);
    GroupIn(ranks, b);
    var whole, group := GroupsBelow(ranks, b), Group(ranks, b);
    var picks := BoundaryPicks(Select(rows, group), dims, gamma - |whole|);
    BoundaryPicksDistinct(Select(rows, group), dims, gamma - |whole|);
    LookupFacts(group, picks);
    var last := Lookup(group, picks);
    forall i, j | 0 <= i < |whole| && 0 <= j < |last| ensures whole[i] != last[j] {
      assert whole[i] in whole && last[j] in last;
    }
  }

  lemma {:induction false} RestIn(n: nat, good: seq<nat>)
    ensures forall x: nat :: x in Rest(n, good) <==> x < n && x !in good
    ensures Distinct(Rest(n, good))
  {
    if n > 0 {
      RestIn(n - 1, good);
    }
  }

  lemma {:induction false} DistinctElements(xs: seq<nat>)
    requires Distinct(xs)
    ensures |Elements(xs)| == |xs|
  {
    if xs != [] {
      var n := |xs| - 1;
      DistinctElements(xs[..n]);
      assert xs == xs[..n] + [xs[n]];
      assert Elements(xs) == Elements(xs[..n]) + {xs[n]};
    }
  }

  /** The split is a partition of the positions, with exactly `gamma` promising ones. */
  lemma SplitPartitions(rows: seq<Point>, dims: nat, ranks: seq<nat>, gamma: nat, b: nat)
    requires Shaped(rows, dims) && |ranks| == |rows| && IsBoundary(ranks, gamma, b)
    ensures var good, n := GoodLocal(rows, dims, ranks, gamma, b), |rows|;
      && |good| == gamma && |Rest(n, good)| == n - gamma
      && Distinct(good) && Distinct(Rest(n, good))
      && (forall x: nat :: x < n ==> (x in good <==> x !in Rest(n, good)))
  {
    hide GoodLocal, IsBoundary;
    GoodIn(rows, dims, ranks, gamma, b);
    GoodLength(rows, dims, ranks, gamma, b);
    var good, n := GoodLocal(rows, dims, ranks, gamma, b), |rows|;
    RestIn(n, good);
    DistinctElements(good);
    DistinctElements(Rest(n, good));
    BelowFacts(n);
    hide Rest;
    assert Elements(good) + Elements(Rest(n, good)) == Below(n);
    assert Elements(good) !! Elements(Rest(n, good));
  }

  lemma GoodLength(rows: seq<Point>, dims: nat, ranks: seq<nat>, gamma: nat, b: nat)
    requires Shaped(rows, dims) && |ranks| == |rows| && IsBoundary(ranks, gamma, b)
    ensures |GoodLocal(rows, dims, ranks, gamma, b)| == gamma
  {
  }

  lemma EmittedBelow(rows: seq<Point>, ranks: seq<nat>, limit: nat)
    requires |ranks| == |rows|
    ensures |Emitted(CleanSet(rows), ranks, limit)| <= |GroupsBelow(ranks, limit)|
  {
    hide HasNan, GroupsBelow;
    GroupsBelowIn(ranks, limit);
    ElementsSize(GroupsBelow(ranks, limit));
    SubsetSize(Emitted(CleanSet(rows), ranks, limit), Elements(GroupsBelow(ranks, limit)));
  }

  lemma {:induction false} ProperSubsetSize(a: set<nat>, b: set<nat>, x: nat)
    requires a <= b && x in b && x !in a
    ensures |a| < |b|
  {
    SubsetSize(a, b - {x});
  }

  /** If some clean row has no exact rank, at least `gamma` rows have one. */
  lemma QuotaReached(rows: seq<Point>, gamma: nat, ranks: seq<nat>, limit: nat, i: nat)
    requires Ranked(rows, gamma, ranks, limit) && i in CleanSet(rows) && ranks[i] >= limit
    ensures |GroupsBelow(ranks, limit)| >= gamma
  {
    hide HasNan, CleanSet, Certified, DomRel, NanRanked;
    EmittedBelow(rows, ranks, limit);
    ProperSubsetSize(Emitted(CleanSet(rows), ranks, limit), CleanSet(rows), i);
  }

  lemma GroupsBelowGain(ranks: seq<nat>, r: nat, i: nat)
    requires i < |ranks| && ranks[i] == r
    ensures |GroupsBelow(ranks, r + 1)| > |GroupsBelow(ranks, r)|
  {
    hide Group;
    GroupIn(ranks, r);
    assert i in Group(ranks, r);
  }

  /** Every clean promising row has an exact rank: unranked rows are never chosen. */
  lemma GoodIsExact(rows: seq<Point>, dims: nat, gamma: nat, ranks: seq<nat>, limit: nat, b: nat, i: nat)
    requires Shaped(rows, dims) && Ranked(rows, gamma, ranks, limit) && |ranks| == |rows| && IsBoundary(ranks, gamma, b)
    requires i in GoodLocal(rows, dims, ranks, gamma, b) && i in CleanSet(rows)
    ensures ranks[i] < limit
  {
    hide HasNan, CleanSet, DomRel, NanRanked, GoodLocal, GroupsBelow, Certified;
    GoodIn(rows, dims, ranks, gamma, b);
    CertifiedBound(DomRel(rows), CleanSet(rows), ranks, limit, i);
    if ranks[i] == limit {
      QuotaReached(rows, gamma, ranks, limit, i);
      GroupsBelowGain(ranks, limit, i);
      if limit < b {
        GroupsBelowGrows(ranks, limit + 1, b);
      }
    }
  }

  /** No poor observation dominates a promising one. */
  lemma NoPoorDominatesGood(rows: seq<Point>, dims: nat, gamma: nat, ranks: seq<nat>, limit: nat, b: nat, i: nat,
                            j: nat)
    requires Shaped(rows, dims) && Ranked(rows, gamma, ranks, limit) && |ranks| == |rows| && IsBoundary(ranks, gamma, b)
    requires i in GoodLocal(rows, dims, ranks, gamma, b) && j !in GoodLocal(rows, dims, ranks, gamma, b)
    ensures !Dominates(rows, j, i)
  {
    hide HasNan, NanRanked, GoodLocal, IsBoundary, StrictDom;
    GoodIn(rows, dims, ranks, gamma, b);
    if Dominates(rows, j, i) {
      assert i in CleanSet(rows) && j in CleanSet(rows) && (j, i) in DomRel(rows);
      GoodIsExact(rows, dims, gamma, ranks, limit, b, i);
    }
  }

  /** Promising rows come from ranks no deeper than those of the rows left out. */
  lemma WholeRanksFirst(rows: seq<Point>, dims: nat, gamma: nat, ranks: seq<nat>, limit: nat, b: nat,
                        i: nat, di: nat, j: nat, dj: nat)
    requires Shaped(rows, dims) && Ranked(rows, gamma, ranks, limit) && |ranks| == |rows| && IsBoundary(ranks, gamma, b)
    requires i in GoodLocal(rows, dims, ranks, gamma, b) && j !in GoodLocal(rows, dims, ranks, gamma, b)
    requires i in CleanSet(rows) && j in CleanSet(rows)
    requires IsDepth(DomRel(rows), i, di) && IsDepth(DomRel(rows), j, dj)
    ensures di <= dj
  {
    hide HasNan, CleanSet, DomRel, NanRanked, GoodLocal, IsBoundary, Certified, IsDepth;
    GoodIn(rows, dims, ranks, gamma, b);
    GoodIsExact(rows, dims, gamma, ranks, limit, b, i);
    DomRelWithin(rows);
    CertifiedDepth(DomRel(rows), CleanSet(rows), ranks, limit, i);
    CertifiedDepth(DomRel(rows), CleanSet(rows), ranks, limit, j);
    DepthUnique(DomRel(rows), i, di, ranks[i]);
    InRows(rows, j);
    DepthIsLongest(DomRel(rows), j, ranks[j], dj);
  }

  lemma InRows(rows: seq<Point>, j: nat)
    requires j in CleanSet(rows)
    ensures j < |rows|
  {
  }

  lemma DepthIsLongest(rel: Rel, i: nat, d: nat, e: nat)
    requires DepthAtLeast(rel, i, d) && IsDepth(rel, i, e)
    ensures d <= e
  {
  }

  /** How the boundary group treats a row: -inf first, +inf last. */
  function SignatureRank(row: Point): nat {
    if -INF in row then 0 else if INF in row then 2 else 1
  }

  /** A row of the boundary group is picked only once all of its earlier kinds are. */
  lemma BoundaryOrder(group: seq<Point>, dims: nat, k: nat, x: nat, y: nat)
    requires Shaped(group, dims) && k <= |group| && x < |group| && y < |group|
    requires x in BoundaryPicks(group, dims, k) && y !in BoundaryPicks(group, dims, k)
    ensures SignatureRank(group[x]) <= SignatureRank(group[y])
  {
    hide OfSignature, FinitePicks;
    SignatureSplit(group);
    OfSignatureIn(group, HasNegInf);
    OfSignatureIn(group, AllFiniteOrNan);
    OfSignatureIn(group, HasPosInf);
    var neg, finite, pos :=
      OfSignature(group, HasNegInf), OfSignature(group, AllFiniteOrNan), OfSignature(group, HasPosInf);
    var a := Min(k, |neg|);
    var t := Min(k - a, |finite|);
    var mid := FinitePicks(group, dims, t);
    FinitePicksFacts(group, dims, t);
    var picks := BoundaryPicks(group, dims, k);
    assert picks == neg[..a] + mid + pos[..k - a - t];
    if SignatureRank(group[y]) == 0 {
      assert neg[..|neg|] == neg;
      assert a < |neg|;
      assert t == 0 && mid == [];
    } else if SignatureRank(group[y]) == 1 && t == |finite| {
      AllPicked(finite, mid, y);
    }
  }

  /** A list without repetitions, as long as the one that holds it, holds it. */
  lemma AllPicked(all: seq<nat>, some: seq<nat>, y: nat)
    requires Distinct(all) && Distinct(some) && |some| == |all| && y in all && forall x :: x in some ==> x in all
    ensures y in some
  {
    if y !in some {
      DistinctElements(all);
      DistinctElements(some);
      SubsetSize(Elements(some), Elements(all) - {y});
    }
  }

  /** A row with NaN is promising only once every clean row is. */
  lemma NanGoodLast(rows: seq<Point>, dims: nat, gamma: nat, ranks: seq<nat>, limit: nat, b: nat, i: nat, j: nat)
    requires Shaped(rows, dims) && Ranked(rows, gamma, ranks, limit) && |ranks| == |rows| && IsBoundary(ranks, gamma, b)
    requires i in GoodLocal(rows, dims, ranks, gamma, b) && HasNan(rows[i]) && j < |rows| && !HasNan(rows[j])
    ensures j in GoodLocal(rows, dims, ranks, gamma, b)
  {
    hide HasNan, Certified, GoodLocal, IsBoundary, Emitted;
    GoodIn(rows, dims, ranks, gamma, b);
  }

  /** Row `j` dominates row `i`, or row `i` has a NaN and row `j` has none. */
  ghost predicate Surpasses(rows: seq<Point>, j: nat, i: nat) {
    Dominates(rows, j, i) || (i < |rows| && j < |rows| && HasNan(rows[i]) && !HasNan(rows[j]))
  }

  lemma NoPoorSurpassesGood(rows: seq<Point>, dims: nat, gamma: nat, ranks: seq<nat>, limit: nat, b: nat, i: nat,
                            j: nat)
    requires Shaped(rows, dims) && Ranked(rows, gamma, ranks, limit) && |ranks| == |rows| && IsBoundary(ranks, gamma, b)
    requires i in GoodLocal(rows, dims, ranks, gamma, b) && j !in GoodLocal(rows, dims, ranks, gamma, b)
    ensures !Surpasses(rows, j, i)
  {
    hide HasNan, Dominates, Ranked, GoodLocal, IsBoundary;
    NoPoorDominatesGood(rows, dims, gamma, ranks, limit, b, i, j);
    if Surpasses(rows, j, i) {
      NanGoodLast(rows, dims, gamma, ranks, limit, b, i, j);
    }
  }

  /** Two rankings give the same groups below `m`. */
  ghost predicate AgreeBelow(ranks: seq<nat>, ranks': seq<nat>, m: nat) {
    |ranks| == |ranks'| && forall i :: 0 <= i < |ranks| ==> (ranks[i] < m || ranks'[i] < m ==> ranks[i] == ranks'[i])
  }

  lemma {:induction false} AgreeGroup(ranks: seq<nat>, ranks': seq<nat>, m: nat, r: nat)
    requires AgreeBelow(ranks, ranks', m) && r < m
    ensures Group(ranks, r) == Group(ranks', r)
    decreases |ranks|
  {
    if ranks != [] {
      var n := |ranks| - 1;
      AgreeGroup(ranks[..n], ranks'[..n], m, r);
    }
  }

  lemma {:induction false} AgreeGroupsBelow(ranks: seq<nat>, ranks': seq<nat>, m: nat, b: nat)
    requires AgreeBelow(ranks, ranks', m) && b <= m
    ensures GroupsBelow(ranks, b) == GroupsBelow(ranks', b)
    decreases b
  {
    hide Group, AgreeBelow;
    if b > 0 {
      AgreeGroupsBelow(ranks, ranks', m, b - 1);
      AgreeGroup(ranks, ranks', m, b - 1);
    }
  }

  /** Where the two rankings agree, the larger quota keeps every row of the smaller one. */
  lemma AgreeNest(rows: seq<Point>, dims: nat, ranks: seq<nat>, gamma: nat, b: nat, ranks': seq<nat>, gamma': nat,
                  b': nat, m: nat)
    requires Shaped(rows, dims) && |ranks| == |ranks'| == |rows| && gamma <= gamma'
    requires IsBoundary(ranks, gamma, b) && IsBoundary(ranks', gamma', b')
    requires AgreeBelow(ranks, ranks', m)
    requires b < m || (b == m && |GroupsBelow(ranks, b)| == gamma)
    ensures forall x :: x in GoodLocal(rows, dims, ranks, gamma, b) ==> x in GoodLocal(rows, dims, ranks', gamma', b')
  {
    hide Group, AgreeBelow, GroupsBelow, GoodLocal;
    GoodIn(rows, dims, ranks, gamma, b);
    GoodIn(rows, dims, ranks', gamma', b');
    if b' < b {
      AgreeGroupsBelow(ranks, ranks', m, b' + 1);
      GroupsBelowGrows(ranks, b' + 1, b);
    } else if b' > b {
      forall x | x in GoodLocal(rows, dims, ranks, gamma, b) ensures ranks'[x] < b' {
        AgreeAt(ranks, ranks', m, x);
        if b == m {
          assert ranks[x] < b;
        }
      }
    } else if b == m {
      forall x | x in GoodLocal(rows, dims, ranks, gamma, b) ensures ranks'[x] < b' {
        AgreeAt(ranks, ranks', m, x);
      }
    } else {
      SameBoundaryNest(rows, dims, ranks, gamma, b, ranks', gamma', m);
    }
  }

  lemma AgreeAt(ranks: seq<nat>, ranks': seq<nat>, m: nat, x: nat)
    requires AgreeBelow(ranks, ranks', m) && x < |ranks| && ranks[x] < m
    ensures ranks'[x] == ranks[x]
  {
  }

  lemma SameBoundaryNest(rows: seq<Point>, dims: nat, ranks: seq<nat>, gamma: nat, b: nat, ranks': seq<nat>,
                         gamma': nat, m: nat)
    requires Shaped(rows, dims) && |ranks| == |ranks'| == |rows| && gamma <= gamma'
    requires IsBoundary(ranks, gamma, b) && IsBoundary(ranks', gamma', b)
    requires AgreeBelow(ranks, ranks', m) && b < m
    ensures forall x :: x in GoodLocal(rows, dims, ranks, gamma, b) ==> x in GoodLocal(rows, dims, ranks', gamma', b)
  {
    hide Group, AgreeBelow, GroupsBelow, BoundaryPicks;
    AgreeGroupsBelow(ranks, ranks', m, b);
    AgreeGroup(ranks, ranks', m, b);
    BoundaryRoom(ranks, gamma, b);
    BoundaryRoom(ranks', gamma', b);
    var whole, group := GroupsBelow(ranks, b), Group(ranks, b);
    var k, l := gamma - |whole|, gamma' - |whole|;
    BoundaryPicksNest(Select(rows, group), dims, k, l);
    LookupNest(group, BoundaryPicks(Select(rows, group), dims, k), BoundaryPicks(Select(rows, group), dims, l));
  }

  lemma LookupNest(indices: seq<nat>, p: seq<nat>, q: seq<nat>)
    requires InRange(p, |indices|) && InRange(q, |indices|) && forall x :: x in p ==> x in q
    ensures forall x :: x in Lookup(indices, p) ==> x in Lookup(indices, q)
  {
    forall i | 0 <= i < |p| ensures indices[p[i]] in Lookup(indices, q) {
      assert p[i] in q;
      var j :| 0 <= j < |q| && q[j] == p[i];
      assert Lookup(indices, q)[j] == indices[p[i]];
    }
  }

  /** Every clean row has an exact rank. */
  ghost predicate Complete(rows: seq<Point>, ranks: seq<nat>, limit: nat) {
    forall i :: i in CleanSet(rows) && i < |ranks| ==> ranks[i] < limit
  }

  /** An upper end of exactness shared by two rankings of the same rows: no incomplete ranking
      stops below it. */
  ghost predicate ExactUpTo(rows: seq<Point>, ranks: seq<nat>, limit: nat, m: nat) {
    Complete(rows, ranks, limit) || m <= limit
  }

  lemma AgreeClean(rows: seq<Point>, gamma: nat, ranks: seq<nat>, limit: nat, gamma': nat, ranks': seq<nat>,
                   limit': nat, m: nat, i: nat)
    requires Ranked(rows, gamma, ranks, limit) && Ranked(rows, gamma', ranks', limit')
    requires ExactUpTo(rows, ranks, limit, m) && ExactUpTo(rows, ranks', limit', m)
    requires i in CleanSet(rows) && |ranks| == |ranks'| == |rows| && i < |rows| && ranks[i] < m
    ensures ranks[i] == ranks'[i]
  {
    hide HasNan, CleanSet, DomRel, NanRanked, Certified;
    var rel, dom := DomRel(rows), CleanSet(rows);
    DomRelWithin(rows);
    CertifiedBound(rel, dom, ranks, limit, i);
    CertifiedBound(rel, dom, ranks', limit', i);
    CertifiedAgree(rel, dom, ranks, limit, ranks', limit', i);
  }

  /** Below the shared end, NaN rows are never ranked, provided some clean row reaches it. */
  lemma NanAbove(rows: seq<Point>, ranks: seq<nat>, m: nat, i: nat, w: nat)
    requires NanRanked(rows, ranks) && i < |rows| && HasNan(rows[i]) && w in CleanSet(rows) && m <= ranks[w]
    ensures m < ranks[i]
  {
  }

  lemma {:induction false} NoGaps(rel: Rel, dom: set<nat>, ranks: seq<nat>, limit: nat, i: nat, r: nat) returns (j: nat)
    requires Certified(rel, dom, ranks, limit) && i in dom && i < |ranks| && r <= ranks[i]
    ensures j in dom && j < |ranks| && ranks[j] == r
    decreases ranks[i]
  {
    if ranks[i] == r {
      j := i;
    } else {
      assert Witnessed(rel, dom, ranks, i);
      var k :| k in dom && k < |ranks| && (k, i) in rel && ranks[k] + 1 == ranks[i];
      j := NoGaps(rel, dom, ranks, limit, k, r);
    }
  }

  /** Both rankings complete: they are the same list. */
  lemma CompleteAgree(rows: seq<Point>, gamma: nat, ranks: seq<nat>, limit: nat, gamma': nat, ranks': seq<nat>,
                      limit': nat)
    requires Ranked(rows, gamma, ranks, limit) && Ranked(rows, gamma', ranks', limit')
    requires Complete(rows, ranks, limit) && Complete(rows, ranks', limit')
    ensures ranks == ranks'
  {
    hide HasNan, DomRel, Certified, Emitted, NanRanked;
    forall i: nat | i < |rows| && i in CleanSet(rows) ensures ranks[i] == ranks'[i] {
      AgreeClean(rows, gamma, ranks, limit, gamma', ranks', limit', ranks[i] + 1, i);
    }
    NanAgree(rows, ranks, ranks');
  }

  lemma NanAgree(rows: seq<Point>, ranks: seq<nat>, ranks': seq<nat>)
    requires NanRanked(rows, ranks) && NanRanked(rows, ranks')
    requires forall i: nat :: i < |rows| && i in CleanSet(rows) ==> ranks[i] == ranks'[i]
    ensures ranks == ranks'
  {
  }

  /** An incomplete ranking that stops at `m` decides both rankings below `m`. */
  lemma IncompleteAgree(rows: seq<Point>, gamma: nat, ranks: seq<nat>, limit: nat, gamma': nat, ranks': seq<nat>,
                        limit': nat, m: nat, w: nat)
    requires Ranked(rows, gamma, ranks, limit) && Ranked(rows, gamma', ranks', limit')
    requires ExactUpTo(rows, ranks, limit, m) && ExactUpTo(rows, ranks', limit', m)
    requires w in CleanSet(rows) && w < |rows| && |ranks| == |ranks'| == |rows|
    requires m <= ranks[w] && m <= ranks'[w]
    ensures AgreeBelow(ranks, ranks', m)
  {
    hide HasNan, DomRel, Certified, Emitted, NanRanked;
    forall i: nat | i < |rows| && (ranks[i] < m || ranks'[i] < m) ensures ranks[i] == ranks'[i] {
      if HasNan(rows[i]) {
        NanAbove(rows, ranks, m, i, w);
        NanAbove(rows, ranks', m, i, w);
      } else if ranks[i] < m {
        AgreeClean(rows, gamma, ranks, limit, gamma', ranks', limit', m, i);
      } else {
        AgreeClean(rows, gamma', ranks', limit', gamma, ranks, limit, m, i);
      }
    }
  }

  /** A clean row without an exact rank in one ranking is at least as deep in any other. */
  lemma InexactIsDeep(rows: seq<Point>, gamma: nat, ranks: seq<nat>, limit: nat, gamma': nat, ranks': seq<nat>,
                      limit': nat, m: nat, w: nat)
    requires Ranked(rows, gamma, ranks, limit) && Ranked(rows, gamma', ranks', limit')
    requires ExactUpTo(rows, ranks', limit', m) && m <= limit
    requires w in CleanSet(rows) && w < |rows| && |ranks| == |ranks'| == |rows| && ranks[w] >= limit
    ensures m <= ranks[w] && m <= ranks'[w]
  {
    hide HasNan, CleanSet, DomRel, NanRanked, Certified, Emitted;
    var rel, dom := DomRel(rows), CleanSet(rows);
    DomRelWithin(rows);
    CertifiedBound(rel, dom, ranks, limit, w);
    CertifiedBound(rel, dom, ranks', limit', w);
    CertifiedAgree(rel, dom, ranks', limit', ranks, limit, w);
  }

  /** The boundary of a quota lies at or before the end of any ranking that has ranked that many. */
  lemma BoundaryBeforeEnd(rows: seq<Point>, ranks: seq<nat>, limit: nat, gamma: nat, b: nat, m: nat, w: nat)
    requires Certified(DomRel(rows), CleanSet(rows), ranks, limit) && |ranks| == |rows| && IsBoundary(ranks, gamma, b)
    requires w in CleanSet(rows) && w < |rows| && m <= ranks[w]
    requires |GroupsBelow(ranks, m)| >= gamma
    ensures b < m || (b == m && |GroupsBelow(ranks, b)| == gamma)
  {
    hide GroupsBelow, Certified, DomRel, CleanSet;
    var j := NoGaps(DomRel(rows), CleanSet(rows), ranks, limit, w, m);
    GroupsBelowGain(ranks, m, j);
    if b > m {
      GroupsBelowGrows(ranks, m + 1, b);
    }
  }

  /** Top sets nest: the promising set of a smaller quota is part of that of a larger one, although
      each call ranks only as far as its own quota needs. */
  lemma GoodNests(rows: seq<Point>, dims: nat, gamma: nat, ranks: seq<nat>, limit: nat, b: nat,
                  gamma': nat, ranks': seq<nat>, limit': nat, b': nat)
    requires Shaped(rows, dims) && gamma <= gamma' && |ranks| == |ranks'| == |rows|
    requires Ranked(rows, gamma, ranks, limit) && IsBoundary(ranks, gamma, b)
    requires Ranked(rows, gamma', ranks', limit') && IsBoundary(ranks', gamma', b')
    ensures forall x :: x in GoodLocal(rows, dims, ranks, gamma, b) ==> x in GoodLocal(rows, dims, ranks', gamma', b')
  {
    if Complete(rows, ranks, limit) && Complete(rows, ranks', limit') {
      CompleteAgree(rows, gamma, ranks, limit, gamma', ranks', limit');
      hide *;
      SelfAgree(ranks, b + 1);
      AgreeNest(rows, dims, ranks, gamma, b, ranks', gamma', b', b + 1);
    } else if Complete(rows, ranks', limit') || (!Complete(rows, ranks, limit) && limit <= limit') {
      FirstStops(rows, dims, gamma, ranks, limit, b, gamma', ranks', limit', b');
    } else {
      SecondStops(rows, dims, gamma, ranks, limit, b, gamma', ranks', limit', b');
    }
  }

  lemma SelfAgree(ranks: seq<nat>, m: nat)
    ensures AgreeBelow(ranks, ranks, m)
  {
  }

  lemma FirstStops(rows: seq<Point>, dims: nat, gamma: nat, ranks: seq<nat>, limit: nat, b: nat,
                   gamma': nat, ranks': seq<nat>, limit': nat, b': nat)
    requires Shaped(rows, dims) && gamma <= gamma' && |ranks| == |ranks'| == |rows|
    requires Ranked(rows, gamma, ranks, limit) && IsBoundary(ranks, gamma, b)
    requires Ranked(rows, gamma', ranks', limit') && IsBoundary(ranks', gamma', b')
    requires !Complete(rows, ranks, limit) && ExactUpTo(rows, ranks', limit', limit)
    ensures forall x :: x in GoodLocal(rows, dims, ranks, gamma, b) ==> x in GoodLocal(rows, dims, ranks', gamma', b')
  {
    hide HasNan, CleanSet, DomRel, NanRanked, Certified, Emitted, GoodLocal, IsBoundary, GroupsBelow;
    var w :| w in CleanSet(rows) && w < |ranks| && ranks[w] >= limit;
    InexactIsDeep(rows, gamma, ranks, limit, gamma', ranks', limit', limit, w);
    IncompleteAgree(rows, gamma, ranks, limit, gamma', ranks', limit', limit, w);
    QuotaReached(rows, gamma, ranks, limit, w);
    BoundaryBeforeEnd(rows, ranks, limit, gamma, b, limit, w);
    AgreeNest(rows, dims, ranks, gamma, b, ranks', gamma', b', limit);
  }

  lemma SecondStops(rows: seq<Point>, dims: nat, gamma: nat, ranks: seq<nat>, limit: nat, b: nat,
                    gamma': nat, ranks': seq<nat>, limit': nat, b': nat)
    requires Shaped(rows, dims) && gamma <= gamma' && |ranks| == |ranks'| == |rows|
    requires Ranked(rows, gamma, ranks, limit) && IsBoundary(ranks, gamma, b)
    requires Ranked(rows, gamma', ranks', limit') && IsBoundary(ranks', gamma', b')
    requires !Complete(rows, ranks', limit') && ExactUpTo(rows, ranks, limit, limit')
    ensures forall x :: x in GoodLocal(rows, dims, ranks, gamma, b) ==> x in GoodLocal(rows, dims, ranks', gamma', b')
  {
    hide HasNan, CleanSet, DomRel, NanRanked, Certified, Emitted, GoodLocal, IsBoundary, GroupsBelow, AgreeBelow;
    var w :| w in CleanSet(rows) && w < |ranks'| && ranks'[w] >= limit';
    InexactIsDeep(rows, gamma', ranks', limit', gamma, ranks, limit, limit', w);
    IncompleteAgree(rows, gamma, ranks, limit, gamma', ranks', limit', limit', w);
    QuotaReached(rows, gamma', ranks', limit', w);
    AgreeGroupsBelow(ranks, ranks', limit', limit');
    BoundaryBeforeEnd(rows, ranks, limit, gamma, b, limit', w);
    AgreeNest(rows, dims, ranks, gamma, b, ranks', gamma', b', limit');
  }
}
