/** Plain greedy hypervolume subset selection: the specification of `hssp.rs`. */
module Greedy {
  import opened FiniteSets
  import opened Coords
  import opened Cells

  /** What a row adds to the region of the rows already chosen. */
  ghost function Gain(p: Point, chosen: seq<Point>, r: Point): nat {
    |Piece(p, r) - Region(chosen, r)|
  }

  lemma GainIsDifference(p: Point, chosen: seq<Point>, r: Point)
    ensures Hv(chosen + [p], r) == Hv(chosen, r) + Gain(p, chosen, r)
  {
    RegionAppend(chosen, p, r);
    assert Region(chosen, r) + Piece(p, r) == Region(chosen, r) + (Piece(p, r) - Region(chosen, r));
  }

  /** What the rows of a list gain one after the other. */
  ghost function GainSum(picked: seq<Point>, chosen: seq<Point>, r: Point): nat {
    if picked == [] then 0 else Gain(picked[0], chosen, r) + GainSum(picked[1..], chosen + [picked[0]], r)
  }

  /** The gains of the rows picked add up to the measure of all rows chosen. */
  lemma {:induction false} GainsAddUp(picked: seq<Point>, chosen: seq<Point>, r: Point)
    ensures Hv(chosen + picked, r) == Hv(chosen, r) + GainSum(picked, chosen, r)
  {
    hide Hv, Gain;
    if picked == [] {
      assert chosen + picked == chosen;
    } else {
      GainIsDifference(picked[0], chosen, r);
      GainsAddUp(picked[1..], chosen + [picked[0]], r);
      assert chosen + picked == (chosen + [picked[0]]) + picked[1..];
    }
  }

  /** Gains only shrink as rows are chosen: the hypervolume is submodular. */
  lemma GainShrinks(p: Point, chosen: seq<Point>, q: Point, r: Point)
    ensures Gain(p, chosen + [q], r) <= Gain(p, chosen, r)
    ensures Gain(p, chosen + [q], r) <= |Piece(p, r) - Piece(q, r)|
  {
    RegionAppend(chosen, q, r);
    SubsetSize(Piece(p, r) - Region(chosen + [q], r), Piece(p, r) - Region(chosen, r));
    SubsetSize(Piece(p, r) - Region(chosen + [q], r), Piece(p, r) - Piece(q, r));
  }

  /** `a` is the first position of the greatest value. */
  ghost predicate FirstMax(vals: seq<int>, a: nat) {
    && a < |vals|
    && (forall i :: 0 <= i < |vals| ==> vals[i] <= vals[a])
    && (forall i :: 0 <= i < a ==> vals[i] < vals[a])
  }

  function FirstMaxOf(vals: seq<int>): (a: nat)
    requires vals != []
    ensures a < |vals|
  {
    var n := |vals| - 1;
    if n == 0 then 0
    else
      var b := FirstMaxOf(vals[..n]);
      if vals[n] > vals[b] then n else b
  }

  lemma {:induction false} FirstMaxOfIsFirstMax(vals: seq<int>)
    requires vals != []
    ensures FirstMax(vals, FirstMaxOf(vals))
  {
    var n := |vals| - 1;
    if n > 0 {
      var front := vals[..n];
      FirstMaxOfIsFirstMax(front);
      assert forall i :: 0 <= i < n ==> front[i] == vals[i];
    }
  }

  lemma FirstMaxUnique(vals: seq<int>, a: nat)
    requires FirstMax(vals, a)
    ensures FirstMaxOf(vals) == a
  {
  }

  /** A row together with its position in the caller's list. */
  datatype Candidate = Candidate(pos: nat, row: Point)

  function Rows(cands: seq<Candidate>): (rows: seq<Point>)
    ensures |rows| == |cands| && forall j :: 0 <= j < |cands| ==> rows[j] == cands[j].row
  {
    seq(|cands|, j requires 0 <= j < |cands| => cands[j].row)
  }

  ghost function Gains(r: Point, remaining: seq<Candidate>, chosen: seq<Point>): (g: seq<int>)
    ensures |g| == |remaining|
    ensures forall j :: 0 <= j < |g| ==> g[j] == Gain(remaining[j].row, chosen, r)
  {
    seq(|remaining|, j requires 0 <= j < |remaining| => Gain(remaining[j].row, chosen, r) as int)
  }

  /** Where the element at `j` of the shortened list came from: `swap_remove` moves the last element
      into the hole at `a`, `remove` shifts the rest down. */
  function Source(n: nat, a: nat, swap: bool, j: nat): (i: nat)
    requires a < n && j < n - 1
    ensures i < n && i != a
  {
    if swap then (if j == a then n - 1 else j) else if j < a then j else j + 1
  }

  function Removed<T>(xs: seq<T>, a: nat, swap: bool): (out: seq<T>)
    requires a < |xs|
    ensures |out| == |xs| - 1
    ensures forall j :: 0 <= j < |out| ==> out[j] == xs[Source(|xs|, a, swap, j)]
  {
    seq(|xs| - 1, j requires 0 <= j < |xs| - 1 => xs[Source(|xs|, a, swap, j)])
  }

  lemma RemovedKeeps<T>(xs: seq<T>, a: nat, swap: bool, i: nat)
    requires a < |xs| && i < |xs| && i != a
    ensures xs[i] in Removed(xs, a, swap)
  {
    var j := if swap then (if i == |xs| - 1 then a else i) else if i < a then i else i - 1;
    assert Removed(xs, a, swap)[j] == xs[i];
  }

  /** What is left in which order decides later ties. */
  lemma RemovedShape<T>(xs: seq<T>, a: nat)
    requires a < |xs|
    ensures Removed(xs, a, false) == xs[..a] + xs[a + 1..]
    ensures var front := xs[..|xs| - 1];
      Removed(xs, a, true) == if a < |front| then front[a := xs[|xs| - 1]] else front
  {
  }

  /** The position, among the remaining candidates, that greedy takes next. */
  ghost function NextPick(r: Point, remaining: seq<Candidate>, chosen: seq<Point>): (a: nat)
    requires remaining != []
    ensures a < |remaining|
  {
    FirstMaxOf(Gains(r, remaining, chosen))
  }

  /** No candidate gains more, and none before it as much. */
  lemma NextPickIsFirst(r: Point, remaining: seq<Candidate>, chosen: seq<Point>)
    requires remaining != []
    ensures var a := NextPick(r, remaining, chosen);
      && (forall j :: 0 <= j < |remaining| ==> Gain(remaining[j].row, chosen, r) <= Gain(remaining[a].row, chosen, r))
      && (forall j :: 0 <= j < a ==> Gain(remaining[j].row, chosen, r) < Gain(remaining[a].row, chosen, r))
  {
    FirstMaxOfIsFirstMax(Gains(r, remaining, chosen));
  }

  /** The picks of plain greedy: each round takes the first remaining candidate of greatest gain. */
  ghost function Picks(r: Point, remaining: seq<Candidate>, chosen: seq<Point>, k: nat,
                       swap: bool): (picks: seq<Candidate>)
    requires k <= |remaining|
    ensures |picks| == k
    decreases k
  {
    if k == 0 then []
    else
      var a := NextPick(r, remaining, chosen);
      var c := remaining[a];
      [c] + Picks(r, Removed(remaining, a, swap), chosen + [c.row], k - 1, swap)
  }

  /** Asking greedy for fewer picks gives a prefix of the longer answer. */
  lemma {:induction false} PicksPrefix(r: Point, remaining: seq<Candidate>, chosen: seq<Point>, k: nat, l: nat,
                                       swap: bool)
    requires k <= l <= |remaining|
    ensures Picks(r, remaining, chosen, k, swap) == Picks(r, remaining, chosen, l, swap)[..k]
    decreases k
  {
    hide NextPick;
    if k > 0 {
      var a := NextPick(r, remaining, chosen);
      var c := remaining[a];
      PicksPrefix(r, Removed(remaining, a, swap), chosen + [c.row], k - 1, l - 1, swap);
    }
  }

  /** A greedy run over some candidates, with no rule for ties: at no round would any of them, taken
      or not, have gained more than the pick. */
  ghost predicate IsGreedyRun(r: Point, cands: seq<Candidate>, picks: seq<Candidate>) {
    forall t, c :: 0 <= t < |picks| && c in cands ==>
      Gain(c.row, Rows(picks[..t]), r) <= Gain(picks[t].row, Rows(picks[..t]), r)
  }

  lemma ChosenGainsNothing(p: Point, chosen: seq<Point>, r: Point)
    requires p in chosen
    ensures Gain(p, chosen, r) == 0
  {
    var t :| 0 <= t < |chosen| && chosen[t] == p;
    PieceInRegion(chosen, t, r);
    assert Piece(p, r) - Region(chosen, r) == {};
  }

  /** Greedy picks form a greedy run: a candidate that was taken before gains nothing. */
  lemma {:induction false} PickIsBest(r: Point, remaining: seq<Candidate>, chosen: seq<Point>, k: nat, swap: bool,
                                      t: nat, c: Candidate)
    requires k <= |remaining| && t < k
    requires c in remaining || c.row in chosen
    ensures var picks := Picks(r, remaining, chosen, k, swap);
      Gain(c.row, chosen + Rows(picks[..t]), r) <= Gain(picks[t].row, chosen + Rows(picks[..t]), r)
    decreases k
  {
    hide NextPick, Gain, Removed;
    var a := NextPick(r, remaining, chosen);
    var picks := Picks(r, remaining, chosen, k, swap);
    var best := remaining[a];
    if t == 0 {
      assert chosen + Rows(picks[..0]) == chosen;
      if c in remaining {
        BestGain(r, remaining, chosen, c);
      } else {
        ChosenGainsNothing(c.row, chosen, r);
      }
    } else {
      var rest, more := Removed(remaining, a, swap), chosen + [best.row];
      StillThere(remaining, a, swap, chosen, c);
      PickIsBest(r, rest, more, k - 1, swap, t - 1, c);
      var tail := Picks(r, rest, more, k - 1, swap);
      assert picks == [best] + tail;
      assert chosen + Rows(picks[..t]) == more + Rows(tail[..t - 1]);
    }
  }

  /** A candidate is picked or stays. */
  lemma StillThere(remaining: seq<Candidate>, a: nat, swap: bool, chosen: seq<Point>, c: Candidate)
    requires a < |remaining| && (c in remaining || c.row in chosen)
    ensures c in Removed(remaining, a, swap) || c.row in chosen + [remaining[a].row]
  {
    if c in remaining && c != remaining[a] {
      var i :| 0 <= i < |remaining| && remaining[i] == c;
      RemovedKeeps(remaining, a, swap, i);
    }
  }

  lemma BestGain(r: Point, remaining: seq<Candidate>, chosen: seq<Point>, c: Candidate)
    requires c in remaining
    ensures Gain(c.row, chosen, r) <= Gain(remaining[NextPick(r, remaining, chosen)].row, chosen, r)
  {
    var gains := Gains(r, remaining, chosen);
    FirstMaxOfIsFirstMax(gains);
    var i :| 0 <= i < |remaining| && remaining[i] == c;
    assert gains[i] <= gains[FirstMaxOf(gains)];
  }

  lemma PicksAreGreedy(r: Point, cands: seq<Candidate>, k: nat, swap: bool)
    requires k <= |cands|
    ensures IsGreedyRun(r, cands, Picks(r, cands, [], k, swap))
  {
    hide Picks, Gain;
    var picks := Picks(r, cands, [], k, swap);
    forall t, c | 0 <= t < |picks| && c in cands
      ensures Gain(c.row, Rows(picks[..t]), r) <= Gain(picks[t].row, Rows(picks[..t]), r)
    {
      PickIsBest(r, cands, [], k, swap, t, c);
      assert [] + Rows(picks[..t]) == Rows(picks[..t]);
    }
  }

  ghost predicate DistinctPos(cands: seq<Candidate>) {
    forall i, j :: 0 <= i < j < |cands| ==> cands[i].pos != cands[j].pos
  }

  lemma RemovedDistinct(cands: seq<Candidate>, a: nat, swap: bool)
    requires a < |cands| && DistinctPos(cands)
    ensures DistinctPos(Removed(cands, a, swap))
    ensures forall c :: c in Removed(cands, a, swap) ==> c in cands && c.pos != cands[a].pos
  {
  }

  /** Greedy never picks a position twice, and only picks candidates. */
  lemma {:induction false} PicksDistinct(r: Point, remaining: seq<Candidate>, chosen: seq<Point>, k: nat, swap: bool)
    requires k <= |remaining| && DistinctPos(remaining)
    ensures DistinctPos(Picks(r, remaining, chosen, k, swap))
    ensures forall c :: c in Picks(r, remaining, chosen, k, swap) ==> c in remaining
    decreases k
  {
    hide NextPick;
    if k > 0 {
      var a := NextPick(r, remaining, chosen);
      var c := remaining[a];
      RemovedDistinct(remaining, a, swap);
      var rest := Picks(r, Removed(remaining, a, swap), chosen + [c.row], k - 1, swap);
      PicksDistinct(r, Removed(remaining, a, swap), chosen + [c.row], k - 1, swap);
      forall d | d in rest ensures d in remaining && d.pos != c.pos {
      }
    }
  }

  function Pow(b: nat, e: nat): nat {
    if e == 0 then 1 else b * Pow(b, e - 1)
  }

  lemma PowLaws(b: nat, e: nat)
    ensures Pow(b, 0) == 1 && Pow(b, e + 1) == b * Pow(b, e)
  {
  }

  /** Any list of rows exceeds the chosen ones by at most the sum of its gains. */
  lemma {:induction false} UnionBound(others: seq<Point>, chosen: seq<Point>, best: nat, r: Point)
    requires forall i :: 0 <= i < |others| ==> Gain(others[i], chosen, r) <= best
    ensures |Region(others, r) - Region(chosen, r)| <= |others| * best
  {
    hide Piece, Region;
    if others == [] {
      NoRegion(chosen, r);
    } else {
      var p, rest := others[0], others[1..];
      assert forall i :: 0 <= i < |rest| ==> rest[i] == others[i + 1];
      UnionBound(rest, chosen, best, r);
      var a, b := Piece(p, r) - Region(chosen, r), Region(rest, r) - Region(chosen, r);
      RegionCons(others, chosen, r);
      UnionSize(a, b, Region(others, r) - Region(chosen, r));
      assert Gain(others[0], chosen, r) == |a|;
      MulStep(|rest|, best);
    }
  }

  lemma NoRegion(chosen: seq<Point>, r: Point)
    ensures |Region([], r) - Region(chosen, r)| == 0
  {
    assert Region([], r) - Region(chosen, r) == {};
  }

  lemma RegionCons(rows: seq<Point>, chosen: seq<Point>, r: Point)
    requires rows != []
    ensures Region(rows, r) - Region(chosen, r)
      == (Piece(rows[0], r) - Region(chosen, r)) + (Region(rows[1..], r) - Region(chosen, r))
  {
  }

  lemma MulStep(n: nat, b: nat)
    ensures (n + 1) * b == b + n * b
  {
  }

  lemma UnionSize<T>(a: set<T>, b: set<T>, c: set<T>)
    requires c == a + b
    ensures |c| <= |a| + |b|
  {
  }

  lemma {:induction false} GapBound(others: seq<Point>, chosen: seq<Point>, best: nat, k: nat, r: Point)
    requires forall i :: 0 <= i < |others| ==> Gain(others[i], chosen, r) <= best
    requires |others| <= k
    ensures Hv(others, r) - Hv(chosen, r) <= k * best
  {
    UnionBound(others, chosen, best, r);
    var opt, have := Region(others, r), Region(chosen, r);
    SubsetSize(opt, (opt - have) + have);
    UnionSize(opt - have, have, (opt - have) + have);
    MulMonotone(|others|, k, best);
  }

  /** Every row is a candidate's, or holds a NaN and measures nothing. */
  ghost predicate Among(others: seq<Point>, cands: seq<Candidate>) {
    forall i :: 0 <= i < |others| ==> HasNan(others[i]) || exists c :: c in cands && c.row == others[i]
  }

  lemma NanGainsNothing(p: Point, chosen: seq<Point>, r: Point)
    requires HasNan(p)
    ensures Gain(p, chosen, r) == 0
  {
  }

  /** One round closes at least a k-th of the gap to any k rows. */
  lemma GreedyRound(r: Point, cands: seq<Candidate>, picks: seq<Candidate>, others: seq<Point>, k: nat, t: nat)
    requires IsGreedyRun(r, cands, picks) && t < |picks|
    requires |others| <= k && Among(others, cands)
    ensures k * (Hv(others, r) - Hv(Rows(picks[..t + 1]), r)) <= (k - 1) * (Hv(others, r) - Hv(Rows(picks[..t]), r))
  {
    hide Gain, Hv;
    var chosen, p := Rows(picks[..t]), picks[t].row;
    var best := Gain(p, chosen, r);
    GainIsDifference(p, chosen, r);
    assert Rows(picks[..t + 1]) == chosen + [p];
    forall i | 0 <= i < |others| ensures Gain(others[i], chosen, r) <= best {
      if HasNan(others[i]) {
        NanGainsNothing(others[i], chosen, r);
      } else {
        var c :| c in cands && c.row == others[i];
      }
    }
    GapBound(others, chosen, best, k, r);
    CloseGap(k, Hv(others, r) - Hv(chosen, r), best);
  }

  lemma CloseGap(k: nat, gap: int, best: nat)
    requires gap <= k * best
    ensures k * (gap - best) <= (k - 1) * gap
  {
  }

  lemma MulMonotone(a: int, b: int, c: int)
    requires a <= b && c >= 0
    ensures a * c <= b * c
  {
  }

  lemma {:induction false} GreedyRounds(r: Point, cands: seq<Candidate>, picks: seq<Candidate>, others: seq<Point>,
                                        k: nat, t: nat)
    requires IsGreedyRun(r, cands, picks) && t <= |picks|
    requires |others| <= k && 0 < k && Among(others, cands)
    ensures Pow(k, t) * (Hv(others, r) - Hv(Rows(picks[..t]), r)) <= Pow(k - 1, t) * Hv(others, r)
    decreases t
  {
    if t == 0 {
      EmptyHv(r);
    }
    hide Hv, IsGreedyRun, Among;
    var opt := Hv(others, r);
    if t > 0 {
      GreedyRounds(r, cands, picks, others, k, t - 1);
      GreedyRound(r, cands, picks, others, k, t - 1);
      Compound(k, t - 1, opt - Hv(Rows(picks[..t - 1]), r), opt - Hv(Rows(picks[..t]), r), opt);
    }
  }

  lemma Compound(k: nat, t: nat, before: int, after: int, opt: nat)
    requires 0 < k && k * after <= (k - 1) * before
    requires Pow(k, t) * before <= Pow(k - 1, t) * opt
    ensures Pow(k, t + 1) * after <= Pow(k - 1, t + 1) * opt
  {
    CompoundStep(k, Pow(k, t), Pow(k - 1, t), before, after, opt);
  }

  lemma CompoundStep(k: nat, a: nat, b: nat, before: int, after: int, opt: nat)
    requires 0 < k && k * after <= (k - 1) * before && a * before <= b * opt
    ensures (k * a) * after <= ((k - 1) * b) * opt
  {
    MulMonotone(k * after, (k - 1) * before, a);
    MulMonotone(a * before, b * opt, k - 1);
    assert (k * a) * after == (k * after) * a;
    assert (k - 1) * before * a == (a * before) * (k - 1);
    assert ((k - 1) * b) * opt == (b * opt) * (k - 1);
  }

  lemma EmptyHv(r: Point)
    ensures Hv([], r) == 0
  {
  }

  /** Greedy guarantee without e: `k^k (OPT - H) <= (k-1)^k OPT` against any `k` candidates. */
  lemma GreedyApproximation(r: Point, cands: seq<Candidate>, picks: seq<Candidate>, others: seq<Point>)
    requires IsGreedyRun(r, cands, picks) && picks != []
    requires |others| <= |picks| && Among(others, cands)
    ensures var k := |picks|;
      Pow(k, k) * (Hv(others, r) - Hv(Rows(picks), r)) <= Pow(k - 1, k) * Hv(others, r)
  {
    hide Hv, IsGreedyRun, Among;
    GreedyRounds(r, cands, picks, others, |picks|, |picks|);
    assert picks[..|picks|] == picks;
  }
}
