/** Hypervolume subset selection (`hssp.rs`): dispatch, NaN policy, the one-entry memo, and what the
    selection is worth. */
module Hssp {
  import opened Options
  import opened Coords
  import opened Orders
  import opened Cells
  import opened Front
  import opened NanRows
  import opened Greedy
  import opened LazyGreedy
  import opened Hssp2d

  predicate AllFinite(rows: seq<Point>) {
    forall i, k :: 0 <= i < |rows| && 0 <= k < |rows[i]| ==> -INF < rows[i][k] < INF
  }

  /** The order in which the greedy of each path meets its candidates, and how it removes them. */
  ghost function GreedyPicks(rows: seq<Point>, r: Point, k: nat): (picks: seq<Candidate>)
    requires k <= |rows|
    ensures |picks| == k
  {
    LexOrderFacts(rows);
    if |r| == 2 && AllFinite(rows) then Picks(r, Cands(rows, LexOrder(rows)), [], k, false)
    else Picks(r, Cands(rows, Upto(|rows|)), [], k, true)
  }

  lemma GreedyPicksFacts(rows: seq<Point>, r: Point, k: nat)
    requires k <= |rows|
    ensures IsGreedyRun(r, Cands(rows, Upto(|rows|)), GreedyPicks(rows, r, k))
    ensures DistinctPos(GreedyPicks(rows, r, k))
    ensures forall j :: 0 <= j < k ==>
      var c := GreedyPicks(rows, r, k)[j]; c.pos < |rows| && c.row == rows[c.pos]
  {
    hide Picks, IsGreedyRun, LexOrder, AllFinite;
    LexOrderFacts(rows);
    var order := if |r| == 2 && AllFinite(rows) then LexOrder(rows) else Upto(|rows|);
    var swap := !(|r| == 2 && AllFinite(rows));
    var cands, all := Cands(rows, order), Cands(rows, Upto(|rows|));
    var picks := GreedyPicks(rows, r, k);
    PicksAreGreedy(r, cands, k, swap);
    PicksDistinct(r, cands, [], k, swap);
    forall j | 0 <= j < k ensures picks[j].pos < |rows| && picks[j].row == rows[picks[j].pos] {
      assert picks[j] in cands;
    }
    SameCands(r, rows, order, picks);
  }

  lemma SameCands(r: Point, rows: seq<Point>, order: seq<nat>, picks: seq<Candidate>)
    requires InRange(order, |rows|) && forall x: nat :: x < |rows| ==> x in order
    requires IsGreedyRun(r, Cands(rows, order), picks)
    ensures IsGreedyRun(r, Cands(rows, Upto(|rows|)), picks)
  {
    hide Gain;
    var cands, all := Cands(rows, order), Cands(rows, Upto(|rows|));
    forall c | c in all ensures c in cands {
      assert c.pos in order;
      var j :| 0 <= j < |order| && order[j] == c.pos;
      assert cands[j] == c;
    }
  }

  /** The selection among rows without NaN. */
  ghost function CleanSelection(rows: seq<Point>, r: Point, k: nat): (sel: seq<nat>)
    ensures InRange(sel, |rows|) && |sel| == Min(k, |rows|)
  {
    if k >= |rows| then Upto(|rows|)
    else
      GreedyPicksFacts(rows, r, k);
      Positions(GreedyPicks(rows, r, k))
  }

  /** Which path decides: two objectives with finite rows meet the rows in lexicographic order, all others in
      input order; either way in rounds of greatest gain. */
  lemma SelectionPaths(rows: seq<Point>, r: Point, k: nat)
    requires k < |rows|
    ensures |r| == 2 && (forall i, d :: 0 <= i < |rows| && 0 <= d < |rows[i]| ==> -INF < rows[i][d] < INF) ==>
      InRange(LexOrder(rows), |rows|)
      && CleanSelection(rows, r, k) == Positions(Picks(r, Cands(rows, LexOrder(rows)), [], k, false))
    ensures |r| != 2 || (exists i, d :: 0 <= i < |rows| && 0 <= d < |rows[i]| && !(-INF < rows[i][d] < INF)) ==>
      CleanSelection(rows, r, k) == Positions(Picks(r, Cands(rows, Upto(|rows|)), [], k, true))
  {
    hide Picks, LexOrder;
    LexOrderFacts(rows);
  }

  /** What `hypervolume_subset_selection` selects, as positions into its rows: plain greedy over the
      clean rows, padded with NaN rows in input order; everything when asked for as much; and input
      order when the reference itself holds a NaN. */
  ghost function Selection(rows: seq<Point>, r: Point, k: nat): (sel: seq<nat>)
    ensures InRange(sel, |rows|) && |sel| == Min(k, |rows|)
  {
    if k == 0 then []
    else if k >= |rows| then Upto(|rows|)
    else if HasNan(r) then Upto(k)
    else
      NanPositionsSplit(rows);
      var clean, nan := NanPositions(rows, false), NanPositions(rows, true);
      var take := Min(k, |clean|);
      Lookup(clean, CleanSelection(Select(rows, clean), r, take)) + nan[..k - take]
  }

  lemma SelectionAround(rows: seq<Point>, r: Point, k: nat)
    requires 0 < k < |rows| && !HasNan(r)
    ensures var clean, nan := NanPositions(rows, false), NanPositions(rows, true);
      var take := Min(k, |clean|);
      && |clean| + |nan| == |rows|
      && Selection(rows, r, k) == Lookup(clean, CleanSelection(Select(rows, clean), r, take)) + nan[..k - take]
  {
    hide HasNan, CleanSelection, NanPositions;
    NanPositionsSplit(rows);
  }

  /** Rows without NaN are selected from directly. */
  lemma SelectionOfClean(rows: seq<Point>, r: Point, k: nat)
    requires NoNan(rows) && !HasNan(r)
    ensures Selection(rows, r, k) == CleanSelection(rows, r, k)
  {
    hide HasNan, GreedyPicks;
    if 0 < k < |rows| {
      var clean := NanPositions(rows, false);
      NanPositionsSplit(rows);
      NanPositionsOfClean(rows);
      assert Select(rows, clean) == rows;
      assert Lookup(clean, CleanSelection(rows, r, k)) == CleanSelection(rows, r, k);
    }
  }

  function Flatten(rows: seq<Point>): (flat: seq<int>) {
    if rows == [] then [] else Flatten(rows[..|rows| - 1]) + rows[|rows| - 1]
  }

  /** Rows of one width are determined by their flat form and their number. */
  lemma {:induction false} FlattenInjective(rows: seq<Point>, other: seq<Point>, m: nat)
    requires Shaped(rows, m) && Shaped(other, m) && |rows| == |other| && Flatten(rows) == Flatten(other)
    ensures rows == other
  {
    if rows != [] {
      var n := |rows| - 1;
      var a, b := Flatten(rows[..n]), Flatten(other[..n]);
      assert |a + rows[n]| == |b + other[n]|;
      assert a == (a + rows[n])[..|a|] && rows[n] == (a + rows[n])[|a|..];
      assert b == (b + other[n])[..|b|] && other[n] == (b + other[n])[|b|..];
      FlattenInjective(rows[..n], other[..n], m);
      assert rows == rows[..n] + [rows[n]] && other == other[..n] + [other[n]];
    }
  }

  datatype CacheEntry = CacheEntry(lossValsFlat: seq<int>, indices: seq<nat>, subsetSize: nat, refPoint: Point,
                                   result: seq<nat>)

  /** An entry that answers every call it can match. */
  ghost predicate Truthful(e: CacheEntry) {
    forall rows: seq<Point> ::
      |rows| == |e.indices| && Shaped(rows, |e.refPoint|) && Flatten(rows) == e.lossValsFlat ==>
      e.result == Lookup(e.indices, Selection(rows, e.refPoint, e.subsetSize))
  }

  lemma NewEntryTruthful(rows: seq<Point>, indices: seq<nat>, r: Point, k: nat)
    requires |rows| == |indices| && Shaped(rows, |r|)
    ensures Truthful(CacheEntry(Flatten(rows), indices, k, r, Lookup(indices, Selection(rows, r, k))))
  {
    hide Selection;
    forall other: seq<Point> | |other| == |indices| && Shaped(other, |r|) && Flatten(other) == Flatten(rows)
      ensures other == rows
    {
      FlattenInjective(rows, other, |r|);
    }
  }

  /** Appends the named NaN rows in input order until `k` are selected. */
  method PadWith(out: seq<nat>, indices: seq<nat>, nan: seq<nat>, k: nat) returns (padded: seq<nat>)
    requires InRange(nan, |indices|) && |out| <= k <= |out| + |nan|
    ensures padded == out + Lookup(indices, nan[..k - |out|])
  {
    padded := out;
    for i := 0 to |nan|
      invariant |padded| <= k
      invariant padded == out + Lookup(indices, nan[..Min(i, k - |out|)])
    {
      if |padded| >= k {
        break;
      }
      assert nan[..i + 1] == nan[..i] + [nan[i]];
      padded := padded + [indices[nan[i]]];
    }
  }

  /** The solver with its least-recently-used memo of size one. */
  class Solver {
    var cache: Option<CacheEntry>

    ghost predicate Valid()
      reads this
    {
      cache.Some? ==> Truthful(cache.value)
    }

    constructor ()
      ensures Valid()
    {
      cache := None;
    }

    /** The cache probe: cheap lengths first, then every element. */
    method Probe(rows: seq<Point>, indices: seq<nat>, r: Point, k: nat) returns (hit: Option<seq<nat>>)
      requires Valid() && |rows| == |indices| && Shaped(rows, |r|)
      ensures hit.Some? ==> hit.value == Lookup(indices, Selection(rows, r, k))
    {
      hide Selection;
      if cache.None? {
        return None;
      }
      var e := cache.value;
      if e.subsetSize != k || |e.indices| != |indices| || |e.lossValsFlat| != |rows| * |r| || |e.refPoint| != |r| {
        return None;
      }
      if e.indices != indices || e.refPoint != r {
        return None;
      }
      var idx := 0;
      for i := 0 to |rows|
        invariant idx == |Flatten(rows[..i])| <= |e.lossValsFlat|
        invariant Flatten(rows[..i]) == e.lossValsFlat[..idx]
      {
        var row := rows[i];
        if idx + |row| > |e.lossValsFlat| || e.lossValsFlat[idx..idx + |row|] != row {
          return None;
        }
        assert rows[..i + 1][..i] == rows[..i];
        assert e.lossValsFlat[..idx + |row|] == e.lossValsFlat[..idx] + row;
        idx := idx + |row|;
      }
      assert rows[..|rows|] == rows;
      if idx != |e.lossValsFlat| {
        return None;
      }
      assert e.lossValsFlat[..idx] == e.lossValsFlat;
      hit := Some(e.result);
    }

    /** `hypervolume_subset_selection`. The memo changes nothing about the answer. */
    method HypervolumeSubsetSelection(rows: seq<Point>, indices: seq<nat>, r: Point, k: nat)
      returns (selected: seq<nat>)
      requires Valid() && |rows| == |indices|
      requires 0 < k < |rows| ==> r != [] && Shaped(rows, |r|)
      modifies this
      ensures Valid() && selected == Lookup(indices, Selection(rows, r, k))
      decreases |rows|
    {
      hide HasNan, GreedyPicks, AllFinite, Truthful;
      var n := |rows|;
      if k == 0 {
        return [];
      }
      if k >= n {
        assert indices == Lookup(indices, Upto(n));
        return indices;
      }
      if HasNan(r) {
        assert indices[..k] == Lookup(indices, Upto(k));
        return indices[..k];
      }
      if !NoNan(rows) {
        selected := SelectAroundNan(rows, indices, r, k);
        return;
      }
      var hit := Probe(rows, indices, r, k);
      if hit.Some? {
        return hit.value;
      }
      SelectionOfClean(rows, r, k);
      var pos := SelectClean(rows, r, k);
      selected := Lookup(indices, pos);
      NewEntryTruthful(rows, indices, r, k);
      cache := Some(CacheEntry(Flatten(rows), indices, k, r, selected));
    }

    /** The NaN branch: select among the clean rows, then pad with NaN rows in input order. */
    method SelectAroundNan(rows: seq<Point>, indices: seq<nat>, r: Point, k: nat) returns (out: seq<nat>)
      requires Valid() && |rows| == |indices| && 0 < k < |rows|
      requires r != [] && Shaped(rows, |r|) && !HasNan(r) && !NoNan(rows)
      modifies this
      ensures Valid() && out == Lookup(indices, Selection(rows, r, k))
      decreases |rows|, 0
    {
      hide HasNan, GreedyPicks, AllFinite, Truthful, CleanSelection, Selection, NanPositions;
      var clean, nan := PartitionNan(rows);
      NanPositionsSplit(rows);
      CleanRows(rows);
      SelectionAround(rows, r, k);
      var cleanRows := Select(rows, clean);
      var cleanOrig := Lookup(indices, clean);
      var take := Min(k, |clean|);
      out := HypervolumeSubsetSelection(cleanRows, cleanOrig, r, take);
      SelectionOfClean(cleanRows, r, take);
      ghost var inner := CleanSelection(cleanRows, r, take);
      assert out == Lookup(indices, Lookup(clean, inner));
      out := PadWith(out, indices, nan, k);
      assert out == Lookup(indices, Lookup(clean, inner) + nan[..k - take]);
    }

    /** The two greedy paths on clean rows. */
    method SelectClean(rows: seq<Point>, r: Point, k: nat) returns (pos: seq<nat>)
      requires r != [] && !HasNan(r) && Clean(rows, r) && 0 < k < |rows|
      ensures pos == CleanSelection(rows, r, k)
    {
      hide HasNan, Picks, LexOrder;
      LexOrderFacts(rows);
      if |r| == 2 && AllFinite(rows) {
        pos := SolveHssp2d(rows, r, k);
      } else {
        pos := SelectLazily(rows, r, k);
      }
    }
  }
}
