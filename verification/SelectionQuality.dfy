/** What a hypervolume subset selection is worth, on every path of `hssp.rs`. */
module SelectionQuality {
  import opened FiniteSets
  import opened Coords
  import opened Orders
  import opened Cells
  import opened Front
  import Hypervolume
  import opened NanRows
  import opened Greedy
  import opened LazyGreedy
  import opened Hssp

  lemma CleanSelectionDistinct(rows: seq<Point>, r: Point, k: nat)
    ensures Distinct(CleanSelection(rows, r, k))
  {
    hide GreedyPicks;
    if k < |rows| {
      GreedyPicksFacts(rows, r, k);
    }
  }

  lemma UptoDistinct(n: nat)
    ensures Distinct(Upto(n)) && Distinct([])
  {
  }

  /** No position is selected twice. */
  lemma SelectionDistinct(rows: seq<Point>, r: Point, k: nat)
    ensures Distinct(Selection(rows, r, k))
  {
    hide HasNan, CleanSelection, Distinct, NanPositions, Lookup, Select;
    if 0 < k < |rows| && !HasNan(r) {
      NanPositionsFacts(rows, false);
      NanPositionsFacts(rows, true);
      NanPositionsSplit(rows);
      var clean, nan := NanPositions(rows, false), NanPositions(rows, true);
      var take := Min(k, |clean|);
      CleanSelectionDistinct(Select(rows, clean), r, take);
      DistinctParts(clean, CleanSelection(Select(rows, clean), r, take), nan, k - take);
    } else {
      UptoDistinct(if k < |rows| then k else |rows|);
    }
  }

  lemma DistinctParts(clean: seq<nat>, inner: seq<nat>, nan: seq<nat>, p: nat)
    requires Distinct(clean) && Distinct(nan) && forall x :: x in clean ==> x !in nan
    requires InRange(inner, |clean|) && Distinct(inner) && p <= |nan|
    ensures Distinct(Lookup(clean, inner) + nan[..p])
  {
    var front := Lookup(clean, inner);
    forall i, j | 0 <= i < |front| && 0 <= j < p ensures front[i] != nan[j] {
      assert front[i] == clean[inner[i]];
      assert front[i] in clean && nan[j] in nan;
    }
    forall i, j | 0 <= i < j < |front| ensures front[i] != front[j] {
      assert inner[i] != inner[j];
    }
  }

  lemma CleanSelectionNests(rows: seq<Point>, r: Point, k: nat, l: nat)
    requires k <= l
    ensures forall x :: x in CleanSelection(rows, r, k) ==> x in CleanSelection(rows, r, l)
  {
    hide Picks, LexOrder, AllFinite;
    var small, large := CleanSelection(rows, r, k), CleanSelection(rows, r, l);
    if l >= |rows| {
      forall i | 0 <= i < |small| ensures small[i] in large {
        assert small[i] < |rows|;
      }
    } else {
      LexOrderFacts(rows);
      if |r| == 2 && AllFinite(rows) {
        PicksPrefix(r, Cands(rows, LexOrder(rows)), [], k, l, false);
      } else {
        PicksPrefix(r, Cands(rows, Upto(|rows|)), [], k, l, true);
      }
      forall i | 0 <= i < |small| ensures small[i] in large {
        assert small[i] == large[i];
      }
    }
  }

  /** Padded selections nest if what they pad does. */
  lemma PaddedNests(clean: seq<nat>, nan: seq<nat>, small: seq<nat>, large: seq<nat>, k: nat, l: nat, part: seq<nat>,
                    whole: seq<nat>)
    requires InRange(small, |clean|) && InRange(large, |clean|) && forall x :: x in small ==> x in large
    requires |small| == Min(k, |clean|) && |large| == Min(l, |clean|) && k <= l <= |clean| + |nan|
    requires part == Lookup(clean, small) + nan[..k - |small|] && whole == Lookup(clean, large) + nan[..l - |large|]
    ensures forall x :: x in part ==> x in whole
  {
    var front := Lookup(clean, small);
    forall i | 0 <= i < |front| ensures front[i] in whole {
      assert small[i] in large;
      var j :| 0 <= j < |large| && large[j] == small[i];
      assert whole[j] == front[i];
    }
    forall i | 0 <= i < k - |small| ensures nan[i] in whole {
      assert whole[|large| + i] == nan[i];
    }
  }

  /** Selections nest: asking for more keeps everything selected before. */
  lemma SelectionNests(rows: seq<Point>, r: Point, k: nat, l: nat)
    requires k <= l
    ensures forall x :: x in Selection(rows, r, k) ==> x in Selection(rows, r, l)
  {
    hide HasNan, CleanSelection, NanPositions, Lookup, Select;
    if l >= |rows| || k == 0 {
      forall x | x in Selection(rows, r, k) ensures x in Selection(rows, r, l) {
        var i :| 0 <= i < |Selection(rows, r, k)| && Selection(rows, r, k)[i] == x;
        UptoHolds(|rows|, x);
      }
    } else if HasNan(r) {
      UptoNests(k, l);
    } else {
      NanPositionsSplit(rows);
      var clean, nan := NanPositions(rows, false), NanPositions(rows, true);
      var pts, takeK, takeL := Select(rows, clean), Min(k, |clean|), Min(l, |clean|);
      CleanSelectionNests(pts, r, takeK, takeL);
      PaddedNests(clean, nan, CleanSelection(pts, r, takeK), CleanSelection(pts, r, takeL), k, l,
        Selection(rows, r, k), Selection(rows, r, l));
    }
  }

  lemma UptoHolds(n: nat, x: nat)
    ensures x in Upto(n) <==> x < n
  {
  }

  lemma UptoNests(k: nat, l: nat)
    requires k <= l
    ensures forall x :: x in Upto(k) ==> x in Upto(l)
  {
  }

  /** A NaN row is selected only when every clean row is. */
  lemma NanRowsLast(rows: seq<Point>, r: Point, k: nat, i: nat, j: nat)
    requires !HasNan(r) && i < |rows| && j < |rows|
    requires i in Selection(rows, r, k) && HasNan(rows[i]) && !HasNan(rows[j])
    ensures j in Selection(rows, r, k)
  {
    hide HasNan, CleanSelection;
    if 0 < k < |rows| {
      if k <= |NanPositions(rows, false)| {
        OnlyCleanSelected(rows, r, k);
      } else {
        AllCleanSelected(rows, r, k);
      }
    }
  }

  lemma OnlyCleanSelected(rows: seq<Point>, r: Point, k: nat)
    requires 0 < k < |rows| && !HasNan(r) && k <= |NanPositions(rows, false)|
    ensures forall t :: 0 <= t < k ==> !HasNan(rows[Selection(rows, r, k)[t]])
  {
    hide HasNan, CleanSelection;
    NanPositionsFacts(rows, false);
    NanPositionsSplit(rows);
    var clean := NanPositions(rows, false);
    var inner := CleanSelection(Select(rows, clean), r, k);
    forall t | 0 <= t < k ensures !HasNan(rows[Selection(rows, r, k)[t]]) {
      assert Selection(rows, r, k)[t] == clean[inner[t]];
      assert clean[inner[t]] in clean;
    }
  }

  lemma CleanCover(rows: seq<Point>, others: seq<nat>, kept: seq<nat>, r: Point)
    requires InRange(others, |rows|) && InRange(kept, |rows|)
    requires forall i: nat :: i < |rows| && !HasNan(rows[i]) ==> i in kept
    ensures Hv(Select(rows, others), r) <= Hv(Select(rows, kept), r)
  {
    hide HasNan;
    assert forall i: nat :: i < |rows| && HasNan(rows[i]) ==> Piece(rows[i], r) == {};
    Hypervolume.SubRegion(rows, others, kept, r);
    SubsetSize(Region(Select(rows, others), r), Region(Select(rows, kept), r));
  }

  lemma NoGap(k: nat, opt: nat, have: nat)
    requires 0 < k && opt <= have
    ensures Pow(k, k) * (opt - have) <= Pow(k - 1, k) * opt
  {
  }

  /** With enough clean rows, the rows selected are the greedy picks among them. */
  lemma SelectedRows(rows: seq<Point>, r: Point, k: nat)
    requires 0 < k < |NanPositions(rows, false)| && !HasNan(r)
    ensures Select(rows, Selection(rows, r, k)) == Rows(GreedyPicks(Select(rows, NanPositions(rows, false)), r, k))
  {
    hide HasNan, GreedyPicks, NanPositions;
    NanPositionsSplit(rows);
    var clean, nan := NanPositions(rows, false), NanPositions(rows, true);
    var pts := Select(rows, clean);
    GreedyPicksFacts(pts, r, k);
    assert Selection(rows, r, k) == Lookup(clean, CleanSelection(pts, r, k)) by {
      assert nan[..0] == [];
    }
  }

  lemma AllSelected(rows: seq<Point>, r: Point, k: nat)
    requires 0 < k && k >= |rows|
    ensures forall i: nat :: i < |rows| ==> i in Selection(rows, r, k)
  {
  }

  /** The order of a selection: clean rows first, then NaN rows in input order. */
  lemma SelectionOrder(rows: seq<Point>, r: Point, k: nat)
    requires 0 < k < |rows| && !HasNan(r)
    ensures var sel, clean := Selection(rows, r, k), Min(k, |NanPositions(rows, false)|);
      && (forall t :: 0 <= t < clean ==> !HasNan(rows[sel[t]]))
      && (forall t :: clean <= t < k ==> HasNan(rows[sel[t]]))
      && (forall s, t :: clean <= s < t < k ==> sel[s] < sel[t])
      && (forall i, t :: 0 <= i < |rows| && HasNan(rows[i]) && i !in sel && clean <= t < k ==> sel[t] < i)
  {
    hide HasNan, CleanSelection;
    NanPositionsFacts(rows, false);
    NanPositionsFacts(rows, true);
    NanPositionsAscend(rows, true);
    NanPositionsSplit(rows);
    var clean, nan := NanPositions(rows, false), NanPositions(rows, true);
    var sel, take := Selection(rows, r, k), Min(k, |clean|);
    forall t | 0 <= t < k ensures if t < take then sel[t] in clean else sel[t] == nan[t - take] {
      if t < take {
        assert sel[t] == clean[CleanSelection(Select(rows, clean), r, take)[t]];
      }
    }
    forall t | take <= t < k ensures HasNan(rows[sel[t]]) {
      assert nan[t - take] in nan;
    }
    forall q | 0 <= q < k - take ensures nan[q] in sel {
      assert sel[take + q] == nan[q];
    }
    forall i, t | 0 <= i < |rows| && HasNan(rows[i]) && i !in sel && take <= t < k ensures sel[t] < i {
      assert i in nan;
      var p :| 0 <= p < |nan| && nan[p] == i;
    }
  }

  lemma {:induction false} NanPositionsAscend(rows: seq<Point>, nan: bool)
    ensures forall s, t ::
      0 <= s < t < |NanPositions(rows, nan)| ==> NanPositions(rows, nan)[s] < NanPositions(rows, nan)[t]
  {
    hide HasNan;
    if rows != [] {
      NanPositionsAscend(rows[..|rows| - 1], nan);
    }
  }

  /** Every clean row selected gains the most of all rows at its turn, whichever path selected it. */
  lemma SelectionIsGreedy(rows: seq<Point>, r: Point, k: nat, t: nat, i: nat)
    requires 0 < k < |NanPositions(rows, false)| && !HasNan(r) && t < k && i < |rows|
    ensures var sel := Selection(rows, r, k);
      Gain(rows[i], Select(rows, sel[..t]), r) <= Gain(rows[sel[t]], Select(rows, sel[..t]), r)
  {
    hide HasNan, GreedyPicks, Selection, Gain, Select, NanPositions, Rows, Cands, IsGreedyRun;
    var clean, sel := NanPositions(rows, false), Selection(rows, r, k);
    var pts := Select(rows, clean);
    NanPositionsFacts(rows, false);
    if !HasNan(rows[i]) {
      var p :| 0 <= p < |clean| && clean[p] == i;
      CleanGain(rows, r, k, t, p);
    } else {
      NanGainsNothing(rows[i], Select(rows, sel[..t]), r);
    }
  }

  lemma NanGainsNothing(p: Point, chosen: seq<Point>, r: Point)
    requires HasNan(p)
    ensures Gain(p, chosen, r) == 0
  {
    assert Piece(p, r) - Region(chosen, r) == {};
  }

  lemma CleanGain(rows: seq<Point>, r: Point, k: nat, t: nat, p: nat)
    requires 0 < k < |NanPositions(rows, false)| && !HasNan(r) && t < k && p < |NanPositions(rows, false)|
    ensures var sel := Selection(rows, r, k);
      Gain(rows[NanPositions(rows, false)[p]], Select(rows, sel[..t]), r) <= Gain(rows[sel[t]],
        Select(rows, sel[..t]), r)
  {
    hide HasNan, GreedyPicks, Selection, Gain, NanPositions;
    var clean, sel := NanPositions(rows, false), Selection(rows, r, k);
    var pts := Select(rows, clean);
    var picks := GreedyPicks(pts, r, k);
    GreedyPicksFacts(pts, r, k);
    SelectedRows(rows, r, k);
    assert Select(rows, sel[..t]) == Select(rows, sel)[..t] == Rows(picks)[..t] == Rows(picks[..t]);
    var cands := Cands(pts, Upto(|pts|));
    assert cands[p] in cands && cands[p].row == pts[p] == rows[clean[p]];
    assert rows[sel[t]] == Select(rows, sel)[t] == picks[t].row;
  }

  /** `k` selected rows measure at least `1 - (1 - 1/k)^k` of any `k` rows, whichever path selected
      them: `k^k (OPT - H) <= (k-1)^k OPT`. */
  lemma SelectionApproximation(rows: seq<Point>, r: Point, k: nat, others: seq<nat>)
    requires 0 < k <= |rows| && !HasNan(r)
    requires InRange(others, |rows|) && |others| <= k
    ensures var opt := Hv(Select(rows, others), r);
      Pow(k, k) * (opt - Hv(Select(rows, Selection(rows, r, k)), r)) <= Pow(k - 1, k) * opt
  {
    hide HasNan, GreedyPicks, Hv, Pow, Selection, NanPositions, Rows, Select, Cands, Among, IsGreedyRun;
    var clean := NanPositions(rows, false);
    var sel := Selection(rows, r, k);
    NanPositionsFacts(rows, false);
    if k < |rows| && k < |clean| {
      var pts := Select(rows, clean);
      GreedyPicksFacts(pts, r, k);
      var picks := GreedyPicks(pts, r, k);
      SelectedRows(rows, r, k);
      OthersAmong(rows, clean, others);
      GreedyApproximation(r, Cands(pts, Upto(|pts|)), picks, Select(rows, others));
    } else {
      if k < |rows| {
        AllCleanSelected(rows, r, k);
      } else {
        AllSelected(rows, r, k);
      }
      CleanCover(rows, others, sel, r);
      NoGap(k, Hv(Select(rows, others), r), Hv(Select(rows, sel), r));
    }
  }

  lemma AllCleanSelected(rows: seq<Point>, r: Point, k: nat)
    requires 0 < k < |rows| && !HasNan(r) && |NanPositions(rows, false)| <= k
    ensures forall i: nat :: i < |rows| && !HasNan(rows[i]) ==> i in Selection(rows, r, k)
  {
    hide HasNan, GreedyPicks;
    NanPositionsFacts(rows, false);
    NanPositionsSplit(rows);
    var clean := NanPositions(rows, false);
    var sel := Selection(rows, r, k);
    forall i: nat | i < |rows| && !HasNan(rows[i]) ensures i in sel {
      assert i in clean;
      var s :| 0 <= s < |clean| && clean[s] == i;
      assert sel[s] == clean[s];
    }
  }

  lemma OthersAmong(rows: seq<Point>, clean: seq<nat>, others: seq<nat>)
    requires InRange(others, |rows|) && InRange(clean, |rows|)
    requires forall i: nat :: i in clean <==> i < |rows| && HasNan(rows[i]) == false
    ensures Among(Select(rows, others), Cands(Select(rows, clean), Upto(|clean|)))
  {
    hide HasNan;
    var cands := Cands(Select(rows, clean), Upto(|clean|));
    forall i | 0 <= i < |others| && !HasNan(rows[others[i]])
      ensures exists c :: c in cands && c.row == rows[others[i]]
    {
      assert others[i] in clean;
      var s :| 0 <= s < |clean| && clean[s] == others[i];
      assert cands[s] in cands && cands[s].row == rows[others[i]];
    }
  }
}
