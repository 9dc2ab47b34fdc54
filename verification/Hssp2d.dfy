/** The two-objective greedy of `solve_hssp_2d` (`hssp.rs`): each candidate keeps the one rectangle
    of its box that the picks so far leave uncovered. */
module Hssp2d {
  import opened FiniteSets
  import opened Coords
  import opened Orders
  import opened Cells
  import opened Greedy
  import opened LazyGreedy

  ghost function Rect(f0: int, f1: int, d0: int, d1: int): set<Point> {
    Box([f0, f1], [d0, d1])
  }

  lemma RectCells(f0: int, f1: int, d0: int, d1: int, x: Point)
    ensures x in Rect(f0, f1, d0, d1) <==> |x| == 2 && f0 <= x[0] < d0 && f1 <= x[1] < d1
  {
    BoxCells([f0, f1], [d0, d1], x);
  }

  lemma RectSize(f0: int, f1: int, d0: int, d1: int)
    ensures |Rect(f0, f1, d0, d1)| == Max(d0 - f0, 0) * Max(d1 - f1, 0)
  {
    hide Box;
    var p, r := [f0, f1], [d0, d1];
    BoxSize(p, r);
    assert p[..1] == [f0] && r[..1] == [d0];
    assert Volume([f0], [d0]) == Volume([], []) * Max(d0 - f0, 0);
  }

  /** What the picks leave of a row's box. */
  ghost function Left(p: Point, chosen: seq<Point>, r: Point): set<Point> {
    Piece(p, r) - Region(chosen, r)
  }

  lemma LeftAfter(p: Point, chosen: seq<Point>, s: Point, r: Point)
    ensures Left(p, chosen + [s], r) == Left(p, chosen, r) - Piece(s, r)
  {
    hide Piece, Region;
    RegionAppend(chosen, s, r);
  }

  lemma PieceCells(s: Point, r: Point, x: Point)
    requires |s| == |r| == 2 && !HasNan(s)
    ensures x in Piece(s, r) <==> |x| == 2 && s[0] <= x[0] < r[0] && s[1] <= x[1] < r[1]
  {
    BoxCells(s, r, x);
  }

  /** A pick to the right, and no higher, cuts the first side. */
  lemma CapFirst(p: Point, chosen: seq<Point>, s: Point, r: Point, d0: int, d1: int)
    requires |p| == |s| == |r| == 2 && !HasNan(p) && !HasNan(s)
    requires p[0] <= s[0] && s[1] <= p[1]
    requires Left(p, chosen, r) == Rect(p[0], p[1], d0, d1)
    ensures Left(p, chosen + [s], r) == Rect(p[0], p[1], Min(s[0], d0), d1)
  {
    hide Piece, Region, Rect;
    LeftAfter(p, chosen, s, r);
    forall x ensures x in Left(p, chosen + [s], r) <==> x in Rect(p[0], p[1], Min(s[0], d0), d1) {
      RectCells(p[0], p[1], d0, d1, x);
      RectCells(p[0], p[1], Min(s[0], d0), d1, x);
      PieceCells(s, r, x);
      PieceCells(p, r, x);
    }
  }

  /** A pick to the left cuts the second side. */
  lemma CapSecond(p: Point, chosen: seq<Point>, s: Point, r: Point, d0: int, d1: int)
    requires |p| == |s| == |r| == 2 && !HasNan(p) && !HasNan(s)
    requires s[0] <= p[0]
    requires Left(p, chosen, r) == Rect(p[0], p[1], d0, d1)
    ensures Left(p, chosen + [s], r) == Rect(p[0], p[1], d0, Min(s[1], d1))
  {
    hide Piece, Region, Rect;
    LeftAfter(p, chosen, s, r);
    forall x ensures x in Left(p, chosen + [s], r) <==> x in Rect(p[0], p[1], d0, Min(s[1], d1)) {
      RectCells(p[0], p[1], d0, d1, x);
      RectCells(p[0], p[1], d0, Min(s[1], d1), x);
      PieceCells(s, r, x);
      PieceCells(p, r, x);
    }
  }

  lemma Lex2(p: Point, q: Point)
    requires |p| == |q| == 2 && LexLe(p, q)
    ensures p[0] < q[0] || (p[0] == q[0] && p[1] <= q[1])
  {
  }

  /** A row that weakly dominates another gains at least as much. */
  lemma DominatorGainsMore(p: Point, q: Point, chosen: seq<Point>, r: Point)
    requires |p| == |q| == |r| && !HasNan(p) && WeakDom(p, q)
    ensures Gain(q, chosen, r) <= Gain(p, chosen, r)
  {
    WeakDomBox(p, q, r);
    hide Region, Box;
    SubsetSize(Piece(q, r) - Region(chosen, r), Piece(p, r) - Region(chosen, r));
  }

  /** The parallel arrays of the solver describe the candidates, in lexicographic order, and the
      rectangle each one still adds. */
  ghost predicate Describes(r: Point, cands: seq<Candidate>, chosen: seq<Point>,
                            f0: seq<int>, f1: seq<int>, d0: seq<int>, d1: seq<int>)
  {
    && |cands| == |f0| == |f1| == |d0| == |d1|
    && (forall j :: 0 <= j < |cands| ==> |cands[j].row| == 2 && !HasNan(cands[j].row))
    && (forall j :: 0 <= j < |cands| ==> f0[j] == cands[j].row[0] && f1[j] == cands[j].row[1])
    && (forall j :: 0 <= j < |cands| ==> Left(cands[j].row, chosen, r) == Rect(f0[j], f1[j], d0[j], d1[j]))
    && (forall i, j :: 0 <= i < j < |cands| ==> LexLe(cands[i].row, cands[j].row))
  }

  /** The loop that takes the first largest rectangle. */
  method BestRectangle(r: Point, ghost cands: seq<Candidate>, ghost chosen: seq<Point>,
                       f0: seq<int>, f1: seq<int>, d0: seq<int>, d1: seq<int>) returns (best: nat)
    requires Describes(r, cands, chosen, f0, f1, d0, d1) && cands != []
    ensures best == NextPick(r, cands, chosen) && best < |f0|
  {
    hide Describes, NextPick, Gain;
    ghost var gains := Gains(r, cands, chosen);
    RectangleGain(r, cands, chosen, f0, f1, d0, d1);
    best := 0;
    var bestContrib := Max(d0[0] - f0[0], 0) * Max(d1[0] - f1[0], 0);
    for j := 1 to |f0|
      invariant best < j && bestContrib == gains[best]
      invariant forall i :: 0 <= i < j ==> gains[i] <= bestContrib
      invariant forall i :: 0 <= i < best ==> gains[i] < bestContrib
    {
      var contrib := Max(d0[j] - f0[j], 0) * Max(d1[j] - f1[j], 0);
      if contrib > bestContrib {
        bestContrib := contrib;
        best := j;
      }
    }
    FirstMaxUnique(gains, best);
    assert best == NextPick(r, cands, chosen) by { PickIsFirstMax(r, cands, chosen); }
  }

  lemma PickIsFirstMax(r: Point, cands: seq<Candidate>, chosen: seq<Point>)
    requires cands != []
    ensures NextPick(r, cands, chosen) == FirstMaxOf(Gains(r, cands, chosen))
  {
  }

  /** Each rectangle's area is the exact gain of its row. */
  lemma RectangleGain(r: Point, cands: seq<Candidate>, chosen: seq<Point>, f0: seq<int>, f1: seq<int>, d0: seq<int>,
                      d1: seq<int>)
    requires Describes(r, cands, chosen, f0, f1, d0, d1)
    ensures |f0| == |f1| == |d0| == |d1| == |cands|
    ensures forall j :: 0 <= j < |cands| ==>
      Gains(r, cands, chosen)[j] == Max(d0[j] - f0[j], 0) * Max(d1[j] - f1[j], 0)
  {
    hide Rect, Piece, Region, HasNan, LexLe;
    forall j | 0 <= j < |cands|
      ensures Gains(r, cands, chosen)[j] == Max(d0[j] - f0[j], 0) * Max(d1[j] - f1[j], 0)
    {
      RectSize(f0[j], f1[j], d0[j], d1[j]);
      assert Gain(cands[j].row, chosen, r) == |Left(cands[j].row, chosen, r)|;
    }
  }

  /** Before the pick in lexicographic order, no candidate is lower than it: such a candidate would
      dominate the pick and, coming first, would have been taken. */
  lemma EarlierIsHigher(r: Point, cands: seq<Candidate>, chosen: seq<Point>, best: nat, j: nat)
    requires |r| == 2 && best < |cands| && best == NextPick(r, cands, chosen) && j < best
    requires |cands[j].row| == |cands[best].row| == 2 && !HasNan(cands[j].row)
    requires LexLe(cands[j].row, cands[best].row)
    ensures cands[j].row[0] <= cands[best].row[0] && cands[best].row[1] <= cands[j].row[1]
  {
    hide Gain, HasNan;
    var p, s := cands[j].row, cands[best].row;
    Lex2(p, s);
    var gains := Gains(r, cands, chosen);
    FirstMaxOfIsFirstMax(gains);
    assert gains[j] < gains[best];
    if p[1] < s[1] {
      DominatorGainsMore(p, s, chosen, r);
    }
  }

  /** Shrinking the rectangles around the pick keeps them exact. */
  lemma CapKeepsDescription(r: Point, cands: seq<Candidate>, chosen: seq<Point>, best: nat,
                            f0: seq<int>, f1: seq<int>, d0: seq<int>, d1: seq<int>, e0: seq<int>, e1: seq<int>)
    requires |r| == 2 && Describes(r, cands, chosen, f0, f1, d0, d1) && best < |cands|
    requires best == NextPick(r, cands, chosen)
    requires |e0| == |e1| == |cands| - 1
    requires forall j :: 0 <= j < best ==> e0[j] == Min(f0[best], d0[j]) && e1[j] == d1[j]
    requires forall j :: best <= j < |e0| ==> e0[j] == d0[j + 1] && e1[j] == Min(f1[best], d1[j + 1])
    ensures Describes(r, Removed(cands, best, false), chosen + [cands[best].row],
                      Removed(f0, best, false), Removed(f1, best, false), e0, e1)
  {
    hide HasNan, LexLe, Rect, Left, NextPick;
    var rest, g0, g1 := Removed(cands, best, false), Removed(f0, best, false), Removed(f1, best, false);
    var s := cands[best].row;
    forall j | 0 <= j < |rest| ensures Left(rest[j].row, chosen + [s], r) == Rect(g0[j], g1[j], e0[j], e1[j]) {
      var i := Source(|cands|, best, false, j);
      var p := cands[i].row;
      if j < best {
        EarlierIsHigher(r, cands, chosen, best, j);
        CapFirst(p, chosen, s, r, d0[i], d1[i]);
      } else {
        Lex2(s, p);
        CapSecond(p, chosen, s, r, d0[i], d1[i]);
      }
    }
  }

  /** The two capping loops. */
  method CapSides(d0: seq<int>, d1: seq<int>, best: nat, s0: int, s1: int) returns (e0: seq<int>, e1: seq<int>)
    requires |d0| == |d1| && best <= |d0|
    ensures |e0| == |e1| == |d0|
    ensures forall j :: 0 <= j < best ==> e0[j] == Min(s0, d0[j]) && e1[j] == d1[j]
    ensures forall j :: best <= j < |d0| ==> e0[j] == d0[j] && e1[j] == Min(s1, d1[j])
  {
    e0, e1 := d0, d1;
    for j := 0 to best
      invariant |e0| == |d0|
      invariant forall i :: 0 <= i < j ==> e0[i] == Min(s0, d0[i])
      invariant forall i :: j <= i < |d0| ==> e0[i] == d0[i]
    {
      if s0 < e0[j] {
        e0 := e0[j := s0];
      }
    }
    for j := best to |d1|
      invariant |e1| == |d1|
      invariant forall i :: best <= i < j ==> e1[i] == Min(s1, d1[i])
      invariant forall i :: 0 <= i < |d1| && !(best <= i < j) ==> e1[i] == d1[i]
    {
      if s1 < e1[j] {
        e1 := e1[j := s1];
      }
    }
  }

  /** `solve_hssp_2d`: the picks of plain greedy, candidates in lexicographic order, removed in
      place. No assumption that the rows are mutually non-dominated is needed. */
  method SolveHssp2d(rows: seq<Point>, r: Point, subsetSize: nat) returns (selected: seq<nat>)
    requires |r| == 2 && Clean(rows, r) && subsetSize <= |rows|
    requires InRange(LexOrder(rows), |rows|)
    ensures selected == Positions(Picks(r, Cands(rows, LexOrder(rows)), [], subsetSize, false))
  {
    hide Gain, Picks, NextPick, LexOrder, Describes, HasNan, LexLe;
    LexOrderFacts(rows);
    var orig := LexOrder(rows);
    var f0: seq<int> := seq(|rows|, j requires 0 <= j < |rows| => rows[orig[j]][0]);
    var f1: seq<int> := seq(|rows|, j requires 0 <= j < |rows| => rows[orig[j]][1]);
    var d0: seq<int> := seq(|rows|, _ => r[0]);
    var d1: seq<int> := seq(|rows|, _ => r[1]);
    ghost var cands := Cands(rows, orig);
    ghost var all := Picks(r, cands, [], subsetSize, false);
    StartDescription(rows, r, orig, f0, f1, d0, d1);
    PicksLength(r, cands, [], subsetSize, false);
    selected := [];
    ghost var picked: seq<Candidate> := [];
    for k := 0 to subsetSize
      invariant |cands| == |orig| == |rows| - k && |picked| == k
      invariant forall j :: 0 <= j < |cands| ==> orig[j] == cands[j].pos
      invariant selected == Positions(picked)
      invariant picked + Picks(r, cands, Rows(picked), subsetSize - k, false) == all
      invariant Describes(r, cands, Rows(picked), f0, f1, d0, d1)
    {
      var best := BestRectangle(r, cands, Rows(picked), f0, f1, d0, d1);
      RectangleGain(r, cands, Rows(picked), f0, f1, d0, d1);
      PicksUnfold(r, cands, Rows(picked), subsetSize - k, false);
      selected := selected + [orig[best]];
      var s0, s1 := f0[best], f1[best];
      var e0, e1 := CapSides(Removed(d0, best, false), Removed(d1, best, false), best, s0, s1);
      CapKeepsDescription(r, cands, Rows(picked), best, f0, f1, d0, d1, e0, e1);
      assert Rows(picked + [cands[best]]) == Rows(picked) + [cands[best].row];
      picked := picked + [cands[best]];
      cands := Removed(cands, best, false);
      orig, f0, f1, d0, d1 := Removed(orig, best, false), Removed(f0, best, false), Removed(f1, best, false), e0, e1;
    }
    PicksLength(r, cands, Rows(picked), 0, false);
  }

  lemma StartDescription(rows: seq<Point>, r: Point, orig: seq<nat>, f0: seq<int>, f1: seq<int>, d0: seq<int>,
                         d1: seq<int>)
    requires |r| == 2 && Clean(rows, r) && LexSorted(rows, orig)
    requires |orig| == |f0| == |f1| == |d0| == |d1|
    requires forall j :: 0 <= j < |orig| ==> f0[j] == rows[orig[j]][0] && f1[j] == rows[orig[j]][1]
    requires forall j :: 0 <= j < |orig| ==> d0[j] == r[0] && d1[j] == r[1]
    ensures Describes(r, Cands(rows, orig), [], f0, f1, d0, d1)
  {
    hide HasNan, LexLe, Box;
    forall j | 0 <= j < |orig| ensures Left(rows[orig[j]], [], r) == Rect(f0[j], f1[j], d0[j], d1[j]) {
      var p := rows[orig[j]];
      assert p == [p[0], p[1]] && r == [r[0], r[1]];
      assert Region([], r) == {};
    }
  }
}
