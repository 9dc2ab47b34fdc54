/** Kernel bandwidths of a numerical Parzen estimator (`parzen_estimator/model.rs`): a linear bucket
    pass replaces a stable sort. */
module Bandwidths {
  import opened Options
  import opened Orders

  function Max(a: real, b: real): real {
    if a < b then b else a
  }

  function Min(a: nat, b: nat): nat {
    if a < b then a else b
  }

  function Clamp(x: real, lo: real, hi: real): real
    requires lo <= hi
  {
    if x < lo then lo else if x > hi then hi else x
  }

  /** The stable sorting order: by value, then by position. */
  predicate Before(obs: seq<real>, i: nat, j: nat)
    requires i < |obs| && j < |obs|
  {
    obs[i] < obs[j] || (obs[i] == obs[j] && i < j)
  }

  /** The largest of the first `n` observations sorted before `i`. */
  function Left(obs: seq<real>, i: nat, n: nat): (left: Option<real>)
    requires i < |obs| && n <= |obs|
    ensures left.Some? ==> exists j: nat :: j < n && Before(obs, j, i) && obs[j] == left.value
    ensures forall j: nat :: j < n && Before(obs, j, i) ==> left.Some? && obs[j] <= left.value
  {
    if n == 0 then None
    else
      var rest := Left(obs, i, n - 1);
      if Before(obs, n - 1, i) && (rest.None? || rest.value < obs[n - 1]) then Some(obs[n - 1]) else rest
  }

  /** The smallest of the first `n` observations sorted after `i`. */
  function Right(obs: seq<real>, i: nat, n: nat): (right: Option<real>)
    requires i < |obs| && n <= |obs|
    ensures right.Some? ==> exists j: nat :: j < n && Before(obs, i, j) && obs[j] == right.value
    ensures forall j: nat :: j < n && Before(obs, i, j) ==> right.Some? && right.value <= obs[j]
  {
    if n == 0 then None
    else
      var rest := Right(obs, i, n - 1);
      if Before(obs, i, n - 1) && (rest.None? || obs[n - 1] < rest.value) then Some(obs[n - 1]) else rest
  }

  function LeftGap(obs: seq<real>, i: nat): (gap: Option<real>)
    requires i < |obs|
  {
    var left := Left(obs, i, |obs|);
    if left.None? then None else Some(obs[i] - left.value)
  }

  function RightGap(obs: seq<real>, i: nat): (gap: Option<real>)
    requires i < |obs|
  {
    var right := Right(obs, i, |obs|);
    if right.None? then None else Some(right.value - obs[i])
  }

  /** A bound raised by a gap, if there is one. */
  function Raised(bound: real, gap: Option<real>): real {
    if gap.None? then bound else Max(bound, gap.value)
  }

  function MinSigma(n: nat, low: real, high: real): real {
    (high - low) / Min(100, n + 2) as real
  }

  /** The bandwidth of observation `i`: its larger distance to the sorted neighbours (to the end points
      if it is alone), clamped. */
  function Bandwidth(obs: seq<real>, low: real, high: real, i: nat): real
    requires i < |obs| && low <= high
  {
    MinSigmaBelow(|obs|, low, high);
    var lo, hi := MinSigma(|obs|, low, high), high - low;
    if |obs| == 1 then Clamp(Max(obs[0] - low, high - obs[0]), lo, hi)
    else Clamp(Raised(Raised(0.0, LeftGap(obs, i)), RightGap(obs, i)), lo, hi)
  }

  lemma MinSigmaBelow(n: nat, low: real, high: real)
    requires low <= high
    ensures 0.0 <= MinSigma(n, low, high) <= high - low
  {
  }

  ghost predicate InSpace(obs: seq<real>, low: real, high: real) {
    forall i :: 0 <= i < |obs| ==> low <= obs[i] <= high
  }

  /** The bin of a value; a bin width of zero puts everything in the first. */
  function Index(v: real, low: real, width: real, bins: nat): nat
    requires bins > 0 && low <= v && width >= 0.0
  {
    if width == 0.0 then 0
    else
      DivNonNegative(v - low, width);
      Min(((v - low) / width).Floor, bins - 1)
  }

  lemma DivNonNegative(x: real, w: real)
    requires x >= 0.0 && w > 0.0
    ensures x / w >= 0.0
  {
  }

  lemma DivMonotone(x: real, y: real, w: real)
    requires x <= y && w > 0.0
    ensures x / w <= y / w
  {
  }

  lemma IndexMonotone(u: real, v: real, low: real, width: real, bins: nat)
    requires bins > 0 && low <= u <= v && width >= 0.0
    ensures Index(u, low, width, bins) <= Index(v, low, width, bins) < bins
  {
    if width > 0.0 {
      DivMonotone(u - low, v - low, width);
    }
  }

  /** Values in one bin are no farther apart than its width. */
  lemma SameBinClose(u: real, v: real, low: real, high: real, bins: nat)
    requires bins > 0 && low <= u <= v <= high
    requires Index(u, low, (high - low) / bins as real, bins) == Index(v, low, (high - low) / bins as real, bins)
    ensures v - u <= (high - low) / bins as real
  {
    var width := (high - low) / bins as real;
    WidthTimes(high - low, bins);
    if width > 0.0 {
      CloseIn(u - low, v - low, width, bins);
    }
  }

  function Times(a: real, b: real): real {
    a * b
  }

  lemma WidthTimes(all: real, bins: nat)
    requires bins > 0 && all >= 0.0
    ensures all / bins as real >= 0.0 && Times(bins as real, all / bins as real) == all
    ensures all / bins as real == 0.0 ==> all == 0.0
  {
  }

  lemma CloseIn(x: real, y: real, w: real, bins: nat)
    requires w > 0.0 && bins > 0 && 0.0 <= x <= y <= Times(bins as real, w)
    requires x / w >= 0.0 && y / w >= 0.0 && Min((x / w).Floor, bins - 1) == Min((y / w).Floor, bins - 1)
    ensures y - x <= w
  {
    hide Times;
    QuotientTimes(x, w);
    QuotientTimes(y, w);
    DivMonotone(x, y, w);
    if y / w > bins as real {
      TimesLess(bins as real, y / w, w);
    }
    FloorsClose(x / w, y / w, bins);
    TimesPlusOne(x / w, w);
    if y / w < x / w + 1.0 {
      TimesLess(y / w, x / w + 1.0, w);
    }
  }

  lemma FloorsClose(p: real, q: real, bins: nat)
    requires 0.0 <= p <= q <= bins as real && bins > 0 && Min(p.Floor, bins - 1) == Min(q.Floor, bins - 1)
    ensures q - p <= 1.0
  {
  }

  lemma QuotientTimes(x: real, w: real)
    requires w > 0.0
    ensures Times(x / w, w) == x
  {
  }

  lemma TimesLess(p: real, q: real, w: real)
    requires w > 0.0 && p < q
    ensures Times(p, w) < Times(q, w)
  {
  }

  lemma TimesPlusOne(p: real, w: real)
    ensures Times(p + 1.0, w) == Times(p, w) + w
  {
  }

  /** The extremes of one bin: its first and last member in sorting order. */
  datatype Bin = Empty | Bin(min: real, minIndex: nat, max: real, maxIndex: nat)

  predicate InBin(obs: seq<real>, low: real, width: real, bins: nat, i: nat, b: nat)
    requires i < |obs| && bins > 0 && width >= 0.0
  {
    low <= obs[i] && Index(obs[i], low, width, bins) == b
  }

  /** `bin` holds the extremes of bin `b` among the first `n` observations. */
  ghost predicate Extremes(obs: seq<real>, low: real, width: real, bins: nat, n: nat, b: nat, bin: Bin)
    requires n <= |obs| && bins > 0 && width >= 0.0
  {
    match bin
    case Empty => forall j: nat :: j < n ==> !InBin(obs, low, width, bins, j, b)
    case Bin(min, minIndex, max, maxIndex) =>
      && minIndex < n && obs[minIndex] == min && InBin(obs, low, width, bins, minIndex, b)
      && maxIndex < n && obs[maxIndex] == max && InBin(obs, low, width, bins, maxIndex, b)
      && forall j: nat :: j < n && InBin(obs, low, width, bins, j, b) ==>
           (j == minIndex || Before(obs, minIndex, j)) && (j == maxIndex || Before(obs, j, maxIndex))
  }

  /** The first loop of `binned_sigmas`. */
  method FillBins(obs: seq<real>, low: real, high: real, width: real, bins: nat) returns (filled: Option<seq<Bin>>)
    requires bins > 0 && width >= 0.0
    ensures filled.Some? <==> InSpace(obs, low, high)
    ensures filled.Some? ==>
      && |filled.value| == bins
      && forall b: nat :: b < bins ==> Extremes(obs, low, width, bins, |obs|, b, filled.value[b])
  {
    hide Index;
    var table: seq<Bin> := seq(bins, _ => Empty);
    for i := 0 to |obs|
      invariant |table| == bins && InSpace(obs[..i], low, high)
      invariant forall b: nat :: b < bins ==> Extremes(obs, low, width, bins, i, b, table[b])
    {
      var v := obs[i];
      if !(low <= v <= high) {
        return None;
      }
      IndexMonotone(v, v, low, width, bins);
      var b := Index(v, low, width, bins);
      var bin := table[b];
      ghost var was := table;
      assert forall c: nat :: InBin(obs, low, width, bins, i, c) <==> c == b;
      if bin.Empty? || v < bin.min {
        bin := if bin.Empty? then Bin(v, i, v, i) else bin.(min := v, minIndex := i);
      }
      if v >= bin.max {
        bin := bin.(max := v, maxIndex := i);
      }
      table := table[b := bin];
      forall c: nat | c < bins ensures Extremes(obs, low, width, bins, i + 1, c, table[c]) {
        assert Extremes(obs, low, width, bins, i, c, was[c]);
      }
    }
    assert obs[..|obs|] == obs;
    filled := Some(table);
  }

  /** What both loops rely on: the table of bins of all observations. */
  ghost predicate Table(obs: seq<real>, low: real, high: real, bins: nat, table: seq<Bin>) {
    && low <= high && InSpace(obs, low, high) && |table| == bins > 0
    && forall b: nat :: b < bins ==> Extremes(obs, low, (high - low) / bins as real, bins, |obs|, b, table[b])
  }

  function BinOf(obs: seq<real>, low: real, high: real, bins: nat, i: nat): (b: nat)
    requires i < |obs| && bins > 0 && low <= high && low <= obs[i] <= high
    ensures b < bins
  {
    Index(obs[i], low, (high - low) / bins as real, bins)
  }

  /** An observation that is not the first of its bin has a neighbour on the left within the width. */
  lemma InnerLeft(obs: seq<real>, low: real, high: real, bins: nat, table: seq<Bin>, i: nat)
    requires Table(obs, low, high, bins, table) && i < |obs|
    requires table[BinOf(obs, low, high, bins, i)].Bin? && table[BinOf(obs, low, high, bins, i)].minIndex != i
    ensures LeftGap(obs, i).Some? && LeftGap(obs, i).value <= (high - low) / bins as real
  {
    hide Index;
    var b := BinOf(obs, low, high, bins, i);
    var j := table[b].minIndex;
    assert Extremes(obs, low, (high - low) / bins as real, bins, |obs|, b, table[b]);
    assert InBin(obs, low, (high - low) / bins as real, bins, i, b) && Before(obs, j, i);
    SameBinClose(obs[j], obs[i], low, high, bins);
  }

  lemma InnerRight(obs: seq<real>, low: real, high: real, bins: nat, table: seq<Bin>, i: nat)
    requires Table(obs, low, high, bins, table) && i < |obs|
    requires table[BinOf(obs, low, high, bins, i)].Bin? && table[BinOf(obs, low, high, bins, i)].maxIndex != i
    ensures RightGap(obs, i).Some? && RightGap(obs, i).value <= (high - low) / bins as real
  {
    hide Index;
    var b := BinOf(obs, low, high, bins, i);
    var j := table[b].maxIndex;
    assert Extremes(obs, low, (high - low) / bins as real, bins, |obs|, b, table[b]);
    assert InBin(obs, low, (high - low) / bins as real, bins, i, b) && Before(obs, i, j);
    SameBinClose(obs[i], obs[j], low, high, bins);
  }

  /** The largest observation in the bins below `b`. */
  ghost predicate TopBelow(obs: seq<real>, low: real, high: real, bins: nat, b: nat, top: Option<real>)
    requires bins > 0 && low <= high && InSpace(obs, low, high)
  {
    && (top.Some? ==> exists j: nat :: j < |obs| && BinOf(obs, low, high, bins, j) < b && obs[j] == top.value)
    && (forall j: nat :: j < |obs| && BinOf(obs, low, high, bins, j) < b ==> top.Some? && obs[j] <= top.value)
  }

  /** The smallest observation in the bins from `b` on. */
  ghost predicate BottomFrom(obs: seq<real>, low: real, high: real, bins: nat, b: nat, bottom: Option<real>)
    requires bins > 0 && low <= high && InSpace(obs, low, high)
  {
    && (bottom.Some? ==> exists j: nat :: j < |obs| && BinOf(obs, low, high, bins, j) >= b && obs[j] == bottom.value)
    && (forall j: nat :: j < |obs| && BinOf(obs, low, high, bins, j) >= b ==> bottom.Some? && bottom.value <= obs[j])
  }

  lemma BinsMonotone(obs: seq<real>, low: real, high: real, bins: nat, i: nat, j: nat)
    requires bins > 0 && low <= high && InSpace(obs, low, high) && i < |obs| && j < |obs| && obs[i] <= obs[j]
    ensures BinOf(obs, low, high, bins, i) <= BinOf(obs, low, high, bins, j)
  {
    hide Index;
    WidthTimes(high - low, bins);
    IndexMonotone(obs[i], obs[j], low, (high - low) / bins as real, bins);
  }

  /** What sorts before the first of a bin is what the lower bins hold. */
  lemma BeforeFirst(obs: seq<real>, low: real, high: real, bins: nat, table: seq<Bin>, i: nat, j: nat)
    requires Table(obs, low, high, bins, table) && i < |obs| && j < |obs|
    requires table[BinOf(obs, low, high, bins, i)].Bin? && table[BinOf(obs, low, high, bins, i)].minIndex == i
    ensures Before(obs, j, i) <==> BinOf(obs, low, high, bins, j) < BinOf(obs, low, high, bins, i)
  {
    hide Index;
    var b := BinOf(obs, low, high, bins, i);
    assert Extremes(obs, low, (high - low) / bins as real, bins, |obs|, b, table[b]);
    assert BinOf(obs, low, high, bins, j) == b ==> InBin(obs, low, (high - low) / bins as real, bins, j, b);
    if obs[j] <= obs[i] {
      BinsMonotone(obs, low, high, bins, j, i);
    } else {
      BinsMonotone(obs, low, high, bins, i, j);
    }
  }

  lemma AfterLast(obs: seq<real>, low: real, high: real, bins: nat, table: seq<Bin>, i: nat, j: nat)
    requires Table(obs, low, high, bins, table) && i < |obs| && j < |obs|
    requires table[BinOf(obs, low, high, bins, i)].Bin? && table[BinOf(obs, low, high, bins, i)].maxIndex == i
    ensures Before(obs, i, j) <==> BinOf(obs, low, high, bins, j) > BinOf(obs, low, high, bins, i)
  {
    hide Index;
    var b := BinOf(obs, low, high, bins, i);
    assert Extremes(obs, low, (high - low) / bins as real, bins, |obs|, b, table[b]);
    assert BinOf(obs, low, high, bins, j) == b ==> InBin(obs, low, (high - low) / bins as real, bins, j, b);
    if obs[j] <= obs[i] {
      BinsMonotone(obs, low, high, bins, j, i);
    } else {
      BinsMonotone(obs, low, high, bins, i, j);
    }
  }

  /** The first of a bin has the largest observation of the lower bins on its left. */
  lemma OuterLeft(obs: seq<real>, low: real, high: real, bins: nat, table: seq<Bin>, i: nat, top: Option<real>)
    requires Table(obs, low, high, bins, table) && i < |obs|
    requires var b := BinOf(obs, low, high, bins, i);
      table[b].Bin? && table[b].minIndex == i && TopBelow(obs, low, high, bins, b, top)
    ensures Left(obs, i, |obs|) == top
  {
    hide BinOf, Before, Left, Index, Extremes, InBin;
    forall j: nat | j < |obs|
      ensures Before(obs, j, i) <==> BinOf(obs, low, high, bins, j) < BinOf(obs, low, high, bins, i) {
      BeforeFirst(obs, low, high, bins, table, i, j);
    }
    var left := Left(obs, i, |obs|);
    if left.Some? {
      var j: nat :| j < |obs| && Before(obs, j, i) && obs[j] == left.value;
      assert BinOf(obs, low, high, bins, j) < BinOf(obs, low, high, bins, i);
    }
    if top.Some? {
      var j: nat :| j < |obs| && BinOf(obs, low, high, bins, j) < BinOf(obs, low, high, bins, i) && obs[j] == top.value;
      assert Before(obs, j, i);
    }
  }

  lemma OuterRight(obs: seq<real>, low: real, high: real, bins: nat, table: seq<Bin>, i: nat, bottom: Option<real>)
    requires Table(obs, low, high, bins, table) && i < |obs|
    requires var b := BinOf(obs, low, high, bins, i);
      table[b].Bin? && table[b].maxIndex == i && BottomFrom(obs, low, high, bins, b + 1, bottom)
    ensures Right(obs, i, |obs|) == bottom
  {
    hide BinOf, Before, Right, Index, Extremes, InBin;
    forall j: nat | j < |obs|
      ensures Before(obs, i, j) <==> BinOf(obs, low, high, bins, j) > BinOf(obs, low, high, bins, i) {
      AfterLast(obs, low, high, bins, table, i, j);
    }
    var right := Right(obs, i, |obs|);
    if right.Some? {
      var j: nat :| j < |obs| && Before(obs, i, j) && obs[j] == right.value;
      assert BinOf(obs, low, high, bins, j) > BinOf(obs, low, high, bins, i);
    }
    if bottom.Some? {
      var j: nat :| j < |obs| && BinOf(obs, low, high, bins, j) > BinOf(obs, low, high, bins, i)
        && obs[j] == bottom.value;
      assert Before(obs, i, j);
    }
  }

  function GapUp(from: Option<real>, to: real): Option<real> {
    if from.None? then None else Some(to - from.value)
  }

  function GapDown(from: real, to: Option<real>): Option<real> {
    if to.None? then None else Some(to.value - from)
  }

  /** One step of the forward pass: below the first of the bin lies the top of the lower bins. */
  lemma UpStep(obs: seq<real>, low: real, high: real, bins: nat, table: seq<Bin>, b: nat, top: Option<real>)
    requires Table(obs, low, high, bins, table) && b < bins && TopBelow(obs, low, high, bins, b, top)
    ensures TopBelow(obs, low, high, bins, b + 1, if table[b].Empty? then top else Some(table[b].max))
    ensures forall i: nat :: i < |obs| && BinOf(obs, low, high, bins, i) == b ==>
      && table[b].Bin?
      && (i == table[b].minIndex ==> LeftGap(obs, i) == GapUp(top, table[b].min))
      && (i != table[b].minIndex ==> LeftGap(obs, i).Some? && LeftGap(obs, i).value <= (high - low) / bins as real)
  {
    hide Index, Left;
    assert Extremes(obs, low, (high - low) / bins as real, bins, |obs|, b, table[b]);
    forall i: nat | i < |obs| && BinOf(obs, low, high, bins, i) == b
      ensures table[b].Bin? && (i == table[b].maxIndex || Before(obs, i, table[b].maxIndex))
      ensures i == table[b].minIndex ==> LeftGap(obs, i) == GapUp(top, table[b].min)
      ensures i != table[b].minIndex ==> LeftGap(obs, i).Some? && LeftGap(obs, i).value <= (high - low) / bins as real
    {
      assert InBin(obs, low, (high - low) / bins as real, bins, i, b);
      if i == table[b].minIndex {
        OuterLeft(obs, low, high, bins, table, i, top);
      } else {
        InnerLeft(obs, low, high, bins, table, i);
      }
    }
    if table[b].Bin? {
      assert BinOf(obs, low, high, bins, table[b].maxIndex) == b;
      forall j: nat | j < |obs| && BinOf(obs, low, high, bins, j) < b ensures obs[j] <= table[b].max {
        if obs[j] > table[b].max {
          BinsMonotone(obs, low, high, bins, table[b].maxIndex, j);
        }
      }
    }
  }

  /** One step of the backward pass. */
  lemma DownStep(obs: seq<real>, low: real, high: real, bins: nat, table: seq<Bin>, b: nat, bottom: Option<real>)
    requires Table(obs, low, high, bins, table) && b < bins && BottomFrom(obs, low, high, bins, b + 1, bottom)
    ensures BottomFrom(obs, low, high, bins, b, if table[b].Empty? then bottom else Some(table[b].min))
    ensures forall i: nat :: i < |obs| && BinOf(obs, low, high, bins, i) == b ==>
      && table[b].Bin?
      && (i == table[b].maxIndex ==> RightGap(obs, i) == GapDown(table[b].max, bottom))
      && (i != table[b].maxIndex ==> RightGap(obs, i).Some? && RightGap(obs, i).value <= (high - low) / bins as real)
  {
    hide Index, Right;
    assert Extremes(obs, low, (high - low) / bins as real, bins, |obs|, b, table[b]);
    forall i: nat | i < |obs| && BinOf(obs, low, high, bins, i) == b
      ensures table[b].Bin? && (i == table[b].minIndex || Before(obs, table[b].minIndex, i))
      ensures i == table[b].maxIndex ==> RightGap(obs, i) == GapDown(table[b].max, bottom)
      ensures i != table[b].maxIndex ==> RightGap(obs, i).Some? && RightGap(obs, i).value <= (high - low) / bins as real
    {
      assert InBin(obs, low, (high - low) / bins as real, bins, i, b);
      if i == table[b].maxIndex {
        OuterRight(obs, low, high, bins, table, i, bottom);
      } else {
        InnerRight(obs, low, high, bins, table, i);
      }
    }
    if table[b].Bin? {
      assert BinOf(obs, low, high, bins, table[b].minIndex) == b;
      forall j: nat | j < |obs| && BinOf(obs, low, high, bins, j) > b ensures table[b].min <= obs[j] {
        if obs[j] < table[b].min {
          BinsMonotone(obs, low, high, bins, j, table[b].minIndex);
        }
      }
    }
  }

  /** The forward pass: the first of each bin learns its left gap. */
  method SweepUp(obs: seq<real>, low: real, high: real, bins: nat, table: seq<Bin>) returns (sigmas: seq<real>)
    requires Table(obs, low, high, bins, table)
    ensures |sigmas| == |obs|
    ensures forall i: nat :: i < |obs| ==> sigmas[i] == Raised((high - low) / bins as real, LeftGap(obs, i))
  {
    hide Table, TopBelow, BinOf, LeftGap;
    TopOfNone(obs, low, high, bins, table);
    var minSigma := (high - low) / bins as real;
    sigmas := seq(|obs|, _ => minSigma);
    var prevMax: Option<real> := None;
    for b := 0 to bins
      invariant |sigmas| == |obs| && TopBelow(obs, low, high, bins, b, prevMax)
      invariant forall i: nat :: i < |obs| ==>
        sigmas[i] == if BinOf(obs, low, high, bins, i) < b then Raised(minSigma, LeftGap(obs, i)) else minSigma
    {
      UpStep(obs, low, high, bins, table, b, prevMax);
      MinIsInBin(obs, low, high, bins, table, b);
      match table[b]
      case Empty =>
      case Bin(min, minIndex, max, _) =>
        sigmas := sigmas[minIndex := Raised(sigmas[minIndex], GapUp(prevMax, min))];
        prevMax := Some(max);
    }
  }

  lemma TopOfNone(obs: seq<real>, low: real, high: real, bins: nat, table: seq<Bin>)
    requires Table(obs, low, high, bins, table)
    ensures |table| == bins > 0 && low <= high && InSpace(obs, low, high)
    ensures TopBelow(obs, low, high, bins, 0, None) && BottomFrom(obs, low, high, bins, bins, None)
  {
  }

  lemma MinIsInBin(obs: seq<real>, low: real, high: real, bins: nat, table: seq<Bin>, b: nat)
    requires Table(obs, low, high, bins, table) && b < bins
    ensures table[b].Bin? ==>
      && table[b].minIndex < |obs| && BinOf(obs, low, high, bins, table[b].minIndex) == b
      && table[b].maxIndex < |obs| && BinOf(obs, low, high, bins, table[b].maxIndex) == b
  {
  }

  /** The backward pass: the last of each bin learns its right gap. */
  method SweepDown(obs: seq<real>, low: real, high: real, bins: nat, table: seq<Bin>, start: seq<real>)
    returns (sigmas: seq<real>)
    requires Table(obs, low, high, bins, table) && |start| == |obs| && bins > 0
    requires forall i: nat :: i < |obs| ==> start[i] >= (high - low) / bins as real
    ensures |sigmas| == |obs|
    ensures forall i: nat :: i < |obs| ==> sigmas[i] == Raised(start[i], RightGap(obs, i))
  {
    hide Table, BottomFrom, BinOf, RightGap;
    TopOfNone(obs, low, high, bins, table);
    sigmas := start;
    var nextMin: Option<real> := None;
    var b := bins;
    while b > 0
      invariant 0 <= b <= bins && |sigmas| == |obs| && BottomFrom(obs, low, high, bins, b, nextMin)
      invariant forall i: nat :: i < |obs| ==>
        sigmas[i] == if BinOf(obs, low, high, bins, i) >= b then Raised(start[i], RightGap(obs, i)) else start[i]
    {
      b := b - 1;
      DownStep(obs, low, high, bins, table, b, nextMin);
      MinIsInBin(obs, low, high, bins, table, b);
      match table[b]
      case Empty =>
      case Bin(min, _, max, maxIndex) =>
        sigmas := sigmas[maxIndex := Raised(sigmas[maxIndex], GapDown(max, nextMin))];
        nextMin := Some(min);
    }
  }

  /** For two or more observations inside the space the upper clamp never acts. */
  lemma BandwidthInSpace(obs: seq<real>, low: real, high: real, i: nat)
    requires i < |obs| && |obs| >= 2 && low <= high && InSpace(obs, low, high)
    ensures Bandwidth(obs, low, high, i)
      == Raised(Raised(MinSigma(|obs|, low, high), LeftGap(obs, i)), RightGap(obs, i))
  {
  }

  /** What a bandwidth is: never outside its bounds, and otherwise the larger of the gaps to the nearest
      observations before and after it in sorting order, or the larger distance to the end points. */
  lemma BandwidthMeaning(obs: seq<real>, low: real, high: real, i: nat, gap: real)
    requires i < |obs| && low <= high
    requires if |obs| == 1
      then gap >= obs[0] - low && gap >= high - obs[0] && (gap == obs[0] - low || gap == high - obs[0])
      else IsLargerGap(obs, i, gap)
    ensures var lo, hi := (high - low) / Min(100, |obs| + 2) as real, high - low;
      && lo <= Bandwidth(obs, low, high, i) <= hi
      && (gap <= lo ==> Bandwidth(obs, low, high, i) == lo)
      && (gap >= hi ==> Bandwidth(obs, low, high, i) == hi)
      && (lo <= gap <= hi ==> Bandwidth(obs, low, high, i) == gap)
  {
    hide IsLeftGap, IsRightGap, LeftGap, RightGap;
    MinSigmaBelow(|obs|, low, high);
    LeftGapIs(obs, i);
    RightGapIs(obs, i);
    if LeftGap(obs, i).Some? {
      assert IsLeftGap(obs, i, LeftGap(obs, i).value);
    }
    if RightGap(obs, i).Some? {
      assert IsRightGap(obs, i, RightGap(obs, i).value);
    }
  }

  lemma LeftGapIs(obs: seq<real>, i: nat)
    requires i < |obs|
    ensures LeftGap(obs, i).Some? ==> LeftGap(obs, i).value >= 0.0
    ensures forall g :: IsLeftGap(obs, i, g) <==> LeftGap(obs, i) == Some(g)
  {
    hide Left;
    var left := Left(obs, i, |obs|);
    if left.Some? {
      var j: nat :| j < |obs| && Before(obs, j, i) && obs[j] == left.value;
      assert IsLeftGap(obs, i, obs[i] - obs[j]);
    }
  }

  lemma RightGapIs(obs: seq<real>, i: nat)
    requires i < |obs|
    ensures RightGap(obs, i).Some? ==> RightGap(obs, i).value >= 0.0
    ensures forall g :: IsRightGap(obs, i, g) <==> RightGap(obs, i) == Some(g)
  {
    hide Right;
    var right := Right(obs, i, |obs|);
    if right.Some? {
      var j: nat :| j < |obs| && Before(obs, i, j) && obs[j] == right.value;
      assert IsRightGap(obs, i, obs[j] - obs[i]);
    }
  }

  /** `gap` bounds the distance to the nearest observation on either side, and is one of the two. */
  ghost predicate IsLargerGap(obs: seq<real>, i: nat, gap: real)
    requires i < |obs|
  {
    && (IsLeftGap(obs, i, gap) || IsRightGap(obs, i, gap))
    && (forall g :: IsLeftGap(obs, i, g) || IsRightGap(obs, i, g) ==> g <= gap)
  }

  /** `gap` is the distance to the nearest observation sorted before `i`. */
  ghost predicate IsLeftGap(obs: seq<real>, i: nat, gap: real)
    requires i < |obs|
  {
    && (exists j: nat :: j < |obs| && Before(obs, j, i) && gap == obs[i] - obs[j])
    && (forall j: nat :: j < |obs| && Before(obs, j, i) ==> gap <= obs[i] - obs[j])
  }

  ghost predicate IsRightGap(obs: seq<real>, i: nat, gap: real)
    requires i < |obs|
  {
    && (exists j: nat :: j < |obs| && Before(obs, i, j) && gap == obs[j] - obs[i])
    && (forall j: nat :: j < |obs| && Before(obs, i, j) ==> gap <= obs[j] - obs[i])
  }

  /** `binned_sigmas`: none unless two or more observations all lie in the space. */
  method BinnedSigmas(obs: seq<real>, low: real, high: real) returns (sigmas: Option<seq<real>>)
    requires low <= high
    ensures sigmas.Some? <==> |obs| >= 2 && InSpace(obs, low, high)
    ensures sigmas.Some? ==>
      && |sigmas.value| == |obs|
      && forall i: nat :: i < |obs| ==> sigmas.value[i] == Bandwidth(obs, low, high, i)
  {
    hide Index, Bandwidth, LeftGap, RightGap;
    if |obs| < 2 {
      return None;
    }
    var bins := Min(100, |obs| + 2);
    var minSigma := (high - low) / bins as real;
    MinSigmaBelow(|obs|, low, high);
    var filled := FillBins(obs, low, high, minSigma, bins);
    if filled.None? {
      return None;
    }
    var forward := SweepUp(obs, low, high, bins, filled.value);
    var out := SweepDown(obs, low, high, bins, filled.value, forward);
    forall i: nat | i < |obs| ensures out[i] == Bandwidth(obs, low, high, i) {
      BandwidthInSpace(obs, low, high, i);
    }
    sigmas := Some(out);
  }

  /** `order` lists the positions of the observations in sorting order. */
  ghost predicate SortedOrder(obs: seq<real>, order: seq<nat>) {
    && InRange(order, |obs|)
    && (forall i, j :: 0 <= i < j < |order| ==> Before(obs, order[i], order[j]))
    && (forall i: nat :: i < |obs| ==> i in order)
  }

  method SortObservations(obs: seq<real>) returns (order: seq<nat>)
    ensures |order| == |obs| && SortedOrder(obs, order)
  {
    var le := (i: nat, j: nat) => i == j || (i < |obs| && j < |obs| && Before(obs, i, j));
    order := Sort(Upto(|obs|), le);
    forall i | 0 <= i < |order| ensures order[i] < |obs| {
      assert order[i] in order;
    }
  }

  /** In sorting order the left neighbour is the position before. */
  lemma NeighbourLeft(obs: seq<real>, order: seq<nat>, j: nat)
    requires SortedOrder(obs, order) && j < |order|
    ensures Left(obs, order[j], |obs|) == if j == 0 then None else Some(obs[order[j - 1]])
  {
    hide Left;
    var left := Left(obs, order[j], |obs|);
    if left.Some? {
      var k: nat :| k < |obs| && Before(obs, k, order[j]) && obs[k] == left.value;
      assert k in order;
      var at :| 0 <= at < |order| && order[at] == k;
      assert at < j;
      assert at < j - 1 ==> Before(obs, order[at], order[j - 1]);
    }
    if j > 0 {
      assert Before(obs, order[j - 1], order[j]);
    }
  }

  lemma NeighbourRight(obs: seq<real>, order: seq<nat>, j: nat)
    requires SortedOrder(obs, order) && j < |order|
    ensures Right(obs, order[j], |obs|) == if j == |order| - 1 then None else Some(obs[order[j + 1]])
  {
    hide Right;
    var right := Right(obs, order[j], |obs|);
    if right.Some? {
      var k: nat :| k < |obs| && Before(obs, order[j], k) && obs[k] == right.value;
      assert k in order;
      var at :| 0 <= at < |order| && order[at] == k;
      assert at > j;
      assert at > j + 1 ==> Before(obs, order[j + 1], order[at]);
    }
    if j < |order| - 1 {
      assert Before(obs, order[j], order[j + 1]);
    }
  }

  /** What the sorting fallback writes for the observation at sorted position `j`. */
  lemma SortedGap(obs: seq<real>, low: real, high: real, order: seq<nat>, j: nat, raw: real)
    requires SortedOrder(obs, order) && |order| == |obs| && j < |order| && low <= high
    requires var m := |order|;
      raw == if m == 1 then Max(obs[order[0]] - low, high - obs[order[0]])
      else if j == 0 then obs[order[1]] - obs[order[0]]
      else if j == m - 1 then obs[order[m - 1]] - obs[order[m - 2]]
      else Max(obs[order[j]] - obs[order[j - 1]], obs[order[j + 1]] - obs[order[j]])
    ensures 0.0 <= MinSigma(|obs|, low, high) <= high - low
    ensures Clamp(raw, MinSigma(|obs|, low, high), high - low) == Bandwidth(obs, low, high, order[j])
  {
    hide MinSigma, Left, Right, Clamp;
    MinSigmaBelow(|obs|, low, high);
    NeighbourLeft(obs, order, j);
    NeighbourRight(obs, order, j);
    if j > 0 {
      assert Before(obs, order[j - 1], order[j]);
    }
    if j + 1 < |order| {
      assert Before(obs, order[j], order[j + 1]);
    }
  }

  /** The sorting fallback, prior included and clamped. */
  method SortedSigmas(obs: seq<real>, low: real, high: real) returns (sigmas: seq<real>)
    requires low <= high && |obs| > 0
    ensures |sigmas| == |obs| + 1 && sigmas[|obs|] == high - low
    ensures forall i: nat :: i < |obs| ==> sigmas[i] == Bandwidth(obs, low, high, i)
  {
    hide Bandwidth, Clamp, MinSigma, Before;
    var m := |obs|;
    var order := SortObservations(obs);
    MinSigmaBelow(m, low, high);
    sigmas := seq(m, _ => 0.0);
    for j := 0 to m
      invariant |sigmas| == m
      invariant forall k :: 0 <= k < j ==>
        Clamp(sigmas[order[k]], MinSigma(m, low, high), high - low) == Bandwidth(obs, low, high, order[k])
    {
      var raw :=
        if m == 1 then Max(obs[order[0]] - low, high - obs[order[0]])
        else if j == 0 then obs[order[1]] - obs[order[0]]
        else if j == m - 1 then obs[order[m - 1]] - obs[order[m - 2]]
        else Max(obs[order[j]] - obs[order[j - 1]], obs[order[j + 1]] - obs[order[j]]);
      SortedGap(obs, low, high, order, j, raw);
      sigmas := sigmas[order[j] := raw];
    }
    forall i: nat | i < m ensures Clamp(sigmas[i], MinSigma(m, low, high), high - low) == Bandwidth(obs, low, high, i) {
      assert i in order;
    }
    ghost var raws := sigmas;
    sigmas := sigmas + [high - low];
    var maxSigma := high - low;
    var minSigma := (high - low) / Min(100, 1 + |sigmas|) as real;
    ClampTop(m, low, high);
    for i := 0 to |sigmas|
      invariant |sigmas| == m + 1
      invariant forall k :: 0 <= k < i ==> sigmas[k] == Clamp((raws + [high - low])[k], minSigma, maxSigma)
      invariant forall k :: i <= k < m + 1 ==> sigmas[k] == (raws + [high - low])[k]
    {
      sigmas := sigmas[i := Clamp(sigmas[i], minSigma, maxSigma)];
    }
  }

  lemma ClampTop(n: nat, low: real, high: real)
    requires low <= high
    ensures (high - low) / Min(100, 1 + (n + 1)) as real == MinSigma(n, low, high) <= high - low
    ensures Clamp(high - low, MinSigma(n, low, high), high - low) == high - low
  {
    MinSigmaBelow(n, low, high);
  }

  /** The bandwidths of `calculate_numerical_distribution`, the prior's last: whichever path computes
      them, they are the sorted neighbour gaps, clamped. */
  method Sigmas(obs: seq<real>, low: real, high: real) returns (sigmas: seq<real>)
    requires low <= high
    ensures |sigmas| == |obs| + 1 && sigmas[|obs|] == high - low
    ensures forall i: nat :: i < |obs| ==> sigmas[i] == Bandwidth(obs, low, high, i)
  {
    hide Bandwidth;
    if |obs| == 0 {
      return [high - low];
    }
    var binned := BinnedSigmas(obs, low, high);
    if binned.Some? {
      return binned.value + [high - low];
    }
    sigmas := SortedSigmas(obs, low, high);
  }
}
