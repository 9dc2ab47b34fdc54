/** Dominance under per-objective directions, and the naive Pareto front of `study.rs`. */
module ParetoFront {
  import opened Options
  import opened Coords
  import opened Orders
  import opened NanRows
  import opened Chains
  import opened Nds

  datatype Direction = Minimize | Maximize

  /** Negation of a float: a NaN stays a NaN, infinities swap. */
  function Negate(v: int): int {
    if IsNan(v) then v else -v
  }

  /** Objective values turned into losses: maximised objectives change sign. */
  function Loss(values: Point, directions: seq<Direction>): (loss: Point)
    ensures |loss| == Min(|values|, |directions|)
  {
    seq(Min(|values|, |directions|), k requires 0 <= k < Min(|values|, |directions|) =>
      if directions[k] == Minimize then values[k] else Negate(values[k]))
  }

  function Losses(values: seq<Point>, directions: seq<Direction>): (losses: seq<Point>)
    ensures |losses| == |values| && forall i :: 0 <= i < |values| ==> losses[i] == Loss(values[i], directions)
  {
    seq(|values|, i requires 0 <= i < |values| => Loss(values[i], directions))
  }

  lemma LossDecides(v0: Point, v1: Point, directions: seq<Direction>, k: nat)
    requires k < |v0| == |v1| == |directions| && !HasNan(v0) && !HasNan(v1)
    ensures v0[k] == v1[k] <==> Loss(v0, directions)[k] == Loss(v1, directions)[k]
    ensures (if directions[k] == Minimize then v0[k] > v1[k] else v0[k] < v1[k])
      <==> Loss(v0, directions)[k] > Loss(v1, directions)[k]
  {
  }

  /** `dominates`: strict dominance of the losses, with an early return. */
  method DominatesValues(v0: Point, v1: Point, directions: seq<Direction>) returns (b: bool)
    requires |v0| == |v1| == |directions| && !HasNan(v0) && !HasNan(v1)
    ensures b == StrictDom(Loss(v0, directions), Loss(v1, directions))
  {
    ghost var l0, l1 := Loss(v0, directions), Loss(v1, directions);
    hide HasNan, Loss;
    var equal := true;
    for k := 0 to |v0|
      invariant forall j :: 0 <= j < k ==> l0[j] <= l1[j]
      invariant equal <==> l0[..k] == l1[..k]
    {
      LossDecides(v0, v1, directions, k);
      assert l0[..k + 1] == l0[..k] + [l0[k]] && l1[..k + 1] == l1[..k] + [l1[k]];
      equal := equal && v0[k] == v1[k];
      var v1DominatesV0 := match directions[k]
        case Minimize => v0[k] > v1[k]
        case Maximize => v0[k] < v1[k];
      if v1DominatesV0 {
        return false;
      }
    }
    assert l0[..|v0|] == l0 && l1[..|v0|] == l1;
    b := !equal;
  }

  /** What `validate_trials` accepts. */
  predicate ValidValues(values: seq<Point>, directions: seq<Direction>) {
    values == [] || (Shaped(values, |directions|) && NoNan(values))
  }

  /** No row strictly dominates row `i`. */
  ghost predicate Undominated(losses: seq<Point>, i: nat)
    requires i < |losses|
  {
    forall j :: 0 <= j < |losses| && |losses[j]| == |losses[i]| ==> !StrictDom(losses[j], losses[i])
  }

  /** `get_pareto_front`, over the values of the complete trials: an error for values that do not
      validate, and otherwise exactly the undominated trials, in order. */
  method GetParetoFront(values: seq<Point>, directions: seq<Direction>) returns (front: Option<seq<nat>>)
    ensures front.Some? <==> ValidValues(values, directions)
    ensures front.Some? ==> InRange(front.value, |values|)
    ensures front.Some? ==> forall a, b :: 0 <= a < b < |front.value| ==> front.value[a] < front.value[b]
    ensures front.Some? ==>
      forall i: nat :: i < |values| ==> (i in front.value <==> Undominated(Losses(values, directions), i))
  {
    if !ValidValues(values, directions) {
      return None;
    }
    hide HasNan, Loss, StrictDom;
    ghost var losses := Losses(values, directions);
    var numbers: seq<nat> := [];
    for i := 0 to |values|
      invariant InRange(numbers, i)
      invariant forall a, b :: 0 <= a < b < |numbers| ==> numbers[a] < numbers[b]
      invariant forall j: nat :: j < i ==> (j in numbers <==> Undominated(losses, j))
    {
      var dominated := false;
      var j := 0;
      while j < |values|
        invariant j <= |values| && !dominated
        invariant forall k :: 0 <= k < j ==> !StrictDom(losses[k], losses[i])
        decreases |values| - j
      {
        dominated := DominatesValues(values[j], values[i], directions);
        if dominated {
          assert !Undominated(losses, i);
          break;
        }
        j := j + 1;
      }
      if !dominated {
        numbers := numbers + [i];
      }
    }
    front := Some(numbers);
  }

  /** Rank 0 of the fast sort is the naive Pareto front, whichever path ranked the rows. */
  lemma RankZeroIsFront(rows: seq<Point>, nBelow: nat, ranks: seq<nat>, limit: nat, i: nat)
    requires rows != [] && Shaped(rows, |rows[0]|) && NoNan(rows)
    requires Ranked(rows, nBelow, ranks, limit) && 0 < limit && i < |rows|
    ensures ranks[i] == 0 <==> Undominated(rows, i)
  {
    hide HasNan, StrictDom;
    RankIsDepth(rows, nBelow, ranks, limit, i);
    DepthZero(DomRel(rows), i);
    forall j: nat | j < |rows| ensures (j, i) in DomRel(rows) <==> StrictDom(rows[j], rows[i]) {
      assert Dominates(rows, j, i) <==> StrictDom(rows[j], rows[i]);
    }
    if ranks[i] == 0 {
      forall j: nat | j < |rows| && |rows[j]| == |rows[i]| ensures !StrictDom(rows[j], rows[i]) {
        assert (j, i) !in DomRel(rows);
      }
    }
    if Undominated(rows, i) {
      forall j: nat ensures (j, i) !in DomRel(rows) {
        if (j, i) in DomRel(rows) {
          InDomRel(rows, j, i);
        }
      }
      if ranks[i] < limit {
        DepthUnique(DomRel(rows), i, 0, ranks[i]);
      }
    }
  }
}
