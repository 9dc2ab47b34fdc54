/** Trials and parameter distributions (`trial.rs`, `distribution.rs`). */
module Trials {
  import opened Options

  /** Bounds and steps are exact numbers. */
  datatype Distribution =
    | Float(low: real, high: real, step: Option<real>, log: bool)
    | Int(ilow: int, ihigh: int, istep: int, log: bool)
    | Categorical(cardinality: nat)
  {
    predicate IsSingle() {
      match this
      case Float(low, high, step, _) =>
        low == high || (step.Some? && high - low - step.value < 0.000000000001)
      case Int(low, high, step, log) => low == high || (!log && high - low < step)
      case Categorical(n) => n == 1
    }

    /** `check_compatibility` succeeds. */
    predicate Compatible(other: Distribution) {
      match this
      case Float(_, _, _, log) => other.Float? && other.log == log
      case Int(_, _, _, log) => other.Int? && other.log == log
      case Categorical(n) => other == Categorical(n)
    }
  }

  /** Distributions of one class may follow each other under one name. */
  datatype DistributionClass = FloatClass(log: bool) | IntClass(log: bool) | CategoricalClass(cardinality: nat)

  function ClassOf(d: Distribution): DistributionClass {
    match d
    case Float(_, _, _, log) => FloatClass(log)
    case Int(_, _, _, log) => IntClass(log)
    case Categorical(n) => CategoricalClass(n)
  }

  lemma CompatibleClasses(d: Distribution, e: Distribution)
    ensures d.Compatible(e) <==> ClassOf(d) == ClassOf(e)
  {
  }

  /** The value reached from the lower bound by `k` steps. */
  function StepValue(low: real, step: real, k: nat): real {
    low + k as real * step
  }

  /** `k` steps up from the lower bound stay in range. */
  ghost predicate Reachable(d: Distribution, k: nat) {
    match d
    case Float(low, high, Some(step), _) => StepValue(low, step, k) <= high
    case Float(low, high, None, _) => k == 0 || low < high
    case Int(low, high, step, log) => low + k * (if log then 1 else step) <= high
    case Categorical(n) => k < n
  }

  /** The bounds are in order and the step is positive. */
  predicate ProperDistribution(d: Distribution) {
    match d
    case Float(low, high, step, _) => low <= high && (step.Some? ==> step.value > 0.0)
    case Int(low, high, step, _) => low <= high && step > 0
    case Categorical(n) => n > 0
  }

  /** A stepped float distribution whose range exceeds its step by less than the tolerance. */
  predicate WithinTolerance(d: Distribution) {
    d.Float? && d.step.Some? && d.step.value <= d.high - d.low < d.step.value + 0.000000000001
  }

  /** `is_single` finds the distributions that take one value only, and, because of the tolerance, also
      those stepped ones whose second value is the last one or nearly so. */
  lemma SingleExactly(d: Distribution)
    requires ProperDistribution(d)
    ensures d.IsSingle() <==> (forall k: nat :: k > 0 ==> !Reachable(d, k)) || WithinTolerance(d)
    ensures WithinTolerance(d) ==> Reachable(d, 1)
  {
    if forall k: nat :: k > 0 ==> !Reachable(d, k) {
      assert !Reachable(d, 1);
    }
    forall k: nat | k > 1 && Reachable(d, k) && !WithinTolerance(d) ensures Reachable(d, 1) {
      FewerSteps(d, k);
    }
  }

  lemma FewerSteps(d: Distribution, k: nat)
    requires ProperDistribution(d) && k > 1 && Reachable(d, k)
    ensures Reachable(d, 1)
  {
    match d
    case Float(low, high, Some(step), _) =>
      assert (k as real - 1.0) * step >= 0.0;
      assert StepValue(low, step, k) == low + step + (k as real - 1.0) * step;
    case Int(low, high, step, log) =>
      if !log {
        assert (k - 1) * step >= 0;
        assert low + k * step == low + step + (k - 1) * step;
      }
    case _ =>
  }

  /** Two values, and yet single: a caller sees no search space entry for it. */
  lemma TwoValuesSingle()
    ensures var d := Float(0.0, 1.0, Some(1.0), false);
      ProperDistribution(d) && d.IsSingle() && Reachable(d, 0) && Reachable(d, 1)
  {
  }

  datatype StateValues = Running | Pruned | Complete(values: seq<int>) | Fail | Waiting

  datatype ErrorKind =
    | StudyNotFound | TrialNotFound | TrialDiscarded | TrialAlreadyFinished
    | IncompatibleDistribution | AttrOverwriteNotAllowed | InvalidObjectiveValues
    | DuplicatedStudy | StorageError

  datatype Result<+T> = Ok(value: T) | Err(error: ErrorKind)

  datatype Trial = Trial(id: nat, studyId: nat, number: nat, state: StateValues, params: map<string, int>,
                         distributions: map<string, Distribution>, intermediate: map<nat, int>,
                         attrs: map<string, string>)
  {
    predicate IsFinished(): (finished: bool)
      ensures finished <==> state != Running && state != Waiting
    {
      state.Complete? || state.Pruned? || state.Fail?
    }
  }

  type Slots = seq<Option<Trial>>
}
