/** The incremental joint search space (`study_cache.rs`). */
module StudyCaches {
  import opened Options
  import opened Trials

  type Space = map<string, Distribution>

  datatype StudyCache = StudyCache(cursor: nat, space: Option<Space>, paramDistribution: Space)

  const EMPTY: StudyCache := StudyCache(0, None, map[])

  predicate IsComplete(slot: Option<Trial>) {
    slot.Some? && slot.value.state.Complete?
  }

  predicate IsUnfinished(slot: Option<Trial>) {
    slot.Some? && !slot.value.IsFinished()
  }

  /** `name` has distribution `d` in every complete trial from position `lo` on. */
  ghost predicate AllAgree(trials: Slots, lo: nat, name: string, d: Distribution) {
    forall i :: lo <= i < |trials| && IsComplete(trials[i]) ==> Holds(trials[i].value.distributions, name, d)
  }

  ghost predicate Holds(m: Space, name: string, d: Distribution) {
    name in m && m[name] == d
  }

  /** Narrowing a search space by every complete trial from `lo` on. */
  ghost predicate Narrowed(space: Option<Space>, trials: Slots, lo: nat, space': Option<Space>) {
    && (space'.None? <==> space.None? && forall i :: lo <= i < |trials| ==> !IsComplete(trials[i]))
    && (space'.Some? ==> forall name: string, d: Distribution ::
          Holds(space'.value, name, d) <==>
            (space.Some? ==> Holds(space.value, name, d)) && AllAgree(trials, lo, name, d))
  }

  /** The oldest unfinished position at or after `lo`, or `lo`. */
  ghost predicate CursorMoved(lo: nat, trials: Slots, cursor: nat) {
    if cursor < |trials| && IsUnfinished(trials[cursor])
    then lo <= cursor && forall i :: lo <= i < cursor ==> !IsUnfinished(trials[i])
    else cursor == lo && forall i :: lo <= i < |trials| ==> !IsUnfinished(trials[i])
  }

  /** `search_space.retain(|name, d| distributions.get(name) == Some(d))` */
  function Retain(space: Space, dists: Space): (kept: Space)
    ensures forall name: string, d: Distribution :: Holds(kept, name, d) <==>
      Holds(space, name, d) && Holds(dists, name, d)
  {
    map name | name in space && name in dists && dists[name] == space[name] :: space[name]
  }

  /** `StudyCache::update`: one reverse pass from the end down to the cursor. */
  method Update(sc: StudyCache, trials: Slots) returns (sc': StudyCache)
    ensures sc'.paramDistribution == sc.paramDistribution
    ensures CursorMoved(sc.cursor, trials, sc'.cursor)
    ensures Narrowed(sc.space, trials, sc.cursor, sc'.space)
  {
    var cursor, space := sc.cursor, sc.space;
    var i := |trials|;
    while i > sc.cursor
      invariant i <= |trials| && (i >= sc.cursor || i == |trials|)
      invariant if i <= cursor < |trials| && IsUnfinished(trials[cursor])
        then forall k :: i <= k < cursor ==> !IsUnfinished(trials[k])
        else cursor == sc.cursor && forall k :: i <= k < |trials| ==> !IsUnfinished(trials[k])
      invariant Narrowed(sc.space, trials, i, space)
    {
      i := i - 1;
      NarrowStep(sc.space, trials, i, space);
      if trials[i].None? {
        continue;
      }
      var trial := trials[i].value;
      if !trial.IsFinished() {
        cursor := i;
        continue;
      }
      if trial.state.Complete? {
        space := if space.Some? then Some(Retain(space.value, trial.distributions)) else Some(trial.distributions);
      }
    }
    sc' := StudyCache(cursor, space, sc.paramDistribution);
  }

  lemma NarrowStep(space: Option<Space>, trials: Slots, i: nat, so: Option<Space>)
    requires i < |trials| && Narrowed(space, trials, i + 1, so)
    ensures !IsComplete(trials[i]) ==> Narrowed(space, trials, i, so)
    ensures IsComplete(trials[i]) ==>
      Narrowed(space, trials, i,
        if so.Some? then Some(Retain(so.value, trials[i].value.distributions)) else Some(trials[i].value.distributions))
  {
  }

  /** `get_joint_search_space`: the entries that can take more than one value. */
  function JointSearchSpace(sc: StudyCache): (space: Space)
    ensures forall name: string, d: Distribution ::
      Holds(space, name, d) <==> sc.space.Some? && Holds(sc.space.value, name, d) && !d.IsSingle()
  {
    if sc.space.None? then map[]
    else map name | name in sc.space.value && !sc.space.value[name].IsSingle() :: sc.space.value[name]
  }

  /** A study that has no entry reads as the empty cache. */
  function CacheOf(caches: map<nat, StudyCache>, s: nat): StudyCache {
    if s in caches then caches[s] else EMPTY
  }

  /** No study forgets that it has seen a complete trial, or what distributions were recorded. */
  ghost predicate CachesKept(caches: map<nat, StudyCache>, caches': map<nat, StudyCache>) {
    forall s: nat ::
      && (CacheOf(caches, s).space.Some? ==> CacheOf(caches', s).space.Some?)
      && CacheOf(caches', s).paramDistribution == CacheOf(caches, s).paramDistribution
  }

  lemma KeptTransitive(a: map<nat, StudyCache>, b: map<nat, StudyCache>, c: map<nat, StudyCache>)
    requires CachesKept(a, b) && CachesKept(b, c)
    ensures CachesKept(a, c)
  {
  }

  /** Updating one study's cache. */
  lemma UpdateKept(caches: map<nat, StudyCache>, s: nat, trials: Slots, cache: StudyCache)
    requires Narrowed(CacheOf(caches, s).space, trials, CacheOf(caches, s).cursor, cache.space)
    requires cache.paramDistribution == CacheOf(caches, s).paramDistribution
    ensures CachesKept(caches, caches[s := cache])
  {
  }

  lemma KeptReflexive(caches: map<nat, StudyCache>)
    ensures CachesKept(caches, caches)
  {
  }

  /** The caches with one study's recorded distributions replaced. */
  function Recording(caches: map<nat, StudyCache>, s: nat, known: Space): map<nat, StudyCache> {
    caches[s := CacheOf(caches, s).(paramDistribution := known)]
  }

  lemma KeptAt(caches: map<nat, StudyCache>, caches': map<nat, StudyCache>, s: nat)
    requires CachesKept(caches, caches')
    ensures CacheOf(caches', s).paramDistribution == CacheOf(caches, s).paramDistribution
  {
  }

  lemma RecordingKept(caches: map<nat, StudyCache>, caches': map<nat, StudyCache>, s: nat, known: Space)
    requires CachesKept(caches, caches')
    ensures CachesKept(Recording(caches, s, known), Recording(caches', s, known))
    ensures known == CacheOf(caches, s).paramDistribution ==> CachesKept(caches, Recording(caches, s, known))
  {
    var (a, b) := (Recording(caches, s, known), Recording(caches', s, known));
    forall t: nat
      ensures CacheOf(a, t).space.Some? ==> CacheOf(b, t).space.Some?
      ensures CacheOf(b, t).paramDistribution == CacheOf(a, t).paramDistribution
    {
      assert CacheOf(caches, t).space.Some? ==> CacheOf(caches', t).space.Some?;
    }
  }

  // What distributions a process records.

  /** The distribution does not contradict the one recorded for this name. */
  predicate Fits(known: Space, name: string, d: Distribution): (b: bool)
    ensures b <==> name !in known || ClassOf(known[name]) == ClassOf(d)
  {
    name in known ==> known[name].Compatible(d)
  }

  /** Every one of the writes fits what was recorded before it. */
  ghost predicate Accepted(known: Space, writes: seq<(string, Distribution)>)
    decreases |writes|
  {
    writes != [] ==>
      Fits(known, writes[0].0, writes[0].1) && Accepted(known[writes[0].0 := writes[0].1], writes[1..])
  }

  /** All distributions accepted under one name are compatible with each other. */
  lemma {:induction false} AcceptedCompatible(known: Space, writes: seq<(string, Distribution)>, i: nat, j: nat)
    requires Accepted(known, writes) && i < j < |writes| && writes[i].0 == writes[j].0
    ensures writes[i].1.Compatible(writes[j].1) && writes[j].1.Compatible(writes[i].1)
    decreases |writes|
  {
    var more := known[writes[0].0 := writes[0].1];
    if i == 0 {
      RecordedCompatible(more, writes[1..], j - 1);
    } else {
      AcceptedCompatible(more, writes[1..], i - 1, j - 1);
    }
  }

  lemma {:induction false} RecordedCompatible(known: Space, writes: seq<(string, Distribution)>, j: nat)
    requires Accepted(known, writes) && j < |writes| && writes[j].0 in known
    ensures known[writes[j].0].Compatible(writes[j].1) && writes[j].1.Compatible(known[writes[j].0])
    decreases |writes|
  {
    if j > 0 {
      RecordedCompatible(known[writes[0].0 := writes[0].1], writes[1..], j - 1);
    }
  }
}
