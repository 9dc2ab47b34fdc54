/** The in-memory storage (`storage.rs`). */
module InMemory {
  import opened Options
  import opened Trials
  import opened StudyCaches
  import opened Backend
  import opened CacheInvariant

  datatype TrialState = IsRunning | IsPruned | IsComplete | HasFailed | IsWaiting

  function StateOf(values: StateValues): (state: TrialState)
    ensures (state == IsRunning <==> values == Running) && (state == IsWaiting <==> values == Waiting)
    ensures (state == IsPruned <==> values == Pruned) && (state == HasFailed <==> values == Fail)
  {
    match values
    case Running => IsRunning
    case Pruned => IsPruned
    case Complete(_) => IsComplete
    case Fail => HasFailed
    case Waiting => IsWaiting
  }

  type History = map<nat, seq<Trial>>
  type TrialIds = map<nat, (nat, nat)>
  type TrialNumbers = map<(nat, nat), nat>
  type Counts = map<(nat, TrialState), nat>

  // The history of a study is every trial it ever had, in its last state, discarded ones included.

  /** The two maps of `TrialIdNumberHashMap` are inverse to each other and name exactly the history. */
  ghost predicate Inverse(history: History, ids: TrialIds, numbers: TrialNumbers) {
    && (forall id :: id in ids ==> ids[id] in numbers && numbers[ids[id]] == id)
    && (forall at ::
      at in numbers ==> numbers[at] in ids && ids[numbers[at]] == at && Placed(history, at.0, at.1, numbers[at]))
    && (forall s, n :: s in history && 0 <= n < |history[s]| ==> (s, n) in numbers)
  }

  ghost predicate Placed(history: History, s: nat, n: nat, id: nat) {
    s in history && n < |history[s]| && history[s][n].id == id && history[s][n].number == n
      && history[s][n].studyId == s
  }

  /** A slot holds its trial of the history, or nothing once discarded. */
  ghost predicate Shows(history: seq<Trial>, slots: Slots) {
    |slots| == |history| && forall i :: 0 <= i < |slots| ==> slots[i] == None || slots[i] == Some(history[i])
  }

  /** How many discarded trials of the study were in the state. */
  ghost function Gone(history: seq<Trial>, slots: Slots, state: TrialState): nat
    requires |slots| == |history|
  {
    if history == [] then 0
    else
      var n := |history| - 1;
      Gone(history[..n], slots[..n], state) + if slots[n].None? && StateOf(history[n].state) == state then 1 else 0
  }

  function CountAt(counts: Counts, s: nat, state: TrialState): nat {
    if (s, state) in counts then counts[(s, state)] else 0
  }

  /** The history as rows: discarded trials carry a stamp. */
  ghost function RowsFor(history: seq<Trial>, slots: Slots): (rows: seq<Row>)
    requires |slots| == |history|
    ensures |rows| == |history|
    ensures forall i :: 0 <= i < |rows| ==> rows[i] == Row(history[i], if slots[i].None? then Some(0) else None)
  {
    seq(|history|, i requires 0 <= i < |history| => Row(history[i], if slots[i].None? then Some(0) else None))
  }

  /** The joint search space narrowed so far, below what the complete trials before the cursor have and
      above what all complete trials ever agreed on. */
  ghost predicate SpaceFor(history: seq<Trial>, slots: Slots, cache: StudyCache)
    requires |slots| == |history|
  {
    && cache.cursor <= |slots|
    && SpaceOk(RowsFor(history, slots), View(slots[..cache.cursor], [], -1, None, cache))
  }

  /** What holds of one study. */
  ghost predicate StudyOk(s: nat, history: seq<Trial>, slots: Slots, counts: Counts, caches: map<nat, StudyCache>) {
    && Shows(history, slots)
    && (forall state :: CountAt(counts, s, state) == Gone(history, slots, state))
    && SpaceFor(history, slots, CacheOf(caches, s))
  }

  predicate Listed(studies: seq<(nat, string)>, s: nat) {
    exists k :: 0 <= k < |studies| && studies[k].0 == s
  }

  /** No study id occurs twice, and no name. */
  predicate Unrepeated(studies: seq<(nat, string)>) {
    forall i, j :: 0 <= i < j < |studies| ==> studies[i].0 != studies[j].0 && studies[i].1 != studies[j].1
  }

  predicate Named(studies: seq<(nat, string)>, name: string) {
    exists k :: 0 <= k < |studies| && studies[k].1 == name
  }

  ghost predicate StudiesOk(studies: seq<(nat, string)>, history: History, trials: map<nat, Slots>, counts: Counts,
                            caches: map<nat, StudyCache>, nextStudyId: nat) {
    && trials.Keys == history.Keys
    && (forall s :: s in trials <==> Listed(studies, s)) && Unrepeated(studies)
    && (forall s :: s in trials ==> s < nextStudyId && StudyOk(s, history[s], trials[s], counts, caches))
    && (forall s, state :: (s, state) in counts ==> s in trials)
    && (forall s :: s in caches ==> s in trials || caches[s] == EMPTY)
  }

  /** Every id ever given out is below the counter. */
  ghost predicate IdsUsed(ids: TrialIds, used: set<nat>, nextTrialId: nat) {
    ids.Keys <= used && forall id :: id in used ==> id < nextTrialId
  }

  lemma MoreUsed(ids: TrialIds, used: set<nat>, nextTrialId: nat, id: nat, at: (nat, nat), next: nat)
    requires IdsUsed(ids, used, nextTrialId) && id < next && nextTrialId <= next
    ensures IdsUsed(ids[id := at], used + {id}, next)
  {
  }

  lemma NextUnused(ids: TrialIds, used: set<nat>, nextTrialId: nat)
    requires IdsUsed(ids, used, nextTrialId)
    ensures nextTrialId !in used && nextTrialId !in ids
  {
  }

  lemma OnlyName(studies: seq<(nat, string)>, k: nat, name: string)
    requires Unrepeated(studies) && k < |studies|
    ensures (studies[k].0, name) in studies <==> studies[k].1 == name
  {
    if (studies[k].0, name) in studies {
      var j :| 0 <= j < |studies| && studies[j] == (studies[k].0, name);
    }
    assert studies[k] in studies;
  }

  /** The first position of a study id. */
  method FindStudy(studies: seq<(nat, string)>, s: nat) returns (k: nat)
    ensures if Listed(studies, s) then k < |studies| && studies[k].0 == s else k == |studies|
  {
    k := 0;
    while k < |studies| && studies[k].0 != s
      invariant k <= |studies| && forall j :: 0 <= j < k ==> studies[j].0 != s
    {
      k := k + 1;
    }
  }

  class InMemoryStorage {
    var studies: seq<(nat, string)>
    var trials: map<nat, Slots>
    var trialIdToStudyNumber: TrialIds
    var studyNumberToTrialId: TrialNumbers
    var studyCaches: map<nat, StudyCache>
    var nextStudyId: nat
    var nextTrialId: nat
    var discardedStateCounts: Counts
    const applyDiscard: bool
    ghost var history: History
    ghost var used: set<nat>

    ghost predicate Valid()
      reads this
    {
      && Inverse(history, trialIdToStudyNumber, studyNumberToTrialId)
      && StudiesOk(studies, history, trials, discardedStateCounts, studyCaches, nextStudyId)
      && IdsUsed(trialIdToStudyNumber, used, nextTrialId)
    }

    /** A search space was asked for while a complete trial of the study was there. */
    predicate Seen(s: nat)
      reads this
    {
      CacheOf(studyCaches, s).space.Some?
    }

    constructor (applyDiscard: bool)
      ensures Valid() && studies == [] && history == map[] && used == {} && trialIdToStudyNumber == map[]
      ensures studyCaches == map[] && this.applyDiscard == applyDiscard
    {
      studies, trials, trialIdToStudyNumber, studyNumberToTrialId := [], map[], map[], map[];
      studyCaches, nextStudyId, nextTrialId, discardedStateCounts := map[], 0, 0, map[];
      this.applyDiscard := applyDiscard;
      history, used := map[], {};
    }

    /** Study ids come from a counter; a name is taken only once. */
    method CreateNewStudy(name: string) returns (r: Result<nat>)
      requires Valid()
      modifies this
      ensures Valid() && used == old(used) && trialIdToStudyNumber == old(trialIdToStudyNumber)
      ensures r.Err? <==> Named(old(studies), name)
      ensures studies == if r.Ok? then old(studies) + [(r.value, name)] else old(studies)
      ensures studyCaches == old(studyCaches)
      ensures r.Err? ==> r.error == DuplicatedStudy && history == old(history) && trials == old(trials)
      ensures r.Ok? ==>
        r.value !in old(history) && history == old(history)[r.value := []] && trials == old(trials)[r.value := []]
    {
      hide Inverse, StudiesOk, Named;
      if Named(studies, name) {
        return Err(DuplicatedStudy);
      }
      var s := nextStudyId;
      UnusedStudy(studies, history, trials, discardedStateCounts, studyCaches, nextStudyId);
      AddStudyKeeps(studies, history, trials, trialIdToStudyNumber, studyNumberToTrialId, discardedStateCounts,
        studyCaches, nextStudyId, s, name, s + 1);
      nextStudyId := nextStudyId + 1;
      studies := studies + [(s, name)];
      trials := trials[s := []];
      history := history[s := []];
      r := Ok(s);
    }

    /** A study under a chosen id; the same id and name again is no change. */
    method InsertStudyWithId(s: nat, name: string) returns (r: Result<nat>)
      requires Valid()
      modifies this
      ensures Valid() && used == old(used) && trialIdToStudyNumber == old(trialIdToStudyNumber)
      ensures r.Ok? ==> r.value == s && s in history && (s, name) in studies
      ensures studyCaches == old(studyCaches)
      ensures s in old(history) ==> (r.Ok? <==> (s, name) in old(studies))
      ensures s in old(history) && r.Err? ==> r.error == StorageError
      ensures s in old(history) || r.Err? ==>
        history == old(history) && trials == old(trials) && studies == old(studies)
      ensures s !in old(history) ==> (r.Err? <==> Named(old(studies), name))
      ensures s !in old(history) && r.Err? ==> r.error == DuplicatedStudy
      ensures s !in old(history) && r.Ok? ==>
        history == old(history)[s := []] && trials == old(trials)[s := []] && studies == old(studies) + [(s, name)]
    {
      hide Inverse, Named, Listed, StudiesOk, IdsUsed;
      StudiesListed(studies, history, trials, discardedStateCounts, studyCaches, nextStudyId, s);
      var k := FindStudy(studies, s);
      if k < |studies| {
        OnlyName(studies, k, name);
        return if studies[k].1 == name then Ok(s) else Err(StorageError);
      }
      if Named(studies, name) {
        return Err(DuplicatedStudy);
      }
      var next := if s >= nextStudyId then s + 1 else nextStudyId;
      AddStudyKeeps(studies, history, trials, trialIdToStudyNumber, studyNumberToTrialId, discardedStateCounts,
        studyCaches, nextStudyId, s, name, next);
      studies := studies + [(s, name)];
      trials := trials[s := []];
      history := history[s := []];
      nextStudyId := next;
      r := Ok(s);
    }

    /** Appends a trial to a study and registers its id. */
    method Append(s: nat, trial: Trial)
      requires Valid() && s in trials && trial.id !in trialIdToStudyNumber
      requires trial.studyId == s && trial.number == |trials[s]|
      modifies this
      ensures Valid() && history == old(history)[s := old(history)[s] + [trial]]
      ensures trials == old(trials)[s := old(trials)[s] + [Some(trial)]]
      ensures trialIdToStudyNumber == old(trialIdToStudyNumber)[trial.id := (s, trial.number)]
        && used == old(used) + {trial.id}
      ensures nextTrialId == if trial.id >= old(nextTrialId) then trial.id + 1 else old(nextTrialId)
      ensures studies == old(studies) && studyCaches == old(studyCaches)
    {
      hide Inverse, StudiesOk, IdsUsed;
      AppendKeeps(studies, history, trials, trialIdToStudyNumber, studyNumberToTrialId, discardedStateCounts,
        studyCaches, nextStudyId, s, trial);
      var next := if trial.id >= nextTrialId then trial.id + 1 else nextTrialId;
      MoreUsed(trialIdToStudyNumber, used, nextTrialId, trial.id, (s, trial.number), next);
      nextTrialId := next;
      trials := trials[s := trials[s] + [Some(trial)]];
      trialIdToStudyNumber := trialIdToStudyNumber[trial.id := (s, trial.number)];
      studyNumberToTrialId := studyNumberToTrialId[(s, trial.number) := trial.id];
      history := history[s := history[s] + [trial]];
      used := used + {trial.id};
    }

    /** The id of a created trial has never been used before. */
    method CreateNewTrial(s: nat) returns (r: Result<Trial>)
      requires Valid()
      modifies this
      ensures Valid() && (r.Ok? <==> s in old(history)) && studies == old(studies) && studyCaches == old(studyCaches)
      ensures r.Err? ==> r.error == StudyNotFound && history == old(history) && used == old(used)
      ensures r.Ok? ==> r.value.id !in old(used) && used == old(used) + {r.value.id}
      ensures r.Ok? ==> r.value == Trial(r.value.id, s, |old(history)[s]|, Running, map[], map[], map[], map[])
      ensures r.Ok? ==> history == old(history)[s := old(history)[s] + [r.value]]
      ensures r.Ok? ==> s in old(trials) && trials == old(trials)[s := old(trials)[s] + [Some(r.value)]]
      ensures r.Ok? ==> trialIdToStudyNumber == old(trialIdToStudyNumber)[r.value.id := (s, r.value.number)]
    {
      r := CreateNewTrialFromTemplate(s, Trial(0, 0, 0, Running, map[], map[], map[], map[]));
    }

    method CreateNewTrialFromTemplate(s: nat, template: Trial) returns (r: Result<Trial>)
      requires Valid()
      modifies this
      ensures Valid() && (r.Ok? <==> s in old(history)) && studies == old(studies) && studyCaches == old(studyCaches)
      ensures r.Err? ==> r.error == StudyNotFound && history == old(history) && used == old(used)
      ensures r.Ok? ==> r.value.id !in old(used) && used == old(used) + {r.value.id}
      ensures r.Ok? ==> r.value == template.(id := r.value.id, studyId := s, number := |old(history)[s]|)
      ensures r.Ok? ==> history == old(history)[s := old(history)[s] + [r.value]]
      ensures r.Ok? ==> s in old(trials) && trials == old(trials)[s := old(trials)[s] + [Some(r.value)]]
      ensures r.Ok? ==> trialIdToStudyNumber == old(trialIdToStudyNumber)[r.value.id := (s, r.value.number)]
    {
      SameStudies(studies, history, trials, discardedStateCounts, studyCaches, nextStudyId, s);
      hide Inverse, StudiesOk;
      if s !in trials {
        return Err(StudyNotFound);
      }
      NextUnused(trialIdToStudyNumber, used, nextTrialId);
      var trial := template.(id := nextTrialId, studyId := s, number := |trials[s]|);
      Append(s, trial);
      r := Ok(trial);
    }

    /** A trial under a chosen id and number: the next number under an unused id is appended, an
        existing pair is returned, and anything else is refused. */
    method InsertTrialWithId(s: nat, id: nat, number: nat) returns (r: Result<Trial>)
      requires Valid()
      modifies this
      ensures Valid() && studies == old(studies) && studyCaches == old(studyCaches)
      ensures r.Err? ==> history == old(history) && trials == old(trials)
      ensures r.Err? ==> r.error == if s !in old(history) then StudyNotFound
        else if number < |old(history)[s]| && !old(LiveAt((s, number))) then TrialDiscarded else StorageError
      ensures r.Ok? ==> s in old(history)
      ensures s in old(history) && number < |old(history)[s]| ==>
        (r.Ok? <==> old(LiveAt((s, number))) && old(history)[s][number].id == id)
      ensures r.Ok? && number < |old(history)[s]| ==>
        history == old(history) && trials == old(trials) && r.value == history[s][number]
      ensures s in old(history) && number == |old(history)[s]| ==> (r.Ok? <==> id !in old(trialIdToStudyNumber))
      ensures r.Ok? && number >= |old(history)[s]| ==>
        number == |old(history)[s]|
        && history == old(history)[s := old(history)[s] + [r.value]]
        && r.value == Trial(id, s, number, Running, map[], map[], map[], map[])
    {
      SameStudies(studies, history, trials, discardedStateCounts, studyCaches, nextStudyId, s);
      hide Inverse, StudiesOk;
      if s !in trials {
        return Err(StudyNotFound);
      }
      if number > |trials[s]| {
        return Err(StorageError);
      }
      if number < |trials[s]| {
        var slot := trials[s][number];
        if slot.None? {
          return Err(TrialDiscarded);
        }
        return if slot.value.id != id then Err(StorageError) else Ok(slot.value);
      }
      if id in trialIdToStudyNumber {
        return Err(StorageError);
      }
      var trial := Trial(id, s, number, Running, map[], map[], map[], map[]);
      Append(s, trial);
      r := Ok(trial);
    }

    /** Where an id lives and what its slot shows. */
    method Locate(id: nat) returns (r: Result<(nat, nat)>)
      requires Valid()
      ensures r.Ok? <==> id in trialIdToStudyNumber && LiveAt(trialIdToStudyNumber[id])
      ensures r.Ok? ==> r.value == trialIdToStudyNumber[id] && Placed(history, r.value.0, r.value.1, id)
      ensures r.Ok? ==> trials[r.value.0][r.value.1] == Some(history[r.value.0][r.value.1])
      ensures r.Err? ==> r.error == if id in trialIdToStudyNumber then TrialDiscarded else TrialNotFound
    {
      hide StudiesOk, Inverse, IdsUsed;
      if id !in trialIdToStudyNumber {
        return Err(TrialNotFound);
      }
      var (s, n) := trialIdToStudyNumber[id];
      PlacedAt(history, trialIdToStudyNumber, studyNumberToTrialId, id);
      SameStudies(studies, history, trials, discardedStateCounts, studyCaches, nextStudyId, s);
      if trials[s][n].None? {
        return Err(TrialDiscarded);
      }
      r := Ok((s, n));
    }

    /** The trial at this place has not been discarded. */
    predicate LiveAt(at: (nat, nat))
      reads this
    {
      at.0 in trials && at.1 < |trials[at.0]| && trials[at.0][at.1].Some?
    }

    ghost function TrialOf(id: nat): Trial
      requires Valid() && id in trialIdToStudyNumber
      reads this
    {
      PlacedAt(history, trialIdToStudyNumber, studyNumberToTrialId, id);
      history[trialIdToStudyNumber[id].0][trialIdToStudyNumber[id].1]
    }

    /** The checks of every setter: the trial exists, is not discarded and not finished. */
    ghost predicate Writable(id: nat)
      requires Valid()
      reads this
    {
      id in trialIdToStudyNumber && LiveAt(trialIdToStudyNumber[id]) && !TrialOf(id).IsFinished()
    }

    /** Why a setter refuses. */
    ghost function RefusalOf(id: nat): ErrorKind
      requires Valid()
      reads this
    {
      if id !in trialIdToStudyNumber then TrialNotFound
      else if !LiveAt(trialIdToStudyNumber[id]) then TrialDiscarded
      else TrialAlreadyFinished
    }

    method LocateUpdatable(id: nat) returns (r: Result<(nat, nat)>)
      requires Valid()
      ensures r.Ok? <==> Writable(id)
      ensures r.Ok? ==> r.value == trialIdToStudyNumber[id] && Placed(history, r.value.0, r.value.1, id)
      ensures r.Ok? ==>
        && r.value.0 in trials && r.value.1 < |trials[r.value.0]|
        && trials[r.value.0][r.value.1] == Some(history[r.value.0][r.value.1])
      ensures r.Err? ==> r.error == RefusalOf(id)
    {
      hide StudiesOk, Inverse, IdsUsed;
      r := Locate(id);
      if r.Ok? && trials[r.value.0][r.value.1].value.IsFinished() {
        return Err(TrialAlreadyFinished);
      }
    }

    /** Replaces the content of an unfinished live trial. */
    method Store(id: nat, trial: Trial)
      requires Valid() && Writable(id) && SameIdentity(TrialOf(id), trial)
      modifies this`trials, this`history
      ensures Valid() && history == Rewritten(old(history), trialIdToStudyNumber[id], trial)
      ensures trials == Reslotted(old(trials), trialIdToStudyNumber[id], trial)
      ensures TrialOf(id) == trial && LiveAt(trialIdToStudyNumber[id])
    {
      hide StudiesOk, Inverse, IdsUsed;
      PlacedAt(history, trialIdToStudyNumber, studyNumberToTrialId, id);
      var (s, n) := trialIdToStudyNumber[id];
      StoreKeeps(studies, history, trials, trialIdToStudyNumber, studyNumberToTrialId, discardedStateCounts,
        studyCaches, nextStudyId, s, n, trial);
      trials := trials[s := trials[s][n := Some(trial)]];
      history := history[s := history[s][n := trial]];
    }

    method SetTrialStateValues(id: nat, state: StateValues) returns (r: Result<()>)
      requires Valid()
      modifies this`trials, this`history
      ensures Valid() && (r.Ok? <==> old(Writable(id)))
      ensures r.Err? ==> r.error == old(RefusalOf(id)) && history == old(history) && trials == old(trials)
      ensures r.Ok? ==> history == Rewritten(old(history), trialIdToStudyNumber[id], old(TrialOf(id)).(state := state))
      ensures r.Ok? ==> trials == Reslotted(old(trials), trialIdToStudyNumber[id], old(TrialOf(id)).(state := state))
    {
      hide StudiesOk, Inverse, IdsUsed;
      var at := LocateUpdatable(id);
      if at.Err? {
        return Err(at.error);
      }
      Store(id, trials[at.value.0][at.value.1].value.(state := state));
      r := Ok(());
    }

    method SetTrialIntermediateValues(id: nat, values: map<nat, int>) returns (r: Result<()>)
      requires Valid()
      modifies this`trials, this`history
      ensures Valid() && (r.Ok? <==> old(Writable(id)))
      ensures r.Err? ==> r.error == old(RefusalOf(id)) && history == old(history) && trials == old(trials)
      ensures r.Ok? ==>
        history == Rewritten(old(history), trialIdToStudyNumber[id], WithIntermediate(old(TrialOf(id)), values))
      ensures r.Ok? ==>
        trials == Reslotted(old(trials), trialIdToStudyNumber[id], WithIntermediate(old(TrialOf(id)), values))
      ensures r.Ok? ==> IntermediateWritten(old(TrialOf(id)), TrialOf(id), values)
    {
      hide IntermediateWritten, StudiesOk, Inverse, IdsUsed;
      var at := LocateUpdatable(id);
      if at.Err? {
        return Err(at.error);
      }
      WithIntermediateWritten(trials[at.value.0][at.value.1].value, values);
      Store(id, WithIntermediate(trials[at.value.0][at.value.1].value, values));
      r := Ok(());
    }

    /** A parameter is accepted if its distribution fits the one the study has recorded for the name. */
    method SetTrialParam(id: nat, name: string, d: Distribution, value: int) returns (r: Result<()>)
      requires Valid()
      modifies this`trials, this`history, this`studyCaches
      ensures Valid()
      ensures r.Ok? <==> old(Writable(id)) && old(Recordable(id, name, d))
      ensures r.Err? ==> history == old(history) && trials == old(trials) && studyCaches == old(studyCaches)
      ensures r.Err? ==> r.error == if old(Writable(id)) then IncompatibleDistribution else old(RefusalOf(id))
      ensures r.Ok? ==>
        history == Rewritten(old(history), trialIdToStudyNumber[id], WithParam(old(TrialOf(id)), name, d, value))
      ensures r.Ok? ==>
        trials == Reslotted(old(trials), trialIdToStudyNumber[id], WithParam(old(TrialOf(id)), name, d, value))
      ensures r.Ok? ==> ParamWritten(old(TrialOf(id)), TrialOf(id), name, d, value)
      ensures r.Ok? ==>
        var s := trialIdToStudyNumber[id].0;
        studyCaches == Recording(old(studyCaches), s, CacheOf(old(studyCaches), s).paramDistribution[name := d])
    {
      hide ParamWritten, StudiesOk, Inverse, IdsUsed;
      var at := LocateUpdatable(id);
      if at.Err? {
        return Err(at.error);
      }
      var s := at.value.0;
      var cache := CacheOf(studyCaches, s);
      if !Fits(cache.paramDistribution, name, d) {
        return Err(IncompatibleDistribution);
      }
      WithParamWritten(trials[s][at.value.1].value, name, d, value);
      Store(id, WithParam(trials[s][at.value.1].value, name, d, value));
      CacheKeeps(studies, history, trials, discardedStateCounts, studyCaches, nextStudyId, s,
        cache.(paramDistribution := cache.paramDistribution[name := d]));
      studyCaches := studyCaches[s := cache.(paramDistribution := cache.paramDistribution[name := d])];
      r := Ok(());
    }

    predicate Recordable(id: nat, name: string, d: Distribution)
      reads this
    {
      id in trialIdToStudyNumber ==>
        Fits(CacheOf(studyCaches, trialIdToStudyNumber[id].0).paramDistribution, name, d)
    }

    /** Attributes are written one by one, in the order visited. An overwrite that is not allowed stops
        the loop, and what was written before it stays. */
    method SetTrialAttrs(id: nat, attrs: seq<(string, string)>, errorOnOverwrite: bool) returns (r: Result<()>)
      requires Valid() && forall i, j :: 0 <= i < j < |attrs| ==> attrs[i].0 != attrs[j].0
      modifies this`trials, this`history
      ensures Valid()
      ensures r.Ok? <==> old(Writable(id)) && !(errorOnOverwrite && FirstTaken(old(TrialOf(id)).attrs, attrs) < |attrs|)
      ensures r.Err? && !old(Writable(id)) ==>
        r.error == old(RefusalOf(id)) && history == old(history) && trials == old(trials)
      ensures r.Err? && old(Writable(id)) ==> r.error == AttrOverwriteNotAllowed
      ensures old(Writable(id)) ==>
        var t := old(TrialOf(id));
        var written := if errorOnOverwrite then FirstTaken(t.attrs, attrs) else |attrs|;
        && history == Rewritten(old(history), trialIdToStudyNumber[id], WithAttrs(t, MapOf(attrs[..written])))
        && trials == Reslotted(old(trials), trialIdToStudyNumber[id], WithAttrs(t, MapOf(attrs[..written])))
        && AttrsListed(t, TrialOf(id), attrs[..written])
    {
      hide AttrsListed, StudiesOk, Inverse, IdsUsed;
      var at := LocateUpdatable(id);
      if at.Err? {
        return Err(at.error);
      }
      var trial := trials[at.value.0][at.value.1].value;
      var merged, written := MergeAttrs(trial.attrs, attrs, errorOnOverwrite);
      MergedListed(trial, attrs, written);
      Store(id, trial.(attrs := merged));
      r := if written < |attrs| then Err(AttrOverwriteNotAllowed) else Ok(());
    }

    method GetTrials(s: nat) returns (r: Result<Slots>)
      requires Valid()
      ensures r.Ok? <==> s in history
      ensures r.Err? ==> r.error == StudyNotFound
      ensures r.Ok? ==> s in trials && r.value == trials[s] && Shows(history[s], r.value)
    {
      SameStudies(studies, history, trials, discardedStateCounts, studyCaches, nextStudyId, s);
      hide StudiesOk, Inverse, IdsUsed;
      if s !in trials {
        return Err(StudyNotFound);
      }
      r := Ok(trials[s]);
    }

    method GetTrial(id: nat) returns (r: Result<Trial>)
      requires Valid()
      ensures r.Ok? <==> id in trialIdToStudyNumber && LiveAt(trialIdToStudyNumber[id])
      ensures r.Ok? ==> r.value == TrialOf(id) && r.value.id == id
      ensures r.Err? ==> r.error == if id in trialIdToStudyNumber then TrialDiscarded else TrialNotFound
    {
      hide StudiesOk, Inverse, IdsUsed;
      var at := Locate(id);
      if at.Err? {
        return Err(at.error);
      }
      r := Ok(trials[at.value.0][at.value.1].value);
    }

    /** The position of the trial in its study's history, where it stays after a discard. */
    method GetTrialNumberFromId(id: nat) returns (r: Result<nat>)
      requires Valid()
      ensures r.Ok? <==> id in trialIdToStudyNumber
      ensures r.Err? ==> r.error == TrialNotFound
      ensures r.Ok? ==> Placed(history, trialIdToStudyNumber[id].0, r.value, id)
    {
      hide StudiesOk, Inverse, IdsUsed;
      if id !in trialIdToStudyNumber {
        return Err(TrialNotFound);
      }
      PlacedAt(history, trialIdToStudyNumber, studyNumberToTrialId, id);
      r := Ok(trialIdToStudyNumber[id].1);
    }

    /** Every trial the study ever had keeps its id, discarded or not; the inverse of `GetTrialNumberFromId`. */
    method GetTrialIdFromStudyIdTrialNumber(s: nat, n: nat) returns (r: Result<nat>)
      requires Valid()
      ensures r.Ok? <==> s in history && n < |history[s]|
      ensures r.Err? ==> r.error == TrialNotFound
      ensures r.Ok? ==>
        r.value == history[s][n].id && r.value in trialIdToStudyNumber && trialIdToStudyNumber[r.value] == (s, n)
    {
      IdAtPlace(history, trialIdToStudyNumber, studyNumberToTrialId, s, n);
      hide StudiesOk, Inverse, IdsUsed;
      if (s, n) !in studyNumberToTrialId {
        return Err(TrialNotFound);
      }
      r := Ok(studyNumberToTrialId[(s, n)]);
    }

    /** Counts every trial the study ever had by its last state, discarded ones included. */
    method GetNTrials(s: nat, states: Option<set<TrialState>>) returns (r: Result<nat>)
      requires Valid()
      ensures r.Ok? <==> s in history
      ensures r.Err? ==> r.error == StudyNotFound
      ensures r.Ok? ==> r.value == Tally(history[s], states) == |Counted(history[s], states)|
    {
      StudiesListed(studies, history, trials, discardedStateCounts, studyCaches, nextStudyId, s);
      SameStudies(studies, history, trials, discardedStateCounts, studyCaches, nextStudyId, s);
      hide StudiesOk, Inverse, IdsUsed, Listed, SpaceFor, Tally;
      if !Listed(studies, s) {
        return Err(StudyNotFound);
      }
      var live := CountLive(trials[s], states);
      var discarded := SumDiscarded(discardedStateCounts, s, states);
      TallySplit(history[s], trials[s], states);
      TallyCounts(history[s], states);
      r := Ok(live + discarded);
    }

    /** Discards trials in the order given, up to the first unknown id. The history stays, so no count
        changes, however often a trial is discarded. */
    method DiscardTrials(trialIds: seq<nat>) returns (r: Result<()>)
      requires Valid()
      modifies this`trials, this`discardedStateCounts
      ensures Valid()
      ensures r.Ok? <==> !applyDiscard || KnownPrefix(trialIdToStudyNumber, trialIds) == |trialIds|
      ensures r.Err? ==> r.error == TrialNotFound
      ensures !applyDiscard ==> trials == old(trials)
      ensures applyDiscard ==> forall id :: id in trialIdToStudyNumber ==>
        (LiveAt(trialIdToStudyNumber[id]) <==>
          old(LiveAt(trialIdToStudyNumber[id])) && id !in trialIds[..KnownPrefix(trialIdToStudyNumber, trialIds)])
    {
      hide StudiesOk, Inverse, IdsUsed, LiveAt;
      if !applyDiscard {
        return Ok(());
      }
      for k := 0 to |trialIds|
        invariant Valid()
        invariant k <= KnownPrefix(trialIdToStudyNumber, trialIds)
        invariant forall id :: id in trialIdToStudyNumber ==>
          (LiveAt(trialIdToStudyNumber[id]) <==> old(LiveAt(trialIdToStudyNumber[id])) && id !in trialIds[..k])
      {
        var id := trialIds[k];
        PrefixStep(trialIdToStudyNumber, trialIds, k);
        if id !in trialIdToStudyNumber {
          return Err(TrialNotFound);
        }
        assert trialIds[..k + 1] == trialIds[..k] + [id];
        DiscardOne(id);
      }
      r := Ok(());
    }

    /** Takes one slot, counting the state of the trial if it was still there. */
    method DiscardOne(id: nat)
      requires Valid() && id in trialIdToStudyNumber
      modifies this`trials, this`discardedStateCounts
      ensures Valid()
      ensures forall other :: other in trialIdToStudyNumber ==>
        (LiveAt(trialIdToStudyNumber[other]) <==> old(LiveAt(trialIdToStudyNumber[other])) && other != id)
    {
      hide StudiesOk, Inverse, IdsUsed;
      PlacedAt(history, trialIdToStudyNumber, studyNumberToTrialId, id);
      OnlyOneThere(history, trialIdToStudyNumber, studyNumberToTrialId, id);
      var (s, n) := trialIdToStudyNumber[id];
      SameStudies(studies, history, trials, discardedStateCounts, studyCaches, nextStudyId, s);
      var slot := trials[s][n];
      if slot.Some? {
        var state := StateOf(slot.value.state);
        TakeKeeps(studies, history, trials, discardedStateCounts, studyCaches, nextStudyId, s, n);
        trials := trials[s := trials[s][n := None]];
        discardedStateCounts := discardedStateCounts[(s, state) := CountAt(discardedStateCounts, s, state) + 1];
      }
    }

    /** A study goes with all its trials, their ids, its cache and its counts; its trial ids stay used. */
    method DeleteStudy(s: nat) returns (r: Result<()>)
      requires Valid()
      modifies this
      ensures Valid() && used == old(used) && (r.Ok? <==> s in old(history))
      ensures r.Err? ==> r.error == StudyNotFound && history == old(history) && trials == old(trials)
      ensures r.Ok? ==>
        history == old(history) - {s} && trials == old(trials) - {s} && studyCaches == old(studyCaches) - {s}
      ensures r.Err? ==> studyCaches == old(studyCaches)
      ensures forall study :: study in studies <==> study in old(studies) && (r.Ok? ==> study.0 != s)
      ensures forall id :: id in trialIdToStudyNumber <==>
        id in old(trialIdToStudyNumber) && (r.Ok? ==> old(trialIdToStudyNumber)[id].0 != s)
    {
      hide StudiesOk, Inverse, IdsUsed, Listed;
      StudiesListed(studies, history, trials, discardedStateCounts, studyCaches, nextStudyId, s);
      if !Listed(studies, s) {
        return Err(StudyNotFound);
      }
      RemoveKeeps(studies, history, trials, trialIdToStudyNumber, studyNumberToTrialId, discardedStateCounts,
        studyCaches, nextStudyId, s);
      FewerIds(trialIdToStudyNumber, used, nextTrialId, s);
      studies := Retained(studies, s);
      trials := trials - {s};
      trialIdToStudyNumber := IdsWithout(trialIdToStudyNumber, s);
      studyNumberToTrialId := NumbersWithout(studyNumberToTrialId, s);
      discardedStateCounts := CountsWithout(discardedStateCounts, s);
      studyCaches := studyCaches - {s};
      history := history - {s};
      r := Ok(());
    }

    /** Once a complete trial was seen by this call or an earlier one, the search space lies between the
        intersection over all complete trials the study ever had and the one over those not discarded,
        even if all have been discarded; before, it is empty. It is both bounds when nothing was discarded. */
    method GetJointSearchSpace(s: nat) returns (r: Result<Space>)
      requires Valid()
      modifies this`studyCaches
      ensures Valid() && (r.Ok? <==> s in history)
      ensures r.Err? ==> r.error == StudyNotFound
      ensures r.Ok? ==> s in trials && |trials[s]| == |history[s]|
      ensures r.Ok? ==>
        var rows := RowsFor(history[s], trials[s]);
        SpaceBetween(true, rows, old(Seen(s)) || SomeVisible(true, rows), r.value)
      ensures CachesKept(old(studyCaches), studyCaches)
      ensures r.Ok? && NoneStamped(RowsFor(history[s], trials[s])) ==>
        SpaceExact(RowsFor(history[s], trials[s]), r.value)
    {
      hide StudiesOk, Inverse, IdsUsed, SpaceBetween, SpaceExact, CursorMoved, Narrowed, StudyOk, CachesKept,
        SomeVisible;
      KeptReflexive(studyCaches);
      SameStudies(studies, history, trials, discardedStateCounts, studyCaches, nextStudyId, s);
      if s !in trials {
        return Err(StudyNotFound);
      }
      var cache := Update(CacheOf(studyCaches, s), trials[s]);
      NarrowKeeps(studies, history, trials, discardedStateCounts, studyCaches, nextStudyId, s, cache);
      UpdateKept(studyCaches, s, trials[s], cache);
      studyCaches := studyCaches[s := cache];
      r := Ok(JointSearchSpace(cache));
    }
  }

  lemma UnusedStudy(studies: seq<(nat, string)>, history: History, trials: map<nat, Slots>, counts: Counts,
                    caches: map<nat, StudyCache>, nextStudyId: nat)
    requires StudiesOk(studies, history, trials, counts, caches, nextStudyId)
    ensures nextStudyId !in trials
  {
  }

  lemma EmptyStudy(s: nat, counts: Counts, caches: map<nat, StudyCache>)
    requires (forall state :: (s, state) !in counts) && CacheOf(caches, s) == EMPTY
    ensures StudyOk(s, [], [], counts, caches)
  {
  }

  lemma ListedMore(studies: seq<(nat, string)>, s: nat, name: string, t: nat)
    ensures Listed(studies + [(s, name)], t) <==> t == s || Listed(studies, t)
  {
    var more := studies + [(s, name)];
    if Listed(studies, t) {
      var k :| 0 <= k < |studies| && studies[k].0 == t;
      assert more[k].0 == t;
    }
    assert more[|studies|].0 == s;
  }

  lemma UnrepeatedMore(studies: seq<(nat, string)>, s: nat, name: string)
    requires Unrepeated(studies) && !Listed(studies, s) && !Named(studies, name)
    ensures Unrepeated(studies + [(s, name)])
  {
  }

  lemma AddStudyKeeps(studies: seq<(nat, string)>, history: History, trials: map<nat, Slots>, ids: TrialIds,
                      numbers: TrialNumbers,
                      counts: Counts, caches: map<nat, StudyCache>, nextStudyId: nat, s: nat, name: string,
                      nextStudyId': nat)
    requires StudiesOk(studies, history, trials, counts, caches, nextStudyId) && s !in trials
      && Inverse(history, ids, numbers)
    requires s < nextStudyId' && nextStudyId <= nextStudyId' && !Named(studies, name)
    ensures s !in history && Inverse(history[s := []], ids, numbers)
    ensures StudiesOk(studies + [(s, name)], history[s := []], trials[s := []], counts, caches, nextStudyId')
  {
    hide StudyOk, Listed, Unrepeated, Named;
    EmptyStudy(s, counts, caches);
    UnrepeatedMore(studies, s, name);
    forall t ensures Listed(studies + [(s, name)], t) <==> t == s || Listed(studies, t) {
      ListedMore(studies, s, name, t);
    }
    forall id, t, n | Placed(history, t, n, id) ensures Placed(history[s := []], t, n, id) {
    }
  }

  lemma StudiesListed(studies: seq<(nat, string)>, history: History, trials: map<nat, Slots>, counts: Counts,
                      caches: map<nat, StudyCache>, nextStudyId: nat, s: nat)
    requires StudiesOk(studies, history, trials, counts, caches, nextStudyId)
    ensures trials.Keys == history.Keys && (s in trials <==> Listed(studies, s)) && Unrepeated(studies)
    ensures (s in trials <==> s in history)
  {
  }

  lemma SameStudies(studies: seq<(nat, string)>, history: History, trials: map<nat, Slots>, counts: Counts,
                    caches: map<nat, StudyCache>, nextStudyId: nat, s: nat)
    requires StudiesOk(studies, history, trials, counts, caches, nextStudyId)
    ensures s in trials <==> s in history
    ensures s in trials ==> StudyOk(s, history[s], trials[s], counts, caches) && Shows(history[s], trials[s])
  {
  }

  /** A change of one study that keeps that study's invariant. */
  lemma OneStudy(studies: seq<(nat, string)>, history: History, trials: map<nat, Slots>, counts: Counts,
                 caches: map<nat, StudyCache>, nextStudyId: nat,
                 s: nat, h: seq<Trial>, slots: Slots, counts': Counts, caches': map<nat, StudyCache>)
    requires StudiesOk(studies, history, trials, counts, caches, nextStudyId) && s in trials
    requires StudyOk(s, h, slots, counts', caches')
    requires forall t: nat, state ::
      t != s ==>
        && ((t, state) in counts' <==> (t, state) in counts)
        && CountAt(counts', t, state) == CountAt(counts, t, state)
    requires forall t: nat :: t != s ==> (t in caches' <==> t in caches) && CacheOf(caches', t) == CacheOf(caches, t)
    ensures StudiesOk(studies, history[s := h], trials[s := slots], counts', caches', nextStudyId)
  {
  }

  /** The search space stays between its bounds as trials are added, finished and discarded. */
  lemma SpaceKeeps(h: seq<Trial>, slots: Slots, h': seq<Trial>, slots': Slots, cache: StudyCache)
    requires |slots| == |h| && |slots'| == |h'| && SpaceFor(h, slots, cache) && |h| <= |h'|
    requires forall i :: 0 <= i < |h| ==> RowEvolves(RowsFor(h, slots)[i], RowsFor(h', slots')[i])
    requires forall i :: 0 <= i < cache.cursor ==> slots'[i] == None || slots'[i] == slots[i]
    ensures SpaceFor(h', slots', cache)
  {
  }

  lemma AppendKeeps(studies: seq<(nat, string)>, history: History, trials: map<nat, Slots>, ids: TrialIds,
                    numbers: TrialNumbers,
                    counts: Counts, caches: map<nat, StudyCache>, nextStudyId: nat, s: nat, trial: Trial)
    requires StudiesOk(studies, history, trials, counts, caches, nextStudyId) && s in trials
      && Inverse(history, ids, numbers)
    requires trial.id !in ids && trial.studyId == s && trial.number == |trials[s]|
    ensures s in history && trial.number == |history[s]|
    ensures StudiesOk(studies, history[s := history[s] + [trial]], trials[s := trials[s] + [Some(trial)]], counts,
      caches, nextStudyId)
    ensures Inverse(history[s := history[s] + [trial]], ids[trial.id := (s, trial.number)],
      numbers[(s, trial.number) := trial.id])
  {
    hide StudiesOk, Inverse, SpaceFor, Gone;
    SameStudies(studies, history, trials, counts, caches, nextStudyId, s);
    var h, slots := history[s], trials[s];
    AppendStudy(s, h, slots, counts, caches, trial);
    OneStudy(studies, history, trials, counts, caches, nextStudyId, s, h + [trial], slots + [Some(trial)], counts,
      caches);
    AppendInverse(history, ids, numbers, s, trial);
  }

  lemma AppendStudy(s: nat, h: seq<Trial>, slots: Slots, counts: Counts, caches: map<nat, StudyCache>, trial: Trial)
    requires StudyOk(s, h, slots, counts, caches)
    ensures StudyOk(s, h + [trial], slots + [Some(trial)], counts, caches)
  {
    hide SpaceFor, CountAt;
    var (h', slots') := (h + [trial], slots + [Some(trial)]);
    assert h'[..|h|] == h && slots'[..|slots|] == slots;
    forall i | 0 <= i < |h| ensures RowEvolves(RowsFor(h, slots)[i], RowsFor(h', slots')[i]) {
    }
    CursorInside(h, slots, CacheOf(caches, s));
    SpaceKeeps(h, slots, h', slots', CacheOf(caches, s));
  }

  lemma CursorInside(h: seq<Trial>, slots: Slots, cache: StudyCache)
    requires |slots| == |h| && SpaceFor(h, slots, cache)
    ensures cache.cursor <= |slots|
    ensures forall i :: 0 <= i < cache.cursor ==> !IsUnfinished(slots[i])
  {
  }

  lemma AppendInverse(history: History, ids: TrialIds, numbers: TrialNumbers, s: nat, trial: Trial)
    requires Inverse(history, ids, numbers) && s in history
    requires trial.id !in ids && trial.studyId == s && trial.number == |history[s]|
    ensures Inverse(history[s := history[s] + [trial]], ids[trial.id := (s, trial.number)],
      numbers[(s, trial.number) := trial.id])
  {
  }

  lemma PlacedAt(history: History, ids: TrialIds, numbers: TrialNumbers, id: nat)
    requires Inverse(history, ids, numbers) && id in ids
    ensures Placed(history, ids[id].0, ids[id].1, id)
  {
  }

  ghost function Rewritten(history: History, at: (nat, nat), trial: Trial): History
    requires at.0 in history && at.1 < |history[at.0]|
  {
    history[at.0 := history[at.0][at.1 := trial]]
  }

  /** The slots with the one at a place holding `trial`; every other slot stays. */
  function Reslotted(trials: map<nat, Slots>, at: (nat, nat), trial: Trial): map<nat, Slots> {
    if at.0 in trials && at.1 < |trials[at.0]| then trials[at.0 := trials[at.0][at.1 := Some(trial)]] else trials
  }

  lemma StoreKeeps(studies: seq<(nat, string)>, history: History, trials: map<nat, Slots>, ids: TrialIds,
                   numbers: TrialNumbers,
                   counts: Counts, caches: map<nat, StudyCache>, nextStudyId: nat, s: nat, n: nat, trial: Trial)
    requires StudiesOk(studies, history, trials, counts, caches, nextStudyId) && Inverse(history, ids, numbers)
    requires s in trials && s in history && n < |history[s]| && n < |trials[s]| && trials[s][n].Some?
    requires !history[s][n].IsFinished() && SameIdentity(history[s][n], trial) && Placed(history, s, n, trial.id)
    ensures StudiesOk(studies, history[s := history[s][n := trial]], trials[s := trials[s][n := Some(trial)]], counts,
      caches, nextStudyId)
    ensures Inverse(history[s := history[s][n := trial]], ids, numbers)
  {
    hide StudiesOk, Inverse, SpaceFor, Gone;
    SameStudies(studies, history, trials, counts, caches, nextStudyId, s);
    StoreStudy(s, history[s], trials[s], counts, caches, n, trial);
    OneStudy(studies, history, trials, counts, caches, nextStudyId, s, history[s][n := trial],
      trials[s][n := Some(trial)], counts, caches);
    StoreInverse(history, ids, numbers, s, n, trial);
  }

  lemma StoreInverse(history: History, ids: TrialIds, numbers: TrialNumbers, s: nat, n: nat, trial: Trial)
    requires Inverse(history, ids, numbers) && s in history && n < |history[s]|
    requires SameIdentity(history[s][n], trial)
    ensures Inverse(history[s := history[s][n := trial]], ids, numbers)
  {
  }

  lemma StoreStudy(s: nat, h: seq<Trial>, slots: Slots, counts: Counts, caches: map<nat, StudyCache>, n: nat,
                   trial: Trial)
    requires StudyOk(s, h, slots, counts, caches) && n < |h| == |slots| && slots[n].Some?
    requires !h[n].IsFinished() && SameIdentity(h[n], trial)
    ensures StudyOk(s, h[n := trial], slots[n := Some(trial)], counts, caches)
  {
    hide SpaceFor, CountAt, Gone;
    var (h', slots') := (h[n := trial], slots[n := Some(trial)]);
    forall state ensures Gone(h', slots', state) == Gone(h, slots, state) {
      GoneSame(h, slots, h', slots', state);
    }
    forall i | 0 <= i < |h| ensures RowEvolves(RowsFor(h, slots)[i], RowsFor(h', slots')[i]) {
    }
    CursorInside(h, slots, CacheOf(caches, s));
    SpaceKeeps(h, slots, h', slots', CacheOf(caches, s));
  }

  lemma {:induction false} GoneSame(h: seq<Trial>, slots: Slots, h': seq<Trial>, slots': Slots, state: TrialState)
    requires |h| == |h'| == |slots| == |slots'|
    requires forall i :: 0 <= i < |h| ==> (slots[i].None? <==> slots'[i].None?) && (slots[i].None? ==> h[i] == h'[i])
    ensures Gone(h', slots', state) == Gone(h, slots, state)
  {
    if h != [] {
      var n := |h| - 1;
      GoneSame(h[..n], slots[..n], h'[..n], slots'[..n], state);
    }
  }

  /** Recording a distribution does not touch the search space. */
  lemma CacheKeeps(studies: seq<(nat, string)>, history: History, trials: map<nat, Slots>, counts: Counts,
                   caches: map<nat, StudyCache>, nextStudyId: nat,
                   s: nat, cache: StudyCache)
    requires StudiesOk(studies, history, trials, counts, caches, nextStudyId) && s in trials
    requires cache == CacheOf(caches, s).(paramDistribution := cache.paramDistribution)
    ensures StudiesOk(studies, history, trials, counts, caches[s := cache], nextStudyId)
  {
  }

  /** The first attribute, in the order visited, whose key is taken; all of them if none is. */
  function FirstTaken(known: map<string, string>, attrs: seq<(string, string)>): (k: nat)
    ensures k <= |attrs| && (forall j :: 0 <= j < k ==> attrs[j].0 !in known) && (k < |attrs| ==> attrs[k].0 in known)
  {
    if attrs == [] || attrs[0].0 in known then 0 else 1 + FirstTaken(known, attrs[1..])
  }

  function MapOf(attrs: seq<(string, string)>): (m: map<string, string>)
    ensures forall key :: key in m ==> exists j :: 0 <= j < |attrs| && attrs[j].0 == key
  {
    if attrs == [] then map[]
    else
      var n := |attrs| - 1;
      MapOf(attrs[..n])[attrs[n].0 := attrs[n].1]
  }

  lemma MapStep(attrs: seq<(string, string)>, k: nat)
    requires k < |attrs| && forall i, j :: 0 <= i < j < |attrs| ==> attrs[i].0 != attrs[j].0
    ensures MapOf(attrs[..k + 1]) == MapOf(attrs[..k])[attrs[k].0 := attrs[k].1] && attrs[k].0 !in MapOf(attrs[..k])
  {
    assert attrs[..k + 1][..k] == attrs[..k];
    assert forall j :: 0 <= j < k ==> attrs[..k][j].0 != attrs[k].0;
  }

  /** The attributes listed were written, and nothing else of the trial. */
  ghost predicate AttrsListed(t: Trial, t': Trial, attrs: seq<(string, string)>) {
    && (forall k :: 0 <= k < |attrs| ==> attrs[k].0 in t'.attrs && t'.attrs[attrs[k].0] == attrs[k].1)
    && (forall key: string :: (forall k :: 0 <= k < |attrs| ==> attrs[k].0 != key) ==>
          && (key in t'.attrs <==> key in t.attrs)
          && (key in t.attrs ==> t'.attrs[key] == t.attrs[key]))
    && t' == t.(attrs := t'.attrs)
  }

  lemma {:induction false} MapOfListed(attrs: seq<(string, string)>)
    requires forall i, j :: 0 <= i < j < |attrs| ==> attrs[i].0 != attrs[j].0
    ensures forall k :: 0 <= k < |attrs| ==> attrs[k].0 in MapOf(attrs) && MapOf(attrs)[attrs[k].0] == attrs[k].1
  {
    hide MapOf;
    forall k | 0 <= k < |attrs| ensures attrs[k].0 in MapOf(attrs) && MapOf(attrs)[attrs[k].0] == attrs[k].1 {
      MapOfAt(attrs, k);
    }
  }

  lemma {:induction false} MapOfAt(attrs: seq<(string, string)>, k: nat)
    requires k < |attrs| && forall j :: k < j < |attrs| ==> attrs[k].0 != attrs[j].0
    ensures attrs[k].0 in MapOf(attrs) && MapOf(attrs)[attrs[k].0] == attrs[k].1
  {
    var n := |attrs| - 1;
    if k < n {
      MapOfAt(attrs[..n], k);
    }
  }

  lemma MergedListed(t: Trial, attrs: seq<(string, string)>, written: nat)
    requires written <= |attrs| && forall i, j :: 0 <= i < j < |attrs| ==> attrs[i].0 != attrs[j].0
    ensures AttrsListed(t, t.(attrs := t.attrs + MapOf(attrs[..written])), attrs[..written])
  {
    MapOfListed(attrs[..written]);
  }

  method MergeAttrs(known: map<string, string>, attrs: seq<(string, string)>, errorOnOverwrite: bool)
    returns (merged: map<string, string>, written: nat)
    requires forall i, j :: 0 <= i < j < |attrs| ==> attrs[i].0 != attrs[j].0
    ensures written == if errorOnOverwrite then FirstTaken(known, attrs) else |attrs|
    ensures merged == known + MapOf(attrs[..written])
  {
    hide MapOf, FirstTaken;
    merged, written := known, 0;
    MapOfNone(known);
    while written < |attrs|
      invariant written <= |attrs| && merged == known + MapOf(attrs[..written])
      invariant errorOnOverwrite ==> written <= FirstTaken(known, attrs)
    {
      MapStep(attrs, written);
      if errorOnOverwrite && attrs[written].0 in merged {
        return;
      }
      merged := merged[attrs[written].0 := attrs[written].1];
      written := written + 1;
    }
  }

  lemma MapOfNone(known: map<string, string>)
    ensures known + MapOf([]) == known
  {
  }

  lemma IdAtPlace(history: History, ids: TrialIds, numbers: TrialNumbers, s: nat, n: nat)
    requires Inverse(history, ids, numbers)
    ensures (s, n) in numbers <==> s in history && n < |history[s]|
    ensures (s, n) in numbers ==>
      numbers[(s, n)] == history[s][n].id && numbers[(s, n)] in ids && ids[numbers[(s, n)]] == (s, n)
  {
  }

  lemma OnlyOneThere(history: History, ids: TrialIds, numbers: TrialNumbers, id: nat)
    requires Inverse(history, ids, numbers) && id in ids
    ensures forall other :: other in ids && other != id ==> ids[other] != ids[id]
  {
  }

  predicate Wanted(states: Option<set<TrialState>>, state: TrialState) {
    states.None? || state in states.value
  }

  /** How many trials of a list are in a wanted state. */
  ghost function Tally(history: seq<Trial>, states: Option<set<TrialState>>): nat {
    if history == [] then 0
    else
      var n := |history| - 1;
      Tally(history[..n], states) + if Wanted(states, StateOf(history[n].state)) then 1 else 0
  }

  /** The positions of a history in the states asked for. */
  ghost function Counted(history: seq<Trial>, states: Option<set<TrialState>>): set<nat> {
    set i: nat | i < |history| && (states == None || StateOf(history[i].state) in states.value)
  }

  lemma {:induction false} TallyCounts(history: seq<Trial>, states: Option<set<TrialState>>)
    ensures Tally(history, states) == |Counted(history, states)|
  {
    if history != [] {
      hide Wanted, StateOf, Counted;
      var n := |history| - 1;
      TallyCounts(history[..n], states);
      CountedStep(history, states);
    }
  }

  lemma CountedStep(history: seq<Trial>, states: Option<set<TrialState>>)
    requires history != []
    ensures var n := |history| - 1;
      |Counted(history, states)|
        == |Counted(history[..n], states)| + if Wanted(states, StateOf(history[n].state)) then 1 else 0
  {
    hide Counted, Wanted, StateOf;
    var n := |history| - 1;
    var whole, front, wanted :=
      Counted(history, states), Counted(history[..n], states), Wanted(states, StateOf(history[n].state));
    CountedBelow(history, states);
    CountedBelow(history[..n], states);
    forall i: nat ensures i in whole <==> i in front || (wanted && i == n) {
      CountedAt(history, states, i);
    }
    OneMore(whole, front, n, wanted);
  }

  lemma OneMore(whole: set<nat>, front: set<nat>, n: nat, wanted: bool)
    requires n !in front && forall i: nat :: i in whole <==> i in front || (wanted && i == n)
    ensures |whole| == |front| + if wanted then 1 else 0
  {
    assert whole == if wanted then front + {n} else front;
  }

  lemma CountedAt(history: seq<Trial>, states: Option<set<TrialState>>, i: nat)
    ensures i in Counted(history, states) <==> i < |history| && Wanted(states, StateOf(history[i].state))
    ensures history != [] && i < |history| - 1 ==>
      (i in Counted(history, states) <==> i in Counted(history[..|history| - 1], states))
  {
    hide StateOf;
  }

  lemma CountedBelow(history: seq<Trial>, states: Option<set<TrialState>>)
    ensures forall i :: i in Counted(history, states) ==> i < |history|
  {
  }

  ghost function LiveTally(slots: Slots, states: Option<set<TrialState>>): nat {
    if slots == [] then 0
    else
      var n := |slots| - 1;
      LiveTally(slots[..n], states) + if slots[n].Some? && Wanted(states, StateOf(slots[n].value.state)) then 1 else 0
  }

  method CountLive(slots: Slots, states: Option<set<TrialState>>) returns (count: nat)
    ensures count == LiveTally(slots, states)
  {
    count := 0;
    for i := 0 to |slots|
      invariant count == LiveTally(slots[..i], states)
    {
      assert slots[..i + 1][..i] == slots[..i];
      if slots[i].Some? && Wanted(states, StateOf(slots[i].value.state)) {
        count := count + 1;
      }
    }
    assert slots[..|slots|] == slots;
  }

  function If(wanted: bool, count: nat): nat {
    if wanted then count else 0
  }

  /** The discarded trials in wanted states, by the recorded counts. */
  method SumDiscarded(counts: Counts, s: nat, states: Option<set<TrialState>>) returns (sum: nat)
    ensures sum
      == If(Wanted(states, IsRunning), CountAt(counts, s, IsRunning))
        + If(Wanted(states, IsPruned), CountAt(counts, s, IsPruned))
      + If(Wanted(states, IsComplete), CountAt(counts, s, IsComplete))
        + If(Wanted(states, HasFailed), CountAt(counts, s, HasFailed))
      + If(Wanted(states, IsWaiting), CountAt(counts, s, IsWaiting))
  {
    sum := 0;
    var all := [IsRunning, IsPruned, IsComplete, HasFailed, IsWaiting];
    for k := 0 to |all|
      invariant sum == (if k > 0 then If(Wanted(states, IsRunning), CountAt(counts, s, IsRunning)) else 0)
        + (if k > 1 then If(Wanted(states, IsPruned), CountAt(counts, s, IsPruned)) else 0)
        + (if k > 2 then If(Wanted(states, IsComplete), CountAt(counts, s, IsComplete)) else 0)
        + (if k > 3 then If(Wanted(states, HasFailed), CountAt(counts, s, HasFailed)) else 0)
        + (if k > 4 then If(Wanted(states, IsWaiting), CountAt(counts, s, IsWaiting)) else 0)
    {
      if Wanted(states, all[k]) {
        sum := sum + CountAt(counts, s, all[k]);
      }
    }
  }

  /** The discarded trials in wanted states. */
  ghost function GoneTally(history: seq<Trial>, slots: Slots, states: Option<set<TrialState>>): nat
    requires |slots| == |history|
  {
    If(Wanted(states, IsRunning), Gone(history, slots, IsRunning))
      + If(Wanted(states, IsPruned), Gone(history, slots, IsPruned))
    + If(Wanted(states, IsComplete), Gone(history, slots, IsComplete))
      + If(Wanted(states, HasFailed), Gone(history, slots, HasFailed))
    + If(Wanted(states, IsWaiting), Gone(history, slots, IsWaiting))
  }

  lemma GoneTallyStep(history: seq<Trial>, slots: Slots, states: Option<set<TrialState>>)
    requires |slots| == |history| && history != []
    ensures var n := |history| - 1;
      GoneTally(history, slots, states)
      == GoneTally(history[..n], slots[..n], states) + if slots[n].None? && Wanted(states, StateOf(history[n].state))
        then 1 else 0
  {
  }

  /** Live and discarded trials together are the history. */
  lemma {:induction false} TallySplit(history: seq<Trial>, slots: Slots, states: Option<set<TrialState>>)
    requires Shows(history, slots)
    ensures Tally(history, states) == LiveTally(slots, states) + GoneTally(history, slots, states)
  {
    hide Wanted, GoneTally, StateOf;
    if history != [] {
      var n := |history| - 1;
      TallySplit(history[..n], slots[..n], states);
      GoneTallyStep(history, slots, states);
      assert slots[n] == None || slots[n] == Some(history[n]);
    } else {
      NoneGone(states);
    }
  }

  lemma NoneGone(states: Option<set<TrialState>>)
    ensures GoneTally([], [], states) == 0
  {
  }

  /** How many of the ids are known before the first that is not. */
  function KnownPrefix(ids: TrialIds, trialIds: seq<nat>): (k: nat)
    ensures k <= |trialIds|
  {
    if trialIds == [] || trialIds[0] !in ids then 0 else 1 + KnownPrefix(ids, trialIds[1..])
  }

  lemma {:induction false} PrefixStep(ids: TrialIds, trialIds: seq<nat>, k: nat)
    requires k < |trialIds| && k <= KnownPrefix(ids, trialIds)
    ensures trialIds[k] in ids <==> k < KnownPrefix(ids, trialIds)
    decreases k
  {
    if k > 0 {
      PrefixStep(ids, trialIds[1..], k - 1);
    }
  }

  lemma {:induction false} GoneMore(h: seq<Trial>, slots: Slots, n: nat, state: TrialState)
    requires |h| == |slots| && n < |h| && slots[n].Some?
    ensures Gone(h, slots[n := None], state) == Gone(h, slots, state) + if StateOf(h[n].state) == state then 1 else 0
  {
    var last := |h| - 1;
    if n < last {
      GoneMore(h[..last], slots[..last], n, state);
      assert slots[n := None][..last] == slots[..last][n := None];
    } else {
      assert slots[n := None][..last] == slots[..last];
    }
  }

  lemma TakeKeeps(studies: seq<(nat, string)>, history: History, trials: map<nat, Slots>, counts: Counts,
                  caches: map<nat, StudyCache>, nextStudyId: nat, s: nat, n: nat)
    requires StudiesOk(studies, history, trials, counts, caches, nextStudyId) && s in trials && n < |trials[s]|
      && trials[s][n].Some?
    ensures var state := StateOf(trials[s][n].value.state);
      StudiesOk(studies, history, trials[s := trials[s][n := None]],
        counts[(s, state) := CountAt(counts, s, state) + 1], caches, nextStudyId)
  {
    SameStudies(studies, history, trials, counts, caches, nextStudyId, s);
    hide StudiesOk, Gone, SpaceFor;
    var (h, slots) := (history[s], trials[s]);
    var state := StateOf(slots[n].value.state);
    var counts' := counts[(s, state) := CountAt(counts, s, state) + 1];
    TakeStudy(s, h, slots, counts, caches, n);
    OneStudy(studies, history, trials, counts, caches, nextStudyId, s, h, slots[n := None], counts', caches);
    assert history[s := h] == history;
  }

  lemma TakeStudy(s: nat, h: seq<Trial>, slots: Slots, counts: Counts, caches: map<nat, StudyCache>, n: nat)
    requires StudyOk(s, h, slots, counts, caches) && n < |slots| && slots[n].Some?
    ensures var state := StateOf(slots[n].value.state);
      StudyOk(s, h, slots[n := None], counts[(s, state) := CountAt(counts, s, state) + 1], caches)
  {
    hide SpaceFor, Gone;
    var slots' := slots[n := None];
    forall state
      ensures Gone(h, slots', state) == Gone(h, slots, state) + if StateOf(h[n].state) == state then 1 else 0 {
      GoneMore(h, slots, n, state);
    }
    forall i | 0 <= i < |h| ensures RowEvolves(RowsFor(h, slots)[i], RowsFor(h, slots')[i]) {
    }
    CursorInside(h, slots, CacheOf(caches, s));
    SpaceKeeps(h, slots, h, slots', CacheOf(caches, s));
  }

  function Retained(studies: seq<(nat, string)>, s: nat): (kept: seq<(nat, string)>)
    ensures forall t: nat :: Listed(kept, t) <==> t != s && Listed(studies, t)
    ensures forall study :: study in kept <==> study in studies && study.0 != s
    ensures Unrepeated(studies) ==> Unrepeated(kept)
  {
    if studies == [] then []
    else
      var n := |studies| - 1;
      var kept := Retained(studies[..n], s);
      assert studies == studies[..n] + [studies[n]];
      assert forall t: nat :: Listed(studies, t) <==> t == studies[n].0 || Listed(studies[..n], t) by {
        forall t: nat ensures Listed(studies, t) <==> t == studies[n].0 || Listed(studies[..n], t) {
          ListedMore(studies[..n], studies[n].0, studies[n].1, t);
        }
      }
      assert forall t: nat :: Listed(kept + [studies[n]], t) <==> t == studies[n].0 || Listed(kept, t) by {
        forall t: nat ensures Listed(kept + [studies[n]], t) <==> t == studies[n].0 || Listed(kept, t) {
          ListedMore(kept, studies[n].0, studies[n].1, t);
        }
      }
      if studies[n].0 == s then kept else kept + [studies[n]]
  }

  function IdsWithout(ids: TrialIds, s: nat): TrialIds {
    map id | id in ids && ids[id].0 != s :: ids[id]
  }

  function NumbersWithout(numbers: TrialNumbers, s: nat): TrialNumbers {
    map at | at in numbers && at.0 != s :: numbers[at]
  }

  function CountsWithout(counts: Counts, s: nat): Counts {
    map key | key in counts && key.0 != s :: counts[key]
  }

  lemma FewerIds(ids: TrialIds, used: set<nat>, nextTrialId: nat, s: nat)
    requires IdsUsed(ids, used, nextTrialId)
    ensures IdsUsed(IdsWithout(ids, s), used, nextTrialId)
  {
  }

  lemma RemoveKeeps(studies: seq<(nat, string)>, history: History, trials: map<nat, Slots>, ids: TrialIds,
                    numbers: TrialNumbers,
                    counts: Counts, caches: map<nat, StudyCache>, nextStudyId: nat, s: nat)
    requires StudiesOk(studies, history, trials, counts, caches, nextStudyId) && Inverse(history, ids, numbers)
    ensures StudiesOk(Retained(studies, s), history - {s}, trials - {s}, CountsWithout(counts, s), caches - {s},
      nextStudyId)
    ensures Inverse(history - {s}, IdsWithout(ids, s), NumbersWithout(numbers, s))
  {
    hide Retained, Listed, SpaceFor, Gone, Shows;
    var (counts', caches') := (CountsWithout(counts, s), caches - {s});
    forall t | t in trials && t != s ensures StudyOk(t, history[t], trials[t], counts', caches') {
      assert StudyOk(t, history[t], trials[t], counts, caches);
      assert forall state :: CountAt(counts', t, state) == CountAt(counts, t, state);
      assert CacheOf(caches', t) == CacheOf(caches, t);
    }
    RemoveInverse(history, ids, numbers, s);
  }

  lemma RemoveInverse(history: History, ids: TrialIds, numbers: TrialNumbers, s: nat)
    requires Inverse(history, ids, numbers)
    ensures Inverse(history - {s}, IdsWithout(ids, s), NumbersWithout(numbers, s))
  {
  }

  /** An update of the study cache narrows the search space to between its bounds. */
  lemma NarrowKeeps(studies: seq<(nat, string)>, history: History, trials: map<nat, Slots>, counts: Counts,
                    caches: map<nat, StudyCache>, nextStudyId: nat,
                    s: nat, cache: StudyCache)
    requires StudiesOk(studies, history, trials, counts, caches, nextStudyId) && s in trials && s in history
    requires CursorMoved(CacheOf(caches, s).cursor, trials[s], cache.cursor)
    requires Narrowed(CacheOf(caches, s).space, trials[s], CacheOf(caches, s).cursor, cache.space)
    ensures StudiesOk(studies, history, trials, counts, caches[s := cache], nextStudyId)
    ensures |trials[s]| == |history[s]|
    ensures var rows := RowsFor(history[s], trials[s]);
      SpaceBetween(true, rows, CacheOf(caches, s).space.Some? || SomeVisible(true, rows), JointSearchSpace(cache))
    ensures NoneStamped(RowsFor(history[s], trials[s])) ==>
      SpaceExact(RowsFor(history[s], trials[s]), JointSearchSpace(cache))
  {
    hide StudiesOk, Gone, SpaceFor, CursorMoved, Narrowed, SpaceOk, SpaceBetween, SpaceExact, SomeVisible;
    SameStudies(studies, history, trials, counts, caches, nextStudyId, s);
    var (h, slots) := (history[s], trials[s]);
    var v := View(slots, [], -1, None, cache);
    NarrowedSpace(h, slots, CacheOf(caches, s), cache);
    OneStudy(studies, history, trials, counts, caches, nextStudyId, s, h, slots, counts, caches[s := cache]);
    assert history[s := h] == history && trials[s := slots] == trials;
    SeenInStorage(h, slots, CacheOf(caches, s), cache);
    JointSpaceBounds(true, RowsFor(h, slots), v);
    if NoneStamped(RowsFor(h, slots)) {
      JointSpaceExact(true, RowsFor(h, slots), v);
    }
  }

  lemma SeenInStorage(h: seq<Trial>, slots: Slots, before: StudyCache, cache: StudyCache)
    requires Shows(h, slots) && SpaceFor(h, slots, before)
    requires Narrowed(before.space, slots, before.cursor, cache.space)
    ensures cache.space.Some? <==> before.space.Some? || SomeVisible(true, RowsFor(h, slots))
  {
    hide Above, Narrowed, SomeVisible;
    var v := View(slots[..before.cursor], [], -1, None, before);
    assert Below(before.space, v.slots);
    forall i | 0 <= i < before.cursor && StudyCaches.IsComplete(slots[i]) ensures before.space.Some? {
      assert StudyCaches.IsComplete(v.slots[i]);
    }
    SeenBy(true, RowsFor(h, slots), before.space, slots, before.cursor, cache.space);
  }

  lemma NarrowedSpace(h: seq<Trial>, slots: Slots, before: StudyCache, cache: StudyCache)
    requires Shows(h, slots) && SpaceFor(h, slots, before)
    requires CursorMoved(before.cursor, slots, cache.cursor)
      && Narrowed(before.space, slots, before.cursor, cache.space)
    ensures SpaceFor(h, slots, cache) && SpaceOk(RowsFor(h, slots), View(slots, [], -1, None, cache))
    ensures slots == VisibleAll(true, RowsFor(h, slots))
  {
    hide Below, Above, CursorMoved, Narrowed;
    var v := View(slots[..before.cursor], [], -1, None, before);
    UpdateSpace(RowsFor(h, slots), v, slots, cache);
    assert cache.cursor <= |slots|;
    BelowPrefix(cache.space, slots, cache.cursor);
  }

  lemma BelowPrefix(space: Option<Space>, slots: Slots, n: nat)
    requires Below(space, slots) && n <= |slots|
    ensures Below(space, slots[..n])
  {
  }
}
