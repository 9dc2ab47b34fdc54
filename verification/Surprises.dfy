/** Runs in which the code does what its comments or its callers would not expect. Each method is a
    complete run from an empty store, so the states it ends in are reachable. */
module Surprises {
  import opened Trials
  import opened Backend
  import opened StudyCaches
  import opened CacheInvariant
  import opened CachedStorages
  import InMemory

  /** Two processes share a store. The first creates a trial, and the second discards it. */
  method DiscardedByAnother(template: Trial) returns (first: CachedStorage, id: nat)
    requires ProperTemplate(template)
    ensures fresh(first) && fresh(first.backend) && first.Valid() && first.applyDiscard
    ensures id in first.backend.ids && id in first.trialIdToLocation
    ensures first.backend.RowOf(id).trial.state == template.state && first.backend.RowOf(id).stamp.Some?
    ensures first.backend.RowOf(id).trial.distributions == template.distributions
    ensures first.backend.Rows(first.backend.ids[id].0) == [first.backend.RowOf(id)]
    ensures first.KnownFinished(id) <==> template.IsFinished()
    ensures !first.KnownDiscarded(id)
  {
    hide EvolvesAll, LocationsOk, Consistent, AllInv;
    var backend := new SharedBackend(true);
    first := new CachedStorage(backend);
    var second := new CachedStorage(backend);
    label empty:
    var s := first.CreateNewStudy();
    second.OtherClient@empty();
    label study:
    var created := first.CreateNewTrialFromTemplate(s, template);
    second.OtherClient@study();
    id := created.value.id;
    KnownLocation(first.trialIdToLocation, backend.ids, id);
    label trial:
    var discarded := second.DiscardTrials([id], backend.lastStamp);
    first.OtherClient@trial();
  }

  /** The first process, not having noticed the discard, reports a failure: the call is refused, yet
      the store takes the new state. */
  method RefusedStateIsRecorded() returns (first: CachedStorage, id: nat, r: Result<()>)
    ensures first.Valid() && id in first.backend.ids
    ensures r == Err(TrialDiscarded) && first.backend.RowOf(id).trial.state == Fail
  {
    hide EvolvesAll, LocationsOk, Consistent, AllInv;
    first, id := DiscardedByAnother(Trial(0, 0, 0, Running, map[], map[], map[], map[]));
    RowAt(first.backend, id);
    r := first.SetTrialStateValues(id, Fail);
  }

  /** A study that exists but holds no trial is reported missing to a process that never cached it. */
  method EmptyStudyIsMissing() returns (other: CachedStorage, s: nat, r: Result<Slots>)
    ensures other.Valid() && s in other.backend.studies && r == Err(StudyNotFound)
  {
    hide EvolvesAll, LocationsOk, Consistent, AllInv;
    var backend := new SharedBackend(true);
    var first := new CachedStorage(backend);
    other := new CachedStorage(backend);
    label empty:
    s := first.CreateNewStudy();
    other.OtherClient@empty();
    r := other.GetTrials(s);
  }

  /** A discarded trial is still served by a process that has cached it as finished. */
  method DiscardedTrialIsServed() returns (first: CachedStorage, id: nat, r: Result<Trial>)
    ensures first.Valid() && id in first.backend.ids && first.Hidden(first.backend.RowOf(id))
    ensures r == Ok(first.backend.RowOf(id).trial)
  {
    hide EvolvesAll, LocationsOk, Consistent, AllInv;
    first, id := DiscardedByAnother(Trial(0, 0, 0, Fail, map[], map[], map[], map[]));
    KnownLocation(first.trialIdToLocation, first.backend.ids, id);
    r := first.GetTrial(id);
  }

  /** A template without objective values is refused, and leaves a running trial behind. */
  method RefusedTemplateLeavesTrial() returns (storage: CachedStorage, s: nat, r: Result<Trial>)
    ensures storage.Valid() && r == Err(InvalidObjectiveValues)
    ensures |storage.backend.Rows(s)| == 1 && storage.backend.Rows(s)[0].trial.state == Running
  {
    hide EvolvesAll, LocationsOk, Consistent, AllInv, CachesKept;
    var backend := new SharedBackend(true);
    storage := new CachedStorage(backend);
    s := storage.CreateNewStudy();
    r := storage.CreateNewTrialFromTemplate(s, Trial(0, 0, 0, Complete([]), map[], map[], map[], map[]));
  }

  const CHOICE: Distribution := Categorical(2)
  const CHOSEN: Trial := Trial(0, 0, 0, Complete([1]), map["x" := 0], map["x" := CHOICE], map[], map[])

  /** The only complete trial, and with it all complete trials, has a parameter. A process that comes
      to the study after the trial was discarded does not find it in the joint search space. */
  method AgreedParameterIsMissed() returns (late: CachedStorage, s: nat, r: Result<map<string, Distribution>>)
    ensures late.Valid() && Agreed(late.backend.Rows(s), "x", CHOICE)
    ensures r == Ok(map[])
  {
    hide EvolvesAll, LocationsOk, Consistent, AllInv, SpaceExact, CachesKept;
    var first, id := DiscardedByAnother(CHOSEN);
    RowAt(first.backend, id);
    s := first.backend.ids[id].0;
    OnlyOne(first.backend.RowOf(id), "x", CHOICE);
    late := new CachedStorage(first.backend);
    r := late.GetJointSearchSpace(s);
  }

  /** What a single, discarded row of a complete trial shows, and what it agrees on. */
  lemma OnlyOne(row: Row, name: string, d: Distribution)
    requires row.trial.state.Complete? && row.stamp.Some? && !d.IsSingle() && Holds(row.trial.distributions, name, d)
    ensures Agreed([row], name, d) && !SomeVisible(true, [row])
  {
    assert [row][0].trial.state.Complete?;
  }

  /** The same in memory, for a process that discards the trial before it first asks. */
  method AgreedParameterIsMissedInMemory()
      returns (storage: InMemory.InMemoryStorage, s: nat, r: Result<map<string, Distribution>>)
    ensures storage.Valid() && s in storage.history && |storage.history[s]| == 1
    ensures Holds(storage.history[s][0].distributions, "x", CHOICE) && storage.history[s][0].state.Complete?
    ensures r == Ok(map[])
  {
    hide InMemory.StudiesOk, InMemory.Inverse, InMemory.IdsUsed, InMemory.KnownPrefix, SpaceExact, CachesKept;
    storage := new InMemory.InMemoryStorage(true);
    var study := storage.CreateNewStudy("study");
    s := study.value;
    var created := storage.CreateNewTrialFromTemplate(s, CHOSEN);
    AllKnown(storage.trialIdToStudyNumber, created.value.id);
    var discarded := storage.DiscardTrials([created.value.id]);
    r := storage.GetJointSearchSpace(s);
    ghost var rows := InMemory.RowsFor(storage.history[s], storage.trials[s]);
    assert rows == [rows[0]];
    OnlyOne(rows[0], "x", CHOICE);
  }

  lemma AllKnown(ids: InMemory.TrialIds, id: nat)
    requires id in ids
    ensures InMemory.KnownPrefix(ids, [id]) == 1 && id in [id][..1]
  {
    assert [id][..1] == [id];
  }

  /** An in-memory storage with one running trial. */
  method OneTrial(attrs: map<string, string>) returns (storage: InMemory.InMemoryStorage, id: nat)
    ensures fresh(storage) && storage.Valid() && storage.applyDiscard && storage.Writable(id)
    ensures id + 1 !in storage.trialIdToStudyNumber && storage.TrialOf(id).attrs == attrs
  {
    hide InMemory.StudiesOk, InMemory.Inverse, InMemory.IdsUsed;
    storage := new InMemory.InMemoryStorage(true);
    var s := storage.CreateNewStudy("study");
    var created := storage.CreateNewTrialFromTemplate(s.value, Trial(0, 0, 0, Running, map[], map[], map[], attrs));
    id := created.value.id;
  }

  /** The in-memory storage refuses to overwrite the second attribute, and keeps the first. */
  method RefusedAttrsAreKept() returns (storage: InMemory.InMemoryStorage, id: nat, r: Result<()>)
    ensures storage.Valid() && id in storage.trialIdToStudyNumber
    ensures r == Err(AttrOverwriteNotAllowed) && storage.TrialOf(id).attrs == map["a" := "new", "b" := "old"]
  {
    hide InMemory.StudiesOk, InMemory.Inverse, InMemory.IdsUsed, InMemory.MapOf, InMemory.FirstTaken;
    storage, id := OneTrial(map["b" := "old"]);
    var attrs := [("a", "new"), ("b", "new")];
    OnlyTheFirst();
    InMemory.PlacedAt(storage.history, storage.trialIdToStudyNumber, storage.studyNumberToTrialId, id);
    r := storage.SetTrialAttrs(id, attrs, true);
    assert attrs[..1] == [("a", "new")];
    assert storage.TrialOf(id).attrs == map["b" := "old"] + map["a" := "new"];
  }

  lemma OnlyTheFirst()
    ensures InMemory.FirstTaken(map["b" := "old"], [("a", "new"), ("b", "new")]) == 1
    ensures InMemory.MapOf([("a", "new")]) == map["a" := "new"]
  {
    assert [("a", "new"), ("b", "new")][1..][0].0 == "b";
  }

  /** The in-memory storage fails on an unknown id, and keeps the discards before it. */
  method RefusedDiscardsAreKept() returns (storage: InMemory.InMemoryStorage, id: nat, r: Result<()>)
    ensures storage.Valid() && id in storage.trialIdToStudyNumber
    ensures r == Err(TrialNotFound) && !storage.LiveAt(storage.trialIdToStudyNumber[id])
  {
    hide InMemory.StudiesOk, InMemory.Inverse, InMemory.IdsUsed, InMemory.KnownPrefix;
    storage, id := OneTrial(map[]);
    StopsAtUnknown(storage.trialIdToStudyNumber, id);
    r := storage.DiscardTrials([id, id + 1]);
  }

  lemma StopsAtUnknown(ids: InMemory.TrialIds, id: nat)
    requires id in ids && id + 1 !in ids
    ensures InMemory.KnownPrefix(ids, [id, id + 1]) == 1 && id in [id, id + 1][..1]
  {
    assert [id, id + 1][1..] == [id + 1];
    assert [id, id + 1][..1][0] == id;
  }
}
