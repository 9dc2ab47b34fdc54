/** The caching storage over a shared backend (`cache.rs`). Client calls are atomic with respect to
    the steps of other processes, which may happen between any two of them. */
module CachedStorages {
  import opened Options
  import opened Trials
  import opened StudyCaches
  import opened Backend
  import opened CacheInvariant

  type Locations = map<nat, (nat, nat)>

  class CachedStorage {
    var trials: map<nat, Slots>
    var trialIdToLocation: Locations
    var studyCaches: map<nat, StudyCache>
    var unfinishedTrials: map<nat, seq<nat>>
    var lastFinishedTrialNumber: map<nat, int>
    var discardCursor: map<nat, int>
    const applyDiscard: bool
    const backend: SharedBackend

    function State(): Caches
      reads this
    {
      Caches(trials, studyCaches, unfinishedTrials, lastFinishedTrialNumber, discardCursor)
    }

    /** The invariant of every reachable state. */
    ghost predicate Valid()
      reads this, backend
    {
      && backend.Valid() && applyDiscard == backend.applyDiscard
      && LocationsOk(trialIdToLocation, backend.ids)
      && AllInv(applyDiscard, backend.studies, State())
    }

    /** What clients may see of a study. */
    ghost function VisibleTrials(s: nat): Slots
      reads backend
    {
      VisibleAll(backend.applyDiscard, backend.Rows(s))
    }

    /** The cached trials of a study; none if it is not cached. */
    function Cached(s: nat): Slots
      reads this
    {
      State().ViewOf(s).slots
    }

    /** This process has seen a complete trial of the study. */
    predicate Seen(s: nat)
      reads this
    {
      CacheOf(studyCaches, s).space.Some?
    }

    constructor (backend: SharedBackend)
      requires backend.Valid()
      ensures Valid() && this.backend == backend && State() == Caches(map[], map[], map[], map[], map[])
    {
      trials, trialIdToLocation, studyCaches := map[], map[], map[];
      unfinishedTrials, lastFinishedTrialNumber, discardCursor := map[], map[], map[];
      applyDiscard := backend.applyDiscard;
      this.backend := backend;
    }

    /** Other processes write between two client calls. */
    method OtherProcesses(studies': Studies, ids': Locations, nextTrialId': nat, nextStudyId': nat, lastStamp': int)
      requires Valid() && Consistent(studies', ids', nextTrialId', nextStudyId', lastStamp')
      requires EvolvesAll(backend.studies, studies') && LocationsOk(backend.ids, ids')
      modifies backend
      ensures Valid() && backend.studies == studies' && backend.ids == ids'
    {
      AllEvolve(applyDiscard, backend.studies, studies', State());
      hide AllInv, Consistent, EvolvesAll;
      backend.OtherProcesses(studies', ids', nextTrialId', nextStudyId', lastStamp');
    }

    /** Whatever another client does that lets the backend evolve leaves this client valid. */
    twostate lemma OtherClient()
      requires old(Valid()) && unchanged(this) && backend.Valid()
      requires EvolvesAll(old(backend.studies), backend.studies) && LocationsOk(old(backend.ids), backend.ids)
      ensures Valid()
    {
      AllEvolve(applyDiscard, old(backend.studies), backend.studies, State());
    }

    /** The two backend reads of a refresh: what is unfinished or new, and what was discarded since
        the cursor, which moves to the latest discard read. */
    method ReadDiff(s: nat) returns (loaded: seq<Trial>, discarded: seq<nat>, ghost next: Option<int>)
      requires backend.Valid() && applyDiscard == backend.applyDiscard
      modifies this`discardCursor
      ensures DiffOf(applyDiscard, backend.Rows(s), old(State()).ViewOf(s).unfinished,
        old(State()).ViewOf(s).lastFinished, loaded)
      ensures if applyDiscard then DiscardsOf(backend.Rows(s), old(State()).ViewOf(s).cursor, discarded, next)
        else discarded == [] && next == None
      ensures discardCursor == if next.Some? then old(discardCursor)[s := next.value] else old(discardCursor)
    {
      hide Consistent, DiffOf, DiscardsOf;
      var unfinished := if s in unfinishedTrials then unfinishedTrials[s] else [];
      var lastFinished := LastOf(lastFinishedTrialNumber, s);
      loaded := backend.GetTrialsDiff(s, unfinished, lastFinished);
      discarded, next := [], None;
      if applyDiscard {
        var numbers, cursor :=
          backend.GetDiscardedTrialsDiff(s, if s in discardCursor then Some(discardCursor[s]) else None);
        if cursor.Some? {
          discardCursor := discardCursor[s := cursor.value];
        }
        discarded, next := numbers, cursor;
      }
    }

    /** Brings one study in line with the backend: loads what is unfinished or new, then applies the
        discards since the cursor. */
    method RefreshTrials(s: nat)
      requires Valid()
      modifies this
      ensures Valid() && Cached(s) == VisibleTrials(s)
      ensures OthersSame(old(State()), State(), s)
      ensures trials.Keys == old(trials.Keys) + if backend.Rows(s) == [] then {} else {s}
      ensures CachesKept(old(studyCaches), studyCaches)
      ensures Seen(s) <==> old(Seen(s)) || SomeVisible(applyDiscard, backend.Rows(s))
      ensures old(trialIdToLocation.Keys) <= trialIdToLocation.Keys
    {
      hide AllInv, StudyInv, Consistent, DiffOf, DiscardsOf, SelfNumbered, RowsOf, VisibleAll, OthersSame,
        Caches.ViewOf,
        SomeVisible, CachesKept;
      KeptReflexive(studyCaches);
      ghost var c, next := State(), None;
      RowsNumbered(backend, s);
      var loaded, discarded;
      loaded, discarded, next := ReadDiff(s);
      if loaded == [] && discarded == [] {
        NothingToRefresh(applyDiscard, backend.studies, c, s, next);
        return;
      }
      ApplyRefresh(c, s, loaded, discarded, next);
    }

    /** The writes of a refresh that read something; `c` is what the reads started from. */
    method ApplyRefresh(ghost c: Caches, s: nat, loaded: seq<Trial>, discarded: seq<nat>, ghost next: Option<int>)
      requires backend.Valid() && applyDiscard == backend.applyDiscard && LocationsOk(trialIdToLocation, backend.ids)
      requires AllInv(applyDiscard, backend.studies, c) && SelfNumbered(backend.Rows(s))
        && (loaded != [] || discarded != [])
      requires State() == c.(discardCursor := if next.Some? then c.discardCursor[s := next.value] else c.discardCursor)
      requires DiffOf(applyDiscard, backend.Rows(s), c.ViewOf(s).unfinished, c.ViewOf(s).lastFinished, loaded)
      requires if applyDiscard then DiscardsOf(backend.Rows(s), c.ViewOf(s).cursor, discarded, next)
        else discarded == [] && next == None
      modifies this`trials, this`trialIdToLocation, this`studyCaches, this`unfinishedTrials,
        this`lastFinishedTrialNumber
      ensures Valid() && Cached(s) == VisibleTrials(s)
      ensures OthersSame(c, State(), s) && trials.Keys == c.trials.Keys + {s} && backend.Rows(s) != []
      ensures CachesKept(c.studyCaches, studyCaches)
      ensures Seen(s) <==> CacheOf(c.studyCaches, s).space.Some? || SomeVisible(applyDiscard, backend.Rows(s))
      ensures old(trialIdToLocation.Keys) <= trialIdToLocation.Keys
    {
      hide AllInv, StudyInv, Consistent, DiffOf, DiscardsOf, Applied, CursorMoved, Narrowed, Recomputed, LocationsOk,
        LearntFrom,
        SelfNumbered, Positioned, RowsOf, VisibleAll, OthersSame, IsUnfinished, IsComplete, SomeVisible, CachesKept;
      var view := State().ViewOf(s);
      var slots, locations := ApplyDiff(s, view.slots, trialIdToLocation, loaded, discarded);
      LoadedLocations(backend, s, c.ViewOf(s).unfinished, c.ViewOf(s).lastFinished, loaded, trialIdToLocation,
        locations);
      SyncedNumbers(applyDiscard, backend.studies, c, s, loaded, discarded, next, slots);
      trialIdToLocation := locations;
      hide Caches.ViewOf;
      StoreSlots(s, slots);
      RefreshKeeps(applyDiscard, backend.studies, c, s, loaded, discarded, next, State());
    }

    /** Stores one study's refreshed slots and brings everything derived from them up to date. */
    method StoreSlots(s: nat, slots: Slots)
      requires Positioned(slots)
      modifies this`trials, this`studyCaches, this`unfinishedTrials, this`lastFinishedTrialNumber
      ensures trials == old(trials)[s := slots]
      ensures s in studyCaches && studyCaches == old(studyCaches)[s := studyCaches[s]]
        && CachesKept(old(studyCaches), studyCaches)
      ensures CursorMoved(CacheOf(old(studyCaches), s).cursor, slots, studyCaches[s].cursor)
      ensures Narrowed(CacheOf(old(studyCaches), s).space, slots, CacheOf(old(studyCaches), s).cursor,
        studyCaches[s].space)
      ensures s in unfinishedTrials && unfinishedTrials == old(unfinishedTrials)[s := unfinishedTrials[s]]
      ensures s in lastFinishedTrialNumber
        && lastFinishedTrialNumber == old(lastFinishedTrialNumber)[s := lastFinishedTrialNumber[s]]
      ensures Recomputed(applyDiscard, slots, LastOf(old(lastFinishedTrialNumber), s), unfinishedTrials[s],
        lastFinishedTrialNumber[s])
    {
      hide CursorMoved, Narrowed, Recomputed, Positioned, CachesKept;
      trials := trials[s := slots];
      var studyCache := Update(CacheOf(studyCaches, s), slots);
      UpdateKept(studyCaches, s, slots, studyCache);
      studyCaches := studyCaches[s := studyCache];
      RecomputeTrialBookkeeping(s);
    }

    /** Collects the unfinished trials of a study, and moves its refresh cursor past everything that
        will not change any more. */
    method RecomputeTrialBookkeeping(s: nat)
      requires s in trials ==> Positioned(trials[s])
      modifies this`unfinishedTrials, this`lastFinishedTrialNumber
      ensures s !in trials ==> State() == old(State())
      ensures s in trials ==> s in unfinishedTrials && s in lastFinishedTrialNumber
      ensures s in trials ==>
        unfinishedTrials == old(unfinishedTrials)[s := unfinishedTrials[s]]
        && lastFinishedTrialNumber == old(lastFinishedTrialNumber)[s := lastFinishedTrialNumber[s]]
      ensures s in trials ==>
        Recomputed(applyDiscard, trials[s], old(LastOf(lastFinishedTrialNumber, s)), unfinishedTrials[s],
          lastFinishedTrialNumber[s])
    {
      if s !in trials {
        return;
      }
      var slots := trials[s];
      var unfinished: seq<nat> := [];
      var last := LastOf(lastFinishedTrialNumber, s);
      ghost var was := last;
      for number := 0 to |slots|
        invariant forall n: nat :: n in unfinished <==> n < number && IsUnfinished(slots[n])
        invariant was <= last && (last == was || (0 <= last < number && Terminal(applyDiscard, slots[last])))
        invariant forall n: nat :: n < number && Terminal(applyDiscard, slots[n]) ==> n <= last
      {
        match slots[number]
        case None =>
          if applyDiscard {
            last := if last < number then number else last;
          }
        case Some(trial) =>
          if trial.IsFinished() {
            last := if last < trial.number then trial.number else last;
          } else {
            unfinished := unfinished + [trial.number];
          }
      }
      unfinishedTrials := unfinishedTrials[s := unfinished];
      lastFinishedTrialNumber := lastFinishedTrialNumber[s := last];
    }

    /** Where a trial lives, asking the backend if the cache does not know. */
    method ResolveTrialLocation(id: nat) returns (r: Result<(nat, nat)>)
      requires Valid()
      modifies this
      ensures Valid() && (r.Ok? <==> id in backend.ids)
      ensures r.Err? ==> r.error == TrialNotFound
      ensures r.Err? || id in old(trialIdToLocation) ==>
        State() == old(State()) && trialIdToLocation == old(trialIdToLocation)
      ensures r.Ok? ==> r.value == backend.ids[id] && id in trialIdToLocation
      ensures r.Ok? && id !in old(trialIdToLocation) ==> Cached(r.value.0) == VisibleTrials(r.value.0)
      ensures CachesKept(old(studyCaches), studyCaches)
    {
      hide AllInv, Consistent, CachesKept;
      KeptReflexive(studyCaches);
      if id in trialIdToLocation {
        return Ok(trialIdToLocation[id]);
      }
      var found := backend.GetTrial(id);
      if found.Err? {
        return Err(found.error);
      }
      var s, n := found.value.studyId, found.value.number;
      trialIdToLocation := trialIdToLocation[id := (s, n)];
      RefreshTrials(s);
      r := Ok((s, n));
    }

    predicate IsTrialFinishedInCache(s: nat, n: nat)
      reads this
    {
      n < |Cached(s)| && Cached(s)[n].Some? && Cached(s)[n].value.IsFinished()
    }

    /** An empty slot stands for a discarded trial; a trial beyond the slots may just not be loaded yet. */
    predicate IsTrialDiscardedInCache(s: nat, n: nat)
      reads this
    {
      applyDiscard && n < |Cached(s)| && Cached(s)[n].None?
    }

    /** Whether the cache takes the trial for discarded once it has resolved its location. */
    ghost predicate KnownDiscarded(id: nat)
      requires backend.Valid() && id in backend.ids
      reads this, backend
    {
      if id in trialIdToLocation then IsTrialDiscardedInCache(backend.ids[id].0, backend.ids[id].1)
      else Hidden(backend.RowOf(id))
    }

    /** Whether the cache already holds the finished trial. */
    predicate KnownFinished(id: nat)
      reads this
    {
      id in trialIdToLocation && IsTrialFinishedInCache(trialIdToLocation[id].0, trialIdToLocation[id].1)
    }

    /** Why a write is refused: a trial cached as finished is finished even if hidden; `otherwise` if
        nothing is wrong with the trial. */
    ghost function WriteRefusal(id: nat, otherwise: ErrorKind): ErrorKind
      requires backend.Valid()
      reads this, backend
    {
      if id !in backend.ids then TrialNotFound
      else if Hidden(backend.RowOf(id)) && !KnownFinished(id) then TrialDiscarded
      else if backend.RowOf(id).trial.IsFinished() then TrialAlreadyFinished
      else otherwise
    }

    /** Why a state change is refused. A discard the cache does not know of is noticed last. */
    ghost function StateRefusal(id: nat, state: StateValues): ErrorKind
      requires backend.Valid()
      reads this, backend
    {
      if id !in backend.ids then TrialNotFound
      else if KnownDiscarded(id) then TrialDiscarded
      else if state == Complete([]) then InvalidObjectiveValues
      else if backend.RowOf(id).trial.IsFinished() then TrialAlreadyFinished
      else TrialDiscarded
    }

    predicate Hidden(row: Row) {
      applyDiscard && row.stamp.Some?
    }

    method CreateNewStudy() returns (s: nat)
      requires Valid()
      modifies this, backend
      ensures Valid() && s !in old(backend.studies) && backend.studies == old(backend.studies)[s := []]
      ensures EvolvesAll(old(backend.studies), backend.studies) && backend.ids == old(backend.ids)
      ensures s in trials && Cached(s) == VisibleTrials(s) && OthersSame(old(State()), State(), s)
      ensures !Seen(s)
    {
      hide AllInv, Consistent, EvolvesAll;
      ghost var studies := backend.studies;
      s := backend.CreateNewStudy();
      AllEvolve(applyDiscard, studies, backend.studies, State());
      NewStudyKeeps(applyDiscard, backend.studies, State(), s);
      trials := trials[s := []];
      studyCaches := studyCaches[s := EMPTY];
      unfinishedTrials := unfinishedTrials[s := []];
      lastFinishedTrialNumber := lastFinishedTrialNumber[s := -1];
    }

    /** Caches a trial this process has just created. Trials persisted by others that are not cached
        yet are loaded first, so that no slot is left empty without being discarded. */
    method RegisterCreated(s: nat, trial: Trial)
      requires Valid() && trial.id in backend.ids && backend.ids[trial.id] == (s, trial.number)
      requires |backend.Rows(s)| == trial.number + 1 && backend.Rows(s)[trial.number] == Row(trial, None)
      modifies this
      ensures Valid() && |Cached(s)| == |backend.Rows(s)| && Cached(s)[trial.number] == Some(trial)
      ensures trial.id in trialIdToLocation && CachesKept(old(studyCaches), studyCaches)
    {
      KeptReflexive(studyCaches);
      ghost var before := studyCaches;
      hide CachesKept, AllInv, Consistent, RowsOf, VisibleAll, OthersSame, Caches.ViewOf, LastOf;
      trialIdToLocation := trialIdToLocation[trial.id := (s, trial.number)];
      if |Cached(s)| < trial.number {
        RefreshTrials(s);
      }
      var slots := Cached(s);
      if |slots| <= trial.number {
        slots := slots + seq(trial.number + 1 - |slots|, _ => None);
      }
      slots := slots[trial.number := Some(trial)];
      CachedWithin(applyDiscard, backend.studies, State(), s);
      assert slots == Registered(Cached(s), trial);
      ghost var refreshed := studyCaches;
      RegisterSlots(s, trial, slots);
      KeptTransitive(before, refreshed, studyCaches);
    }

    method RegisterSlots(s: nat, trial: Trial, slots: Slots)
      requires Valid() && trial.number <= |Cached(s)| && slots == Registered(Cached(s), trial)
      requires |backend.Rows(s)| == trial.number + 1 && backend.Rows(s)[trial.number] == Row(trial, None)
      modifies this`trials, this`studyCaches, this`unfinishedTrials, this`lastFinishedTrialNumber
      ensures Valid() && |Cached(s)| == |backend.Rows(s)| && Cached(s)[trial.number] == Some(trial)
      ensures CachesKept(old(studyCaches), studyCaches)
    {
      hide CachesKept, AllInv, Consistent, CursorMoved, Narrowed, RowsOf, VisibleAll, OthersSame, Caches.ViewOf,
        LocationsOk, Trial.IsFinished, LastOf, Positioned, Registered;
      ghost var c := State();
      var view := State().ViewOf(s);
      trials := trials[s := slots];
      var studyCache := Update(CacheOf(studyCaches, s), slots);
      UpdateKept(studyCaches, s, slots, studyCache);
      studyCaches := studyCaches[s := studyCache];
      NoteCreated(s, trial, view.unfinished);
      RegisterKeeps(applyDiscard, backend.studies, c, s, trial, State());
    }

    /** A created trial that is not finished is listed for refreshing; a finished one may advance the cursor. */
    method NoteCreated(s: nat, trial: Trial, unfinished: seq<nat>)
      modifies this`unfinishedTrials, this`lastFinishedTrialNumber
      ensures unfinishedTrials ==
        if trial.IsFinished() then old(unfinishedTrials) else old(unfinishedTrials)[s := unfinished + [trial.number]]
      ensures lastFinishedTrialNumber == if !trial.IsFinished() then old(lastFinishedTrialNumber)
        else old(lastFinishedTrialNumber)[s := Later(old(LastOf(lastFinishedTrialNumber, s)), trial.number)]
    {
      if !trial.IsFinished() {
        unfinishedTrials := unfinishedTrials[s := unfinished + [trial.number]];
      } else {
        lastFinishedTrialNumber :=
          lastFinishedTrialNumber[s := Later(LastOf(lastFinishedTrialNumber, s), trial.number)];
      }
    }

    method CreateNewTrial(s: nat) returns (r: Result<Trial>)
      requires Valid()
      modifies this, backend
      ensures Valid() && (r.Ok? <==> s in old(backend.studies))
      ensures r.Err? ==> r.error == StudyNotFound && backend.studies == old(backend.studies) && State() == old(State())
      ensures r.Ok? ==> r.value == Trial(r.value.id, s, |old(backend.studies)[s]|, Running, map[], map[], map[], map[])
      ensures r.Ok? ==> backend.studies == old(backend.studies)[s := old(backend.studies)[s] + [Row(r.value, None)]]
      ensures EvolvesAll(old(backend.studies), backend.studies) && LocationsOk(old(backend.ids), backend.ids)
      ensures r.Err? ==> backend.ids == old(backend.ids)
      ensures r.Ok? ==>
        r.value.id !in old(backend.ids) && backend.ids == old(backend.ids)[r.value.id := (s, r.value.number)]
      ensures r.Ok? ==> r.value.id in trialIdToLocation
      ensures CachesKept(old(studyCaches), studyCaches)
      ensures r.Ok? ==> |Cached(s)| == |backend.Rows(s)| && Cached(s)[r.value.number] == Some(r.value)
    {
      hide AllInv, Consistent, EvolvesAll, CachesKept;
      KeptReflexive(studyCaches);
      ghost var studies := backend.studies;
      r := backend.CreateNewTrial(s);
      if r.Err? {
        return;
      }
      AllEvolve(applyDiscard, studies, backend.studies, State());
      RegisterCreated(s, r.value);
    }

    /** A refused template leaves the cache as it was, and the backend too, except that one with empty
        objective values leaves a running trial in the backend. */
    method CreateNewTrialFromTemplate(s: nat, template: Trial) returns (r: Result<Trial>)
      requires Valid()
      modifies this, backend
      ensures Valid() && EvolvesAll(old(backend.studies), backend.studies) && LocationsOk(old(backend.ids), backend.ids)
      ensures r.Ok? <==> s in old(backend.studies) && ProperTemplate(template)
      ensures r.Err? ==> r.error == TemplateError(template, s in old(backend.studies)) && State() == old(State())
      ensures r.Err? && r.error != InvalidObjectiveValues ==>
        backend.studies == old(backend.studies) && backend.ids == old(backend.ids)
      ensures r == Err(InvalidObjectiveValues) ==> exists trial ::
        Appended(old(backend.studies), old(backend.ids), s, template.(state := Running), trial, backend.studies,
          backend.ids)
      ensures r.Ok? ==>
        Appended(old(backend.studies), old(backend.ids), s, template, r.value, backend.studies, backend.ids)
      ensures r.Ok? ==> r.value.id in trialIdToLocation
      ensures CachesKept(old(studyCaches), studyCaches)
      ensures r.Ok? ==> |Cached(s)| == |backend.Rows(s)| && Cached(s)[r.value.number] == Some(r.value)
    {
      hide AllInv, Consistent, EvolvesAll, CachesKept;
      KeptReflexive(studyCaches);
      ghost var studies, ids := backend.studies, backend.ids;
      r := backend.CreateNewTrialFromTemplate(s, template);
      AllEvolve(applyDiscard, studies, backend.studies, State());
      if r.Err? {
        LocationsGrow(trialIdToLocation, ids, backend.ids);
        return;
      }
      RegisterCreated(s, r.value);
    }

    /** Puts a trial the backend has just changed on the refresh list and refreshes. */
    method RefreshWritten(s: nat, n: nat)
      requires Valid()
      modifies this
      ensures Valid() && Cached(s) == VisibleTrials(s) && (backend.Rows(s) != [] ==> s in trials)
      ensures CachesKept(old(studyCaches), studyCaches)
    {
      hide AllInv, Consistent, RowsOf, VisibleAll, OthersSame, CachesKept;
      PushKeeps(applyDiscard, backend.studies, State(), s, n);
      unfinishedTrials := unfinishedTrials[s := State().ViewOf(s).unfinished + [n]];
      RefreshTrials(s);
    }

    /** Writes into a cached slot what it already holds. */
    method RewriteSlot(s: nat, n: nat, trial: Trial)
      requires n < |Cached(s)| && Cached(s)[n] == Some(trial)
      modifies this`trials
      ensures State() == old(State())
    {
      ghost var was := trials;
      trials := trials[s := trials[s][n := Some(trial)]];
      assert trials[s] == was[s];
      assert trials == was;
    }

    /** Updates a study cache from the cached trials, recording a parameter's distribution on the way. */
    method UpdateStudyCache(s: nat, paramDistribution: Space)
      requires Valid()
      modifies this`studyCaches
      ensures Valid() && Cached(s) == old(Cached(s))
      ensures CachesKept(Recording(old(studyCaches), s, paramDistribution), studyCaches)
      ensures paramDistribution == CacheOf(old(studyCaches), s).paramDistribution ==>
        CachesKept(old(studyCaches), studyCaches)
      ensures Cached(s) == VisibleTrials(s) ==>
        (Seen(s) <==> old(Seen(s)) || SomeVisible(applyDiscard, backend.Rows(s)))
    {
      hide AllInv, Consistent, CursorMoved, Narrowed, RowsOf, OthersSame, CachesKept, SomeVisible;
      var view := State().ViewOf(s);
      var studyCache := Update(CacheOf(studyCaches, s).(paramDistribution := paramDistribution), view.slots);
      UpdateKeeps(applyDiscard, backend.studies, State(), s, studyCache);
      KeptReflexive(studyCaches);
      RecordingKept(studyCaches, studyCaches, s, paramDistribution);
      UpdateKept(Recording(studyCaches, s, paramDistribution), s, view.slots, studyCache);
      assert Recording(studyCaches, s, paramDistribution)[s := studyCache] == studyCaches[s := studyCache];
      if paramDistribution == view.cache.paramDistribution {
        KeptTransitive(studyCaches, Recording(studyCaches, s, paramDistribution), studyCaches[s := studyCache]);
      }
      studyCaches := studyCaches[s := studyCache];
    }

    /** The checks that the three setters below share: the trial is refreshed, unless the cache holds it
        as finished, and must then be neither discarded nor finished. */
    method LocateWritable(id: nat, ghost otherwise: ErrorKind) returns (r: Result<(nat, nat)>)
      requires Valid()
      modifies this
      ensures Valid()
      ensures r.Ok? <==> id in backend.ids && !backend.RowOf(id).trial.IsFinished() && !Hidden(backend.RowOf(id))
      ensures r.Err? ==> r.error == old(WriteRefusal(id, otherwise))
      ensures r.Ok? ==> old(WriteRefusal(id, otherwise)) == otherwise
      ensures r.Ok? ==> r.value == backend.ids[id] && Cached(r.value.0) == VisibleTrials(r.value.0)
      ensures CachesKept(old(studyCaches), studyCaches)
    {
      hide AllInv, Consistent, EvolvesAll, VisibleAll, Caches.ViewOf, LocationsOk, OthersSame, CachesKept;
      ghost var before := studyCaches;
      ghost var known := KnownFinished(id);
      ghost var cached := id in trialIdToLocation;
      if cached {
        KnownLocation(trialIdToLocation, backend.ids, id);
      }
      var found := ResolveTrialLocation(id);
      if found.Err? {
        return Err(found.error);
      }
      var (s, n) := found.value;
      RowAt(backend, id);
      if IsTrialFinishedInCache(s, n) {
        SlotFacts(applyDiscard, backend.studies, State(), s, n);
        return Err(TrialAlreadyFinished);
      }
      assert !known;
      ghost var resolved := studyCaches;
      RefreshTrials(s);
      KeptTransitive(before, resolved, studyCaches);
      var checked := CheckVisible(id, s, n);
      r := if checked.Ok? then Ok((s, n)) else Err(checked.error);
    }

    /** Whether a trial of a refreshed study is neither discarded nor finished. */
    method CheckVisible(id: nat, s: nat, n: nat) returns (r: Result<()>)
      requires Valid() && id in backend.ids && backend.ids[id] == (s, n) && Cached(s) == VisibleTrials(s)
      ensures r == if Hidden(backend.RowOf(id)) then Err(TrialDiscarded)
        else if backend.RowOf(id).trial.IsFinished() then Err(TrialAlreadyFinished) else Ok(())
    {
      hide AllInv, Consistent, LocationsOk, Caches.ViewOf;
      RowAt(backend, id);
      if IsTrialDiscardedInCache(s, n) {
        return Err(TrialDiscarded);
      }
      if IsTrialFinishedInCache(s, n) {
        return Err(TrialAlreadyFinished);
      }
      r := Ok(());
    }

    /** Succeeds exactly on a visible unfinished trial and a compatible distribution, and then cache
        and backend hold the new parameter; otherwise nothing is written. */
    method SetTrialParam(id: nat, name: string, d: Distribution, value: int) returns (r: Result<()>)
      requires Valid()
      modifies this, backend`studies
      ensures Valid()
      ensures r.Ok? <==>
        && id in backend.ids && !old(backend.RowOf(id)).trial.IsFinished() && !Hidden(old(backend.RowOf(id)))
        && Fits(CacheOf(old(studyCaches), backend.ids[id].0).paramDistribution, name, d)
      ensures r.Err? ==> backend.studies == old(backend.studies)
      ensures r.Err? ==> r.error == old(WriteRefusal(id, IncompatibleDistribution))
      ensures EvolvesAll(old(backend.studies), backend.studies)
      ensures r.Ok? ==>
        backend.studies
          == Stored(old(backend.studies), backend.ids[id], WithParam(old(backend.RowOf(id).trial), name, d, value))
        && Cached(backend.ids[id].0) == VisibleTrials(backend.ids[id].0)
      ensures r.Ok? ==> ParamWritten(old(backend.RowOf(id)).trial, backend.RowOf(id).trial, name, d, value)
      ensures r.Ok? ==>
        var known := CacheOf(old(studyCaches), backend.ids[id].0).paramDistribution;
        && CachesKept(Recording(old(studyCaches), backend.ids[id].0, known[name := d]), studyCaches)
        && CacheOf(studyCaches, backend.ids[id].0).paramDistribution == known[name := d]
      ensures r.Err? ==> CachesKept(old(studyCaches), studyCaches)
    {
      hide AllInv, Consistent, EvolvesAll, OthersSame, VisibleAll, Caches.ViewOf, LocationsOk, WithParam, CachesKept,
        ParamWritten;
      ghost var before := studyCaches;
      EvolvesAllReflexive(backend.studies);
      var found := LocateWritable(id, IncompatibleDistribution);
      if found.Err? {
        return Err(found.error);
      }
      var (s, n) := found.value;
      ghost var row := backend.RowOf(id);
      RowAt(backend, id);
      KeptAt(before, studyCaches, s);
      var known := CacheOf(studyCaches, s).paramDistribution;
      if !Fits(known, name, d) {
        return Err(IncompatibleDistribution);
      }
      ghost var studies := backend.studies;
      var written := backend.SetTrialParam(id, name, d, value);
      AllEvolve(applyDiscard, studies, backend.studies, State());
      ghost var located := studyCaches;
      RefreshWritten(s, n);
      WithParamTwice(row.trial, name, d, value);
      assert Cached(s)[n] == Some(WithParam(row.trial, name, d, value));
      RewriteSlot(s, n, WithParam(Cached(s)[n].value, name, d, value));
      ghost var refreshed := studyCaches;
      UpdateStudyCache(s, known[name := d]);
      KeptTransitive(before, located, refreshed);
      RecordingKept(before, refreshed, s, known[name := d]);
      KeptTransitive(Recording(before, s, known[name := d]), Recording(refreshed, s, known[name := d]), studyCaches);
      KeptAt(Recording(before, s, known[name := d]), studyCaches, s);
      r := Ok(());
    }

    /** Succeeds exactly on a visible unfinished trial and proper values. A trial another process has
        discarded, not yet known here, takes the new state in the backend although the call fails. */
    method SetTrialStateValues(id: nat, state: StateValues) returns (r: Result<()>)
      requires Valid()
      modifies this, backend`studies
      ensures Valid()
      ensures r.Ok? <==>
        && id in backend.ids && state != Complete([])
        && !old(backend.RowOf(id)).trial.IsFinished() && !Hidden(old(backend.RowOf(id)))
      ensures backend.studies ==
        if id in backend.ids && state != Complete([]) && !old(backend.RowOf(id)).trial.IsFinished()
          && !old(KnownDiscarded(id))
        then Stored(old(backend.studies), backend.ids[id], old(backend.RowOf(id).trial).(state := state))
        else old(backend.studies)
      ensures r.Err? ==> r.error == old(StateRefusal(id, state))
      ensures EvolvesAll(old(backend.studies), backend.studies)
      ensures r.Ok? ==> Cached(backend.ids[id].0) == VisibleTrials(backend.ids[id].0)
      ensures CachesKept(old(studyCaches), studyCaches)
    {
      hide AllInv, Consistent, EvolvesAll, OthersSame, VisibleAll, Caches.ViewOf, LocationsOk, CachesKept;
      ghost var before := studyCaches;
      EvolvesAllReflexive(backend.studies);
      var found := ResolveTrialLocation(id);
      if found.Err? {
        return Err(found.error);
      }
      var (s, n) := found.value;
      ghost var row := backend.RowOf(id);
      RowAt(backend, id);
      if IsTrialDiscardedInCache(s, n) {
        SlotFacts(applyDiscard, backend.studies, State(), s, n);
        return Err(TrialDiscarded);
      }
      ghost var studies := backend.studies;
      var written := backend.SetTrialStateValues(id, state);
      if written.Err? {
        return Err(written.error);
      }
      AllEvolve(applyDiscard, studies, backend.studies, State());
      ghost var resolved := studyCaches;
      r := ShowState(id, s, n, state);
      KeptTransitive(before, resolved, studyCaches);
    }

    /** Brings a state the backend has just taken into the cache, unless the trial turns out discarded. */
    method ShowState(id: nat, s: nat, n: nat, state: StateValues) returns (r: Result<()>)
      requires Valid() && id in backend.ids && backend.ids[id] == (s, n) && backend.RowOf(id).trial.state == state
      modifies this
      ensures Valid() && Cached(s) == VisibleTrials(s)
      ensures r == if Hidden(backend.RowOf(id)) then Err(TrialDiscarded) else Ok(())
      ensures CachesKept(old(studyCaches), studyCaches)
    {
      hide AllInv, Consistent, EvolvesAll, OthersSame, VisibleAll, Caches.ViewOf, LocationsOk, CachesKept, SomeVisible;
      ghost var before := studyCaches;
      RowAt(backend, id);
      RefreshWritten(s, n);
      if Cached(s)[n].None? {
        return Err(TrialDiscarded);
      }
      RewriteSlot(s, n, Cached(s)[n].value.(state := state));
      ghost var refreshed := studyCaches;
      UpdateStudyCache(s, CacheOf(studyCaches, s).paramDistribution);
      KeptTransitive(before, refreshed, studyCaches);
      r := Ok(());
    }

    /** Succeeds exactly on a visible unfinished trial, or with nothing to write. */
    method SetTrialIntermediateValues(id: nat, values: map<nat, int>) returns (r: Result<()>)
      requires Valid()
      modifies this, backend`studies
      ensures Valid()
      ensures r.Ok? <==>
        || values == map[]
        || (id in backend.ids && !old(backend.RowOf(id)).trial.IsFinished() && !Hidden(old(backend.RowOf(id))))
      ensures r.Err? || values == map[] ==> backend.studies == old(backend.studies)
      ensures r.Err? ==> r.error == old(WriteRefusal(id, StorageError))
      ensures EvolvesAll(old(backend.studies), backend.studies)
      ensures r.Ok? && values != map[] ==>
        backend.studies
          == Stored(old(backend.studies), backend.ids[id], WithIntermediate(old(backend.RowOf(id).trial), values))
        && Cached(backend.ids[id].0) == VisibleTrials(backend.ids[id].0)
      ensures r.Ok? && values != map[] ==>
        IntermediateWritten(old(backend.RowOf(id)).trial, backend.RowOf(id).trial, values)
      ensures CachesKept(old(studyCaches), studyCaches)
    {
      hide AllInv, Consistent, EvolvesAll, OthersSame, VisibleAll, Caches.ViewOf, LocationsOk, CachesKept,
        IntermediateWritten;
      KeptReflexive(studyCaches);
      EvolvesAllReflexive(backend.studies);
      if values == map[] {
        return Ok(());
      }
      var found := LocateWritable(id, StorageError);
      if found.Err? {
        return Err(found.error);
      }
      var (s, n) := found.value;
      WriteIntermediate(id, s, n, values);
      r := Ok(());
    }

    /** The write of `set_trial_intermediate_values`, to the backend and to the cached trial. */
    method WriteIntermediate(id: nat, s: nat, n: nat, values: map<nat, int>)
      requires Valid() && id in backend.ids && backend.ids[id] == (s, n) && values != map[]
      requires Cached(s) == VisibleTrials(s) && !backend.RowOf(id).trial.IsFinished() && !Hidden(backend.RowOf(id))
      modifies this`trials, backend`studies
      ensures Valid() && Cached(s) == VisibleTrials(s)
      ensures backend.studies
        == Stored(old(backend.studies), (s, n), WithIntermediate(old(backend.RowOf(id).trial), values))
      ensures IntermediateWritten(old(backend.RowOf(id)).trial, backend.RowOf(id).trial, values)
      ensures EvolvesAll(old(backend.studies), backend.studies)
    {
      hide AllInv, Consistent, EvolvesAll, OthersSame, VisibleAll, LocationsOk, WithIntermediate, IntermediateWritten;
      ghost var studies := backend.studies;
      ghost var row := backend.RowOf(id);
      RowAt(backend, id);
      var written := backend.SetTrialIntermediateValues(id, values);
      AllEvolve(applyDiscard, studies, backend.studies, State());
      PatchVisible(applyDiscard, studies, s, n, WithIntermediate(row.trial, values));
      SameState(row.trial, values);
      assert trials[s] == Cached(s) && trials[s][n] == Some(row.trial);
      PatchKeeps(applyDiscard, backend.studies, State(), s, n, WithIntermediate(row.trial, values));
      trials := trials[s := trials[s][n := Some(WithIntermediate(trials[s][n].value, values))]];
    }

    /** Succeeds exactly on a visible unfinished trial whose attributes may be written. */
    method SetTrialAttrs(id: nat, attrs: map<string, string>, errorOnOverwrite: bool) returns (r: Result<()>)
      requires Valid()
      modifies this, backend`studies
      ensures Valid()
      ensures r.Ok? <==>
        && id in backend.ids && !old(backend.RowOf(id)).trial.IsFinished() && !Hidden(old(backend.RowOf(id)))
        && !(errorOnOverwrite && Overwrites(old(backend.RowOf(id)).trial, attrs))
      ensures r.Err? ==> backend.studies == old(backend.studies)
      ensures r.Err? ==> r.error == old(WriteRefusal(id, AttrOverwriteNotAllowed))
      ensures EvolvesAll(old(backend.studies), backend.studies)
      ensures r.Ok? ==>
        backend.studies == Stored(old(backend.studies), backend.ids[id], WithAttrs(old(backend.RowOf(id).trial), attrs))
        && Cached(backend.ids[id].0) == VisibleTrials(backend.ids[id].0)
      ensures r.Ok? ==> AttrsWritten(old(backend.RowOf(id)).trial, backend.RowOf(id).trial, attrs)
      ensures CachesKept(old(studyCaches), studyCaches)
    {
      hide AllInv, Consistent, EvolvesAll, OthersSame, VisibleAll, Caches.ViewOf, LocationsOk, WithAttrs, Overwrites,
        CachesKept, AttrsWritten;
      ghost var before := studyCaches;
      EvolvesAllReflexive(backend.studies);
      var found := LocateWritable(id, AttrOverwriteNotAllowed);
      if found.Err? {
        return Err(found.error);
      }
      var (s, n) := found.value;
      ghost var row := backend.RowOf(id);
      RowAt(backend, id);
      ghost var studies := backend.studies;
      var written := backend.SetTrialAttrs(id, attrs, errorOnOverwrite);
      if written.Err? {
        return Err(written.error);
      }
      AllEvolve(applyDiscard, studies, backend.studies, State());
      ghost var located := studyCaches;
      RefreshTrials(s);
      KeptTransitive(before, located, studyCaches);
      WithAttrsTwice(row.trial, attrs);
      assert Cached(s)[n] == Some(WithAttrs(row.trial, attrs));
      RewriteSlot(s, n, WithAttrs(Cached(s)[n].value, attrs));
      r := Ok(());
    }

    /** Fails only for a study that has never had a cached entry and holds no trial. */
    method GetTrials(s: nat) returns (r: Result<Slots>)
      requires Valid()
      modifies this
      ensures Valid() && (r.Ok? <==> s in old(trials) || backend.Rows(s) != [])
      ensures r.Err? ==> r.error == StudyNotFound
      ensures r.Ok? ==> r.value == Cached(s) == VisibleTrials(s)
      ensures Seen(s) <==> old(Seen(s)) || SomeVisible(applyDiscard, backend.Rows(s))
      ensures CachesKept(old(studyCaches), studyCaches)
    {
      hide AllInv, Consistent, OthersSame, VisibleAll, LocationsOk, SomeVisible, CachesKept;
      ghost var before := studyCaches;
      RefreshTrials(s);
      if s !in trials {
        return Err(StudyNotFound);
      }
      r := Ok(trials[s]);
      ghost var refreshed := studyCaches;
      UpdateStudyCache(s, CacheOf(studyCaches, s).paramDistribution);
      KeptTransitive(before, refreshed, studyCaches);
    }

    /** The backend's trial, unless it is hidden; a cached finished trial is served without asking. */
    method GetTrial(id: nat) returns (r: Result<Trial>)
      requires Valid()
      modifies this
      ensures Valid() && (r == Err(TrialNotFound) <==> id !in backend.ids)
      ensures r.Ok? <==>
        && id in backend.ids
        && (!Hidden(backend.RowOf(id))
          || (id in old(trialIdToLocation) && old(IsTrialFinishedInCache(backend.ids[id].0, backend.ids[id].1))))
      ensures r.Err? && id in backend.ids ==> r.error == TrialDiscarded
      ensures r.Ok? ==> r.value == backend.RowOf(id).trial
      ensures CachesKept(old(studyCaches), studyCaches)
    {
      hide AllInv, Consistent, EvolvesAll, OthersSame, VisibleAll, LocationsOk, CachesKept;
      ghost var before := studyCaches;
      var found := ResolveTrialLocation(id);
      if found.Err? {
        return Err(found.error);
      }
      var (s, n) := found.value;
      RowAt(backend, id);
      if IsTrialFinishedInCache(s, n) {
        SlotFacts(applyDiscard, backend.studies, State(), s, n);
      } else {
        ghost var resolved := studyCaches;
        RefreshTrials(s);
        KeptTransitive(before, resolved, studyCaches);
      }
      KnownLocation(trialIdToLocation, backend.ids, id);
      r := GetCachedTrial(id);
    }

    /** What the cache holds, without asking the backend. */
    method GetCachedTrial(id: nat) returns (r: Result<Trial>)
      requires Valid()
      ensures r.Ok? ==>
        && id in backend.ids && r.value.id == id
        && (r.value.IsFinished() ==> r.value == backend.RowOf(id).trial)
      ensures r.Err? ==> r.error == if id !in trialIdToLocation then TrialNotFound
        else if trialIdToLocation[id].0 !in trials then StudyNotFound else TrialDiscarded
      ensures r.Ok? <==>
        && id in trialIdToLocation
        && var (s, n) := trialIdToLocation[id]; n < |Cached(s)| && Cached(s)[n].Some?
      ensures r.Ok? ==> r.value == Cached(trialIdToLocation[id].0)[trialIdToLocation[id].1].value
    {
      hide AllInv, Consistent, LocationsOk;
      if id !in trialIdToLocation {
        return Err(TrialNotFound);
      }
      var (s, n) := trialIdToLocation[id];
      if s !in trials {
        return Err(StudyNotFound);
      }
      if n >= |trials[s]| || trials[s][n].None? {
        return Err(TrialDiscarded);
      }
      KnownLocation(trialIdToLocation, backend.ids, id);
      RowAt(backend, id);
      SlotFacts(applyDiscard, backend.studies, State(), s, n);
      r := Ok(trials[s][n].value);
    }

    method GetTrialNumberFromId(id: nat) returns (r: Result<nat>)
      requires Valid()
      modifies this`trialIdToLocation
      ensures Valid() && (r.Ok? <==> id in backend.ids)
      ensures r.Err? ==> r.error == TrialNotFound
      ensures r.Ok? ==> r.value == backend.ids[id].1
    {
      hide AllInv, Consistent;
      if id in trialIdToLocation {
        return Ok(trialIdToLocation[id].1);
      }
      var found := backend.GetTrial(id);
      if found.Err? {
        return Err(found.error);
      }
      trialIdToLocation := trialIdToLocation[id := (found.value.studyId, found.value.number)];
      r := Ok(found.value.number);
    }

    /** The id of a visible trial; the inverse of `GetTrialNumberFromId`. */
    method GetTrialIdFromStudyIdTrialNumber(s: nat, n: nat) returns (r: Result<nat>)
      requires Valid()
      modifies this
      ensures Valid() && (r.Ok? <==> n < |backend.Rows(s)| && !Hidden(backend.Rows(s)[n]))
      ensures r.Ok? ==> r.value in backend.ids && backend.ids[r.value] == (s, n)
      ensures r == Err(StudyNotFound) <==> s !in old(trials) && backend.Rows(s) == []
      ensures r.Err? && r.error != StudyNotFound ==> r.error == TrialDiscarded
      ensures CachesKept(old(studyCaches), studyCaches)
    {
      hide AllInv, Consistent, OthersSame, VisibleAll, LocationsOk;
      RefreshTrials(s);
      if s !in trials {
        return Err(StudyNotFound);
      }
      if n >= |trials[s]| || trials[s][n].None? {
        return Err(TrialDiscarded);
      }
      IdAt(backend, s, n);
      r := Ok(trials[s][n].value.id);
    }

    /** Between the intersection over all complete trials ever and the one over the visible ones, once
        this process has seen a complete trial, even if all have been discarded since; nothing before;
        and equal to both bounds when nothing has been discarded. */
    method GetJointSearchSpace(s: nat) returns (r: Result<Space>)
      requires Valid()
      modifies this
      ensures Valid() && (r.Ok? <==> s in old(trials) || backend.Rows(s) != [])
      ensures r.Ok? ==>
        SpaceBetween(applyDiscard, backend.Rows(s), old(Seen(s)) || SomeVisible(applyDiscard, backend.Rows(s)), r.value)
      ensures r.Ok? && (!applyDiscard || NoneStamped(backend.Rows(s))) ==> SpaceExact(backend.Rows(s), r.value)
      ensures CachesKept(old(studyCaches), studyCaches)
    {
      hide AllInv, Consistent, VisibleAll, LocationsOk, SpaceBetween, SpaceExact, SomeVisible, CachesKept;
      var all := GetTrials(s);
      if all.Err? {
        return Err(all.error);
      }
      ViewInv(applyDiscard, backend.studies, State(), s);
      JointSpaceBounds(applyDiscard, backend.Rows(s), State().ViewOf(s));
      if !applyDiscard || NoneStamped(backend.Rows(s)) {
        JointSpaceExact(applyDiscard, backend.Rows(s), State().ViewOf(s));
      }
      r := Ok(JointSearchSpace(State().ViewOf(s).cache));
    }

    /** Discards trials, or fails without a trace if one does not exist. Afterwards none of their slots
        is cached, if discards are applied. `now` never precedes an earlier stamp. */
    method DiscardTrials(trialIds: seq<nat>, now: int) returns (r: Result<()>)
      requires Valid() && backend.lastStamp <= now
      modifies this, backend
      ensures Valid() && backend.ids == old(backend.ids) && EvolvesAll(old(backend.studies), backend.studies)
      ensures r.Ok? <==> forall id :: id in trialIds ==> id in backend.ids
      ensures r.Err? ==> r.error == TrialNotFound && backend.studies == old(backend.studies)
      ensures r.Ok? ==> backend.studies == StampAll(old(backend.studies), trialIds, now)
      ensures r.Ok? && applyDiscard ==> forall id :: id in trialIds ==> Forgotten(backend.ids[id].0, backend.ids[id].1)
      ensures CachesKept(old(studyCaches), studyCaches)
    {
      hide CachesKept, AllInv, Consistent, EvolvesAll, StampAll, LocationsOk, Forgotten, OthersSame;
      EvolvesAllReflexive(backend.studies);
      var locations := ResolveAll(trialIds);
      if locations.Err? {
        return Err(locations.error);
      }
      ghost var studies := backend.studies;
      var written := backend.DiscardTrials(trialIds, now);
      AllEvolve(applyDiscard, studies, backend.studies, State());
      r := Ok(());
      if !applyDiscard {
        return;
      }
      forall at | at in locations.value ensures StampedAt(backend.studies, at) {
        StampedBy(backend, studies, trialIds, now, at);
      }
      Forget(locations.value);
    }

    /** The locations of the named trials, each once. */
    method ResolveAll(trialIds: seq<nat>) returns (r: Result<seq<(nat, nat)>>)
      requires Valid()
      modifies this
      ensures Valid() && (r.Ok? <==> forall id :: id in trialIds ==> id in backend.ids)
      ensures r.Err? ==> r.error == TrialNotFound
      ensures r.Ok? ==> forall id :: id in trialIds ==> backend.ids[id] in r.value
      ensures r.Ok? ==> forall at :: at in r.value ==> exists id ::
        id in trialIds && id in backend.ids && backend.ids[id] == at
      ensures CachesKept(old(studyCaches), studyCaches)
    {
      hide AllInv, Consistent, EvolvesAll, LocationsOk, OthersSame, CachesKept;
      KeptReflexive(studyCaches);
      ghost var before := studyCaches;
      var locations: seq<(nat, nat)> := [];
      for k := 0 to |trialIds|
        invariant Valid() && CachesKept(before, studyCaches)
        invariant forall id :: id in trialIds[..k] ==> id in backend.ids && backend.ids[id] in locations
        invariant forall at :: at in locations ==> exists id ::
          id in trialIds && id in backend.ids && backend.ids[id] == at
      {
        assert trialIds[..k + 1] == trialIds[..k] + [trialIds[k]] && trialIds[k] in trialIds;
        ghost var was := studyCaches;
        var location := ResolveTrialLocation(trialIds[k]);
        KeptTransitive(before, was, studyCaches);
        if location.Err? {
          return Err(location.error);
        }
        if location.value !in locations {
          locations := locations + [location.value];
        }
      }
      assert trialIds[..|trialIds|] == trialIds;
      r := Ok(locations);
    }

    /** Clears the slots of discarded trials and moves the refresh cursors past them. */
    method Forget(locations: seq<(nat, nat)>)
      requires Valid() && applyDiscard && forall at :: at in locations ==> StampedAt(backend.studies, at)
      modifies this`trials, this`unfinishedTrials, this`lastFinishedTrialNumber
      ensures Valid() && forall at :: at in locations ==> Forgotten(at.0, at.1)
    {
      hide AllInv, Consistent, LocationsOk, StampedAt, OthersSame;
      var studies: seq<nat> := [];
      for k := 0 to |locations|
        invariant Valid()
        invariant forall at :: at in locations[..k] ==> Forgotten(at.0, at.1)
      {
        assert locations[..k + 1] == locations[..k] + [locations[k]] && locations[k] in locations;
        var (s, n) := locations[k];
        ForgetOne(s, n);
        if s !in studies {
          studies := studies + [s];
        }
      }
      assert locations[..|locations|] == locations;
      for k := 0 to |studies|
        invariant Valid()
        invariant forall at :: at in locations ==> Forgotten(at.0, at.1)
      {
        AdvanceCursor(studies[k]);
      }
    }

    ghost predicate Forgotten(s: nat, n: nat)
      reads this
    {
      n < |Cached(s)| ==> Cached(s)[n].None?
    }

    /** Clears one slot and drops it from the refresh list. */
    method ForgetOne(s: nat, n: nat)
      requires Valid() && applyDiscard && StampedAt(backend.studies, (s, n))
      modifies this`trials, this`unfinishedTrials
      ensures Valid() && Forgotten(s, n)
      ensures forall t: nat, m: nat :: old(Forgotten(t, m)) ==> Forgotten(t, m)
    {
      hide AllInv, Consistent, LocationsOk;
      ghost var c := State();
      if s in trials && n < |trials[s]| {
        trials := trials[s := trials[s][n := None]];
      }
      if s in unfinishedTrials {
        var kept := Without(unfinishedTrials[s], n);
        unfinishedTrials := unfinishedTrials[s := kept];
      }
      ForgetKeeps(backend.studies, c, s, n, State());
    }

    /** Recomputing one study's bookkeeping changes no slot. */
    method AdvanceCursor(s: nat)
      requires Valid() && applyDiscard
      modifies this`unfinishedTrials, this`lastFinishedTrialNumber
      ensures Valid() && trials == old(trials)
    {
      hide AllInv, Consistent, LocationsOk;
      ghost var c := State();
      CachedWithin(applyDiscard, backend.studies, c, s);
      SlotsPositioned(applyDiscard, backend.studies, c, s);
      RecomputeTrialBookkeeping(s);
      if s in trials {
        ClearKeeps(backend.studies, c, s, State());
      }
    }
  }

  /** The writes of `refresh_trials`: loaded trials first, then discards. */
  method ApplyDiff(s: nat, slots: Slots, known: Locations, loaded: seq<Trial>, discarded: seq<nat>)
    returns (slots': Slots, known': Locations)
    ensures Applied(slots, loaded, discarded, slots')
    ensures known.Keys <= known'.Keys && LearntFrom(s, known, loaded, known')
  {
    var size := |slots|;
    for k := 0 to |loaded|
      invariant |slots| <= size && forall t :: t in loaded[..k] ==> t.number < size
      invariant size == |slots| || exists t :: t in loaded && t.number == size - 1
    {
      if size <= loaded[k].number {
        size := loaded[k].number + 1;
        assert loaded[k] in loaded;
      }
    }
    for k := 0 to |discarded|
      invariant |slots| <= size && forall t :: t in loaded ==> t.number < size
      invariant forall n :: n in discarded[..k] ==> n < size
      invariant size == |slots| || (exists t :: t in loaded && t.number == size - 1) || size - 1 in discarded
    {
      assert discarded[..k + 1] == discarded[..k] + [discarded[k]];
      if size <= discarded[k] {
        size := discarded[k] + 1;
      }
    }
    assert discarded[..|discarded|] == discarded && loaded[..|loaded|] == loaded;
    slots', known' := slots + seq(size - |slots|, _ => None), known;
    for k := 0 to |loaded|
      invariant |slots'| == size && (forall n :: n in discarded ==> n < size) && known.Keys <= known'.Keys
        && LearntFrom(s, known, loaded, known')
      invariant forall i: nat :: i < size ==> AppliedAt(slots, loaded[..k], [], slots', i)
    {
      var trial := loaded[k];
      ghost var was := slots';
      assert loaded[..k + 1] == loaded[..k] + [trial];
      known' := known'[trial.id := (s, trial.number)];
      slots' := slots'[trial.number := Some(trial)];
      ghost var upto := loaded[..k + 1];
      forall i: nat | i < size ensures AppliedAt(slots, upto, [], slots', i) {
        assert AppliedAt(slots, loaded[..k], [], was, i);
        assert trial in upto;
      }
    }
    for k := 0 to |discarded|
      invariant |slots'| == size && forall n :: n in discarded ==> n < size
      invariant forall i: nat :: i < size ==> AppliedAt(slots, loaded, discarded[..k], slots', i)
    {
      ghost var was, upto := slots', discarded[..k + 1];
      assert upto == discarded[..k] + [discarded[k]];
      assert discarded[k] in discarded;
      slots' := slots'[discarded[k] := None];
      forall i: nat | i < size ensures AppliedAt(slots, loaded, upto, slots', i) {
        assert AppliedAt(slots, loaded, discarded[..k], was, i);
      }
    }
  }

  /** Every location is known from before or read off a loaded trial. */
  ghost predicate LearntFrom(s: nat, known: Locations, loaded: seq<Trial>, known': Locations) {
    forall id :: id in known' ==>
      (id in known && known'[id] == known[id]) || exists t :: t in loaded && t.id == id && known'[id] == (s, t.number)
  }

  lemma RowAt(b: SharedBackend, id: nat)
    requires b.Valid() && id in b.ids
    ensures b.ids[id].0 in b.studies && b.ids[id].1 < |b.studies[b.ids[id].0]|
    ensures b.RowOf(id) == b.studies[b.ids[id].0][b.ids[id].1]
    ensures b.RowOf(id).trial.id == id && b.RowOf(id).trial.number == b.ids[id].1
  {
  }

  /** Every trial named in a discard carries a stamp afterwards. */
  lemma StampedBy(b: SharedBackend, studies: Studies, trialIds: seq<nat>, now: int, at: (nat, nat))
    requires b.Valid() && b.studies == StampAll(studies, trialIds, now)
    requires exists id :: id in trialIds && id in b.ids && b.ids[id] == at
    ensures StampedAt(b.studies, at)
  {
  }

  lemma IdAt(b: SharedBackend, s: nat, n: nat)
    requires b.Valid() && n < |b.Rows(s)|
    ensures b.Rows(s)[n].trial.id in b.ids && b.ids[b.Rows(s)[n].trial.id] == (s, n)
  {
  }

  lemma LocationsGrow(known: Locations, ids: Locations, ids': Locations)
    requires LocationsOk(known, ids) && LocationsOk(ids, ids')
    ensures LocationsOk(known, ids')
  {
  }

  lemma KnownLocation(known: Locations, ids: Locations, id: nat)
    requires LocationsOk(known, ids) && id in known
    ensures id in ids && ids[id] == known[id]
  {
  }

  lemma WithAttrsTwice(t: Trial, attrs: map<string, string>)
    ensures WithAttrs(WithAttrs(t, attrs), attrs) == WithAttrs(t, attrs)
  {
  }

  lemma SameState(t: Trial, values: map<nat, int>)
    ensures WithIntermediate(t, values).state == t.state && SameIdentity(t, WithIntermediate(t, values))
  {
  }

  /** Repeating a parameter write changes nothing. */
  lemma WithParamTwice(t: Trial, name: string, d: Distribution, value: int)
    ensures WithParam(WithParam(t, name, d, value), name, d, value) == WithParam(t, name, d, value)
  {
  }

  lemma RowsNumbered(b: SharedBackend, s: nat)
    requires b.Valid()
    ensures SelfNumbered(b.Rows(s))
  {
  }

  /** The locations a refresh records are the backend's. */
  lemma LoadedLocations(b: SharedBackend, s: nat, included: seq<nat>, greater: int, loaded: seq<Trial>,
                        known: Locations, known': Locations)
    requires b.Valid() && DiffOf(b.applyDiscard, b.Rows(s), included, greater, loaded) && LocationsOk(known, b.ids)
    requires LearntFrom(s, known, loaded, known')
    ensures LocationsOk(known', b.ids)
  {
  }
}
