/** The shared backend behind `CachedStorage` (the contract of `CachedStorageBackend` in `cache.rs`,
    as `sqlite3.rs` meets it): trials by study and number, some of them stamped as discarded. */
module Backend {
  import opened Options
  import opened Trials

  /** A trial row and the time it was discarded, if it was. */
  datatype Row = Row(trial: Trial, stamp: Option<int>)

  /** What reads show of a row. */
  function Visible(apply: bool, row: Row): Option<Trial> {
    if apply && row.stamp.Some? then None else Some(row.trial)
  }

  function VisibleAll(apply: bool, rows: seq<Row>): (slots: Slots)
    ensures |slots| == |rows| && forall i :: 0 <= i < |rows| ==> slots[i] == Visible(apply, rows[i])
  {
    seq(|rows|, i requires 0 <= i < |rows| => Visible(apply, rows[i]))
  }

  /** Rows carry their own numbers. */
  ghost predicate SelfNumbered(rows: seq<Row>) {
    forall i :: 0 <= i < |rows| ==> rows[i].trial.number == i
  }

  /** One study's rows also carry its id. */
  ghost predicate Numbered(s: nat, rows: seq<Row>) {
    SelfNumbered(rows) && forall i :: 0 <= i < |rows| ==> rows[i].trial.studyId == s
  }

  /** What may happen to a row: its identity and its first discard stamp stay, and a finished trial
      never changes. */
  ghost predicate RowEvolves(row: Row, row': Row) {
    && row'.trial.id == row.trial.id && row'.trial.number == row.trial.number && row'.trial.studyId == row.trial.studyId
    && (row.trial.IsFinished() ==> row'.trial == row.trial)
    && (row.stamp.Some? ==> row'.stamp == row.stamp)
  }

  /** Discard stamps never go backwards: a new stamp is at least as late as every earlier one. */
  ghost predicate StampsAdvance(rows: seq<Row>, rows': seq<Row>) {
    forall i, j :: 0 <= i < |rows'| && 0 <= j < |rows| && rows'[i].stamp.Some? && rows[j].stamp.Some? ==>
      (i < |rows| && rows[i].stamp.Some?) || rows[j].stamp.value <= rows'[i].stamp.value
  }

  /** Everything any process may do to one study. */
  ghost predicate Evolves(rows: seq<Row>, rows': seq<Row>) {
    && |rows| <= |rows'|
    && (forall i :: 0 <= i < |rows| ==> RowEvolves(rows[i], rows'[i]))
    && StampsAdvance(rows, rows')
  }

  lemma EvolvesTransitive(a: seq<Row>, b: seq<Row>, c: seq<Row>)
    requires Evolves(a, b) && Evolves(b, c)
    ensures Evolves(a, c)
  {
  }

  function WithParam(t: Trial, name: string, d: Distribution, value: int): Trial {
    t.(params := t.params[name := value], distributions := t.distributions[name := d])
  }

  function WithIntermediate(t: Trial, values: map<nat, int>): Trial {
    t.(intermediate := t.intermediate + values)
  }

  function WithAttrs(t: Trial, attrs: map<string, string>): Trial {
    t.(attrs := t.attrs + attrs)
  }

  /** The written entry is there, and every other one is as it was, present or absent. */
  ghost predicate EntryWritten<V>(m: map<string, V>, m': map<string, V>, name: string, value: V) {
    && name in m' && m'[name] == value
    && forall other: string :: other != name ==>
         && (other in m' <==> other in m)
         && (other in m ==> m'[other] == m[other])
  }

  /** A parameter was written: its value and its distribution, and nothing else of the trial. */
  ghost predicate ParamWritten(t: Trial, t': Trial, name: string, d: Distribution, value: int) {
    && EntryWritten(t.params, t'.params, name, value) && EntryWritten(t.distributions, t'.distributions, name, d)
    && SameIdentity(t, t') && t'.state == t.state && t'.intermediate == t.intermediate && t'.attrs == t.attrs
  }

  /** Intermediate values were written: the steps named have the new values, the others what they had. */
  ghost predicate IntermediateWritten(t: Trial, t': Trial, values: map<nat, int>) {
    && (forall step: nat ::
          && (step in t'.intermediate <==> step in values || step in t.intermediate)
          && (step in values ==> t'.intermediate[step] == values[step])
          && (step in t.intermediate && step !in values ==> t'.intermediate[step] == t.intermediate[step]))
    && SameIdentity(t, t') && t'.state == t.state && t'.params == t.params && t'.distributions == t.distributions
    && t'.attrs == t.attrs
  }

  /** Attributes were written: the keys named have the new values, the others what they had. */
  ghost predicate AttrsWritten(t: Trial, t': Trial, attrs: map<string, string>) {
    && (forall key: string ::
          && (key in t'.attrs <==> key in attrs || key in t.attrs)
          && (key in attrs ==> t'.attrs[key] == attrs[key])
          && (key in t.attrs && key !in attrs ==> t'.attrs[key] == t.attrs[key]))
    && SameIdentity(t, t') && t'.state == t.state && t'.params == t.params && t'.distributions == t.distributions
    && t'.intermediate == t.intermediate
  }

  lemma WithParamWritten(t: Trial, name: string, d: Distribution, value: int)
    ensures ParamWritten(t, WithParam(t, name, d, value), name, d, value)
  {
  }

  lemma WithIntermediateWritten(t: Trial, values: map<nat, int>)
    ensures IntermediateWritten(t, WithIntermediate(t, values), values)
  {
  }

  lemma WithAttrsWritten(t: Trial, attrs: map<string, string>)
    ensures AttrsWritten(t, WithAttrs(t, attrs), attrs)
  {
  }

  predicate SameIdentity(t: Trial, t': Trial) {
    t'.id == t.id && t'.number == t.number && t'.studyId == t.studyId
  }

  predicate Overwrites(t: Trial, attrs: map<string, string>): (b: bool)
    ensures b <==> attrs.Keys * t.attrs.Keys != {}
  {
    assert forall key :: key in attrs && key in t.attrs <==> key in attrs.Keys * t.attrs.Keys;
    exists key :: key in attrs && key in t.attrs
  }

  /** Why `set_trial_state_values` refuses. */
  function StateError(state: StateValues, found: bool): ErrorKind {
    if state == Complete([]) then InvalidObjectiveValues else if found then TrialAlreadyFinished else TrialNotFound
  }

  type Studies = map<nat, seq<Row>>

  function RowsOf(studies: Studies, s: nat): seq<Row> {
    if s in studies then studies[s] else []
  }

  /** Every study evolves. */
  ghost predicate EvolvesAll(studies: Studies, studies': Studies) {
    forall s: nat :: Evolves(RowsOf(studies, s), RowsOf(studies', s))
  }

  lemma EvolvesAllReflexive(studies: Studies)
    ensures EvolvesAll(studies, studies)
  {
  }

  /** The store with one trial's content replaced; its discard stamp stays. */
  function Stored(studies: Studies, at: (nat, nat), trial: Trial): Studies
    requires at.0 in studies && at.1 < |studies[at.0]|
  {
    var rows := studies[at.0];
    studies[at.0 := rows[at.1 := Row(trial, rows[at.1].stamp)]]
  }

  /** Every parameter has a distribution and the other way round, and a complete trial has values. */
  predicate ProperTemplate(template: Trial) {
    template.params.Keys == template.distributions.Keys && template.state != Complete([])
  }

  /** Why `create_new_trial_from_template` refuses. */
  function TemplateError(template: Trial, found: bool): ErrorKind {
    if template.params.Keys != template.distributions.Keys then StorageError
    else if found then InvalidObjectiveValues else StudyNotFound
  }

  /** `trial` is the template under a new id, in a new last row of the study. */
  ghost predicate Appended(studies: Studies, ids: map<nat, (nat, nat)>, s: nat, template: Trial, trial: Trial,
                           studies': Studies, ids': map<nat, (nat, nat)>) {
    && s in studies && trial == template.(id := trial.id, studyId := s, number := |studies[s]|)
    && trial.id !in ids && ids' == ids[trial.id := (s, trial.number)]
    && studies' == studies[s := studies[s] + [Row(trial, None)]]
  }

  lemma StoredEvolves(studies: Studies, at: (nat, nat), trial: Trial)
    requires at.0 in studies && at.1 < |studies[at.0]|
    requires !studies[at.0][at.1].trial.IsFinished() && SameIdentity(studies[at.0][at.1].trial, trial)
    ensures EvolvesAll(studies, Stored(studies, at, trial))
  {
  }

  lemma AppendEvolves(studies: Studies, s: nat, trial: Trial)
    requires s in studies
    ensures EvolvesAll(studies, studies[s := studies[s] + [Row(trial, None)]])
  {
  }

  /** Locations a process has learnt stay right: an id never moves and is never reused. */
  ghost predicate LocationsOk(known: map<nat, (nat, nat)>, ids: map<nat, (nat, nat)>) {
    forall id :: id in known ==> id in ids && ids[id] == known[id]
  }

  ghost predicate Located(studies: Studies, id: nat, s: nat, n: nat) {
    s in studies && n < |studies[s]| && studies[s][n].trial.id == id
  }

  /** Rows are numbered, ids name exactly one row each, and no stamp is later than `lastStamp`. */
  ghost predicate Consistent(studies: Studies, ids: map<nat, (nat, nat)>, nextTrialId: nat, nextStudyId: nat,
                             lastStamp: int) {
    && (forall s :: s in studies ==> s < nextStudyId && Numbered(s, studies[s]))
    && (forall id :: id in ids ==> id < nextTrialId && Located(studies, id, ids[id].0, ids[id].1))
    && (forall s, i :: s in studies && 0 <= i < |studies[s]| ==>
          studies[s][i].trial.id in ids && ids[studies[s][i].trial.id] == (s, i))
    && (forall s, i :: s in studies && 0 <= i < |studies[s]| && studies[s][i].stamp.Some? ==>
          studies[s][i].stamp.value <= lastStamp)
  }

  lemma NewStudyConsistent(studies: Studies, ids: map<nat, (nat, nat)>, nextTrialId: nat, nextStudyId: nat,
                           lastStamp: int)
    requires Consistent(studies, ids, nextTrialId, nextStudyId, lastStamp)
    ensures nextStudyId !in studies
    ensures Consistent(studies[nextStudyId := []], ids, nextTrialId, nextStudyId + 1, lastStamp)
  {
  }

  lemma AppendConsistent(studies: Studies, ids: map<nat, (nat, nat)>, nextTrialId: nat, nextStudyId: nat,
                         lastStamp: int, s: nat, trial: Trial)
    requires Consistent(studies, ids, nextTrialId, nextStudyId, lastStamp) && s in studies
    requires trial.id == nextTrialId && trial.studyId == s && trial.number == |studies[s]|
    ensures nextTrialId !in ids
    ensures Consistent(studies[s := studies[s] + [Row(trial, None)]], ids[trial.id := (s, trial.number)],
      nextTrialId + 1, nextStudyId, lastStamp)
  {
  }

  lemma StoreConsistent(studies: Studies, ids: map<nat, (nat, nat)>, nextTrialId: nat, nextStudyId: nat,
                        lastStamp: int, s: nat, n: nat, row: Row, stampLimit: int)
    requires Consistent(studies, ids, nextTrialId, nextStudyId, lastStamp) && s in studies && n < |studies[s]|
    requires row.trial.id == studies[s][n].trial.id && row.trial.number == n && row.trial.studyId == s
    requires lastStamp <= stampLimit && (row.stamp.Some? ==> row.stamp.value <= stampLimit)
    ensures Consistent(studies[s := studies[s][n := row]], ids, nextTrialId, nextStudyId, stampLimit)
  {
  }

  /** Stamps the named rows that have no stamp yet. */
  function StampRow(row: Row, trialIds: seq<nat>, now: int): Row {
    if row.trial.id in trialIds && row.stamp.None? then Row(row.trial, Some(now)) else row
  }

  function StampRows(rows: seq<Row>, trialIds: seq<nat>, now: int): (out: seq<Row>)
    ensures |out| == |rows| && forall i :: 0 <= i < |rows| ==> out[i] == StampRow(rows[i], trialIds, now)
  {
    seq(|rows|, i requires 0 <= i < |rows| => StampRow(rows[i], trialIds, now))
  }

  function StampAll(studies: Studies, trialIds: seq<nat>, now: int): (out: Studies)
    ensures out.Keys == studies.Keys && forall s :: s in studies ==> out[s] == StampRows(studies[s], trialIds, now)
  {
    map s | s in studies :: StampRows(studies[s], trialIds, now)
  }

  /** A stamp is the time of the first discard that named the trial; nothing else of any row changes. */
  lemma StampMeaning(studies: Studies, trialIds: seq<nat>, now: int, s: nat, i: nat)
    requires s in studies && i < |studies[s]|
    ensures var out := StampAll(studies, trialIds, now);
      && s in out && |out[s]| == |studies[s]| && out[s][i].trial == studies[s][i].trial
      && (studies[s][i].stamp.Some? || studies[s][i].trial.id !in trialIds ==> out[s][i].stamp == studies[s][i].stamp)
      && (studies[s][i].stamp.None? && studies[s][i].trial.id in trialIds ==> out[s][i].stamp == Some(now))
  {
  }

  /** Stamping at a time no earlier than any stamp lets every study evolve. */
  lemma StampEvolves(studies: Studies, ids: map<nat, (nat, nat)>, nextTrialId: nat, nextStudyId: nat, lastStamp: int,
                     trialIds: seq<nat>, now: int)
    requires Consistent(studies, ids, nextTrialId, nextStudyId, lastStamp) && lastStamp <= now
    ensures EvolvesAll(studies, StampAll(studies, trialIds, now))
  {
  }

  lemma StampNone(studies: Studies, now: int)
    ensures StampAll(studies, [], now) == studies
  {
    forall s | s in studies ensures StampRows(studies[s], [], now) == studies[s] {
    }
  }

  /** Stamping one more trial touches only its row. */
  lemma StampOne(studies: Studies, ids: map<nat, (nat, nat)>, nextTrialId: nat, nextStudyId: nat, lastStamp: int,
                 trialIds: seq<nat>, id: nat, now: int)
    requires Consistent(studies, ids, nextTrialId, nextStudyId, lastStamp) && id in ids
    ensures Located(studies, id, ids[id].0, ids[id].1)
    ensures var (s, n) := ids[id];
      StampAll(studies, trialIds + [id], now)
      == StampAll(studies, trialIds, now)[s :=
        StampRows(studies[s], trialIds, now)[n := StampRow(studies[s][n], trialIds + [id], now)]]
  {
    var (s, n) := ids[id];
    assert Located(studies, id, s, n);
    var more := StampAll(studies, trialIds + [id], now);
    var less := StampAll(studies, trialIds, now)[s :=
      StampRows(studies[s], trialIds, now)[n := StampRow(studies[s][n], trialIds + [id], now)]];
    forall t | t in studies ensures more[t] == less[t] {
      forall i | 0 <= i < |studies[t]| ensures more[t][i] == less[t][i] {
        if studies[t][i].trial.id == id {
          assert ids[studies[t][i].trial.id] == (t, i);
        }
      }
    }
  }

  class SharedBackend {
    var studies: Studies
    var ids: map<nat, (nat, nat)>
    var nextTrialId: nat
    var nextStudyId: nat
    var lastStamp: int
    const applyDiscard: bool

    function Rows(s: nat): seq<Row>
      reads this
    {
      RowsOf(studies, s)
    }

    ghost predicate Valid()
      reads this
    {
      Consistent(studies, ids, nextTrialId, nextStudyId, lastStamp)
    }

    constructor (apply: bool)
      ensures Valid() && studies == map[] && ids == map[] && applyDiscard == apply
    {
      studies, ids, nextTrialId, nextStudyId, lastStamp := map[], map[], 0, 0, 0;
      applyDiscard := apply;
    }

    method CreateNewStudy() returns (s: nat)
      requires Valid()
      modifies this
      ensures Valid() && s !in old(studies) && studies == old(studies)[s := []] && ids == old(ids)
      ensures EvolvesAll(old(studies), studies)
    {
      hide Consistent;
      EvolvesAllReflexive(studies);
      NewStudyConsistent(studies, ids, nextTrialId, nextStudyId, lastStamp);
      s := nextStudyId;
      nextStudyId := nextStudyId + 1;
      studies := studies[s := []];
    }

    /** Appends a trial under the next id and number. */
    method Append(s: nat, template: Trial) returns (trial: Trial)
      requires Valid() && s in studies
      modifies this
      ensures Valid() && trial == template.(id := trial.id, studyId := s, number := |old(studies)[s]|)
      ensures trial.id !in old(ids) && ids == old(ids)[trial.id := (s, trial.number)]
      ensures studies == old(studies)[s := old(studies)[s] + [Row(trial, None)]] && EvolvesAll(old(studies), studies)
    {
      AppendEvolves(studies, s, template.(id := nextTrialId, studyId := s, number := |studies[s]|));
      hide Consistent, EvolvesAll;
      trial := template.(id := nextTrialId, studyId := s, number := |studies[s]|);
      AppendConsistent(studies, ids, nextTrialId, nextStudyId, lastStamp, s, trial);
      nextTrialId := nextTrialId + 1;
      studies := studies[s := studies[s] + [Row(trial, None)]];
      ids := ids[trial.id := (s, trial.number)];
    }

    method CreateNewTrial(s: nat) returns (r: Result<Trial>)
      requires Valid()
      modifies this
      ensures Valid() && (r.Ok? <==> s in old(studies)) && EvolvesAll(old(studies), studies)
      ensures r.Err? ==> r.error == StudyNotFound && studies == old(studies) && ids == old(ids)
      ensures r.Ok? ==> r.value == Trial(r.value.id, s, |old(studies)[s]|, Running, map[], map[], map[], map[])
      ensures r.Ok? ==> r.value.id !in old(ids) && ids == old(ids)[r.value.id := (s, r.value.number)]
      ensures r.Ok? ==> studies == old(studies)[s := old(studies)[s] + [Row(r.value, None)]]
    {
      hide Consistent, EvolvesAll;
      EvolvesAllReflexive(studies);
      if s !in studies {
        return Err(StudyNotFound);
      }
      var trial := Append(s, Trial(0, s, 0, Running, map[], map[], map[], map[]));
      r := Ok(trial);
    }

    /** A template is written piece by piece into a new running trial, its state last. Parameters and
        distributions that do not match are refused before anything is written; objective values that
        are empty are refused at the end, and the running trial stays. */
    method CreateNewTrialFromTemplate(s: nat, template: Trial) returns (r: Result<Trial>)
      requires Valid()
      modifies this
      ensures Valid() && EvolvesAll(old(studies), studies) && LocationsOk(old(ids), ids)
      ensures r.Ok? <==> s in old(studies) && ProperTemplate(template)
      ensures r.Err? ==> r.error == TemplateError(template, s in old(studies))
      ensures r.Err? && r.error != InvalidObjectiveValues ==> studies == old(studies) && ids == old(ids)
      ensures r == Err(InvalidObjectiveValues) ==>
        exists trial :: Appended(old(studies), old(ids), s, template.(state := Running), trial, studies, ids)
      ensures r.Ok? ==> Appended(old(studies), old(ids), s, template, r.value, studies, ids)
    {
      hide Consistent, EvolvesAll;
      EvolvesAllReflexive(studies);
      if template.params.Keys != template.distributions.Keys {
        return Err(StorageError);
      }
      if s !in studies {
        return Err(StudyNotFound);
      }
      if template.state == Complete([]) {
        ghost var studies', ids' := studies, ids;
        var left := Append(s, template.(state := Running));
        assert Appended(studies', ids', s, template.(state := Running), left, studies, ids);
        return Err(InvalidObjectiveValues);
      }
      var trial := Append(s, template);
      r := Ok(trial);
    }

    method GetTrial(id: nat) returns (r: Result<Trial>)
      requires Valid()
      ensures r.Ok? <==> id in ids
      ensures r.Err? ==> r.error == TrialNotFound
      ensures r.Ok? ==> Located(studies, id, ids[id].0, ids[id].1) && r.value == studies[ids[id].0][ids[id].1].trial
      ensures r.Ok? ==> r.value.studyId == ids[id].0 && r.value.number == ids[id].1
    {
      if id !in ids {
        return Err(TrialNotFound);
      }
      assert Located(studies, id, ids[id].0, ids[id].1);
      r := Ok(studies[ids[id].0][ids[id].1].trial);
    }

    ghost function RowOf(id: nat): Row
      requires Valid() && id in ids
      reads this
    {
      assert Located(studies, id, ids[id].0, ids[id].1);
      studies[ids[id].0][ids[id].1]
    }

    /** Replaces the content of an unfinished trial. */
    method Store(id: nat, trial: Trial)
      requires Valid() && id in ids && !RowOf(id).trial.IsFinished()
      requires SameIdentity(RowOf(id).trial, trial)
      modifies this`studies
      ensures Valid() && studies == Stored(old(studies), ids[id], trial)
      ensures RowOf(id) == Row(trial, old(RowOf(id).stamp))
      ensures EvolvesAll(old(studies), studies)
    {
      var (s, n) := ids[id];
      assert Located(studies, id, s, n);
      var row := studies[s][n];
      StoreConsistent(studies, ids, nextTrialId, nextStudyId, lastStamp, s, n, Row(trial, row.stamp), lastStamp);
      StoredEvolves(studies, ids[id], trial);
      hide Consistent, EvolvesAll;
      studies := studies[s := studies[s][n := Row(trial, row.stamp)]];
    }

    /** Parameters are written without looking at the trial's state: that is the caller's duty. */
    method SetTrialParam(id: nat, name: string, d: Distribution, value: int) returns (r: Result<()>)
      requires Valid() && (id in ids ==> !RowOf(id).trial.IsFinished())
      modifies this`studies
      ensures Valid() && EvolvesAll(old(studies), studies) && (r.Ok? <==> id in ids)
      ensures r.Err? ==> r.error == TrialNotFound && studies == old(studies)
      ensures r.Ok? ==> studies == Stored(old(studies), ids[id], WithParam(old(RowOf(id).trial), name, d, value))
      ensures r.Ok? ==> ParamWritten(old(RowOf(id).trial), RowOf(id).trial, name, d, value)
    {
      hide ParamWritten, WithParam, Consistent, EvolvesAll;
      EvolvesAllReflexive(studies);
      var found := GetTrial(id);
      if found.Err? {
        return Err(found.error);
      }
      WithParamWritten(found.value, name, d, value);
      Store(id, WithParam(found.value, name, d, value));
      r := Ok(());
    }

    method SetTrialStateValues(id: nat, state: StateValues) returns (r: Result<()>)
      requires Valid()
      modifies this`studies
      ensures Valid() && EvolvesAll(old(studies), studies)
      ensures r.Ok? <==> state != Complete([]) && id in ids && !old(RowOf(id).trial.IsFinished())
      ensures r.Err? ==> r.error == StateError(state, id in ids) && studies == old(studies)
      ensures r.Ok? ==> studies == Stored(old(studies), ids[id], old(RowOf(id).trial).(state := state))
    {
      hide Consistent, EvolvesAll;
      EvolvesAllReflexive(studies);
      if state == Complete([]) {
        return Err(InvalidObjectiveValues);
      }
      var found := GetTrial(id);
      if found.Err? {
        return Err(found.error);
      }
      if found.value.IsFinished() {
        return Err(TrialAlreadyFinished);
      }
      Store(id, found.value.(state := state));
      r := Ok(());
    }

    method SetTrialIntermediateValues(id: nat, values: map<nat, int>) returns (r: Result<()>)
      requires Valid()
      modifies this`studies
      ensures Valid() && EvolvesAll(old(studies), studies)
      ensures r.Ok? <==> values == map[] || (id in ids && !old(RowOf(id).trial.IsFinished()))
      ensures r.Err? ==> r.error == if id in ids then TrialAlreadyFinished else TrialNotFound
      ensures r.Err? || values == map[] ==> studies == old(studies)
      ensures r.Ok? && values != map[] ==>
        studies == Stored(old(studies), ids[id], WithIntermediate(old(RowOf(id).trial), values))
      ensures r.Ok? && values != map[] ==> IntermediateWritten(old(RowOf(id).trial), RowOf(id).trial, values)
    {
      hide IntermediateWritten, WithIntermediate, Consistent, EvolvesAll;
      EvolvesAllReflexive(studies);
      if values == map[] {
        return Ok(());
      }
      var found := GetTrial(id);
      if found.Err? {
        return Err(found.error);
      }
      if found.value.IsFinished() {
        return Err(TrialAlreadyFinished);
      }
      WithIntermediateWritten(found.value, values);
      Store(id, WithIntermediate(found.value, values));
      r := Ok(());
    }

    /** Attributes are written without looking at the trial's state: that is the caller's duty. */
    method SetTrialAttrs(id: nat, attrs: map<string, string>, errorOnOverwrite: bool) returns (r: Result<()>)
      requires Valid() && id in ids && !RowOf(id).trial.IsFinished()
      modifies this`studies
      ensures Valid() && EvolvesAll(old(studies), studies)
      ensures r.Ok? <==> !(errorOnOverwrite && Overwrites(old(RowOf(id).trial), attrs))
      ensures r.Err? ==> r.error == AttrOverwriteNotAllowed && studies == old(studies)
      ensures r.Ok? ==> studies == Stored(old(studies), ids[id], WithAttrs(old(RowOf(id).trial), attrs))
      ensures r.Ok? ==> AttrsWritten(old(RowOf(id).trial), RowOf(id).trial, attrs)
    {
      hide AttrsWritten, WithAttrs, Consistent, EvolvesAll;
      EvolvesAllReflexive(studies);
      var found := GetTrial(id);
      if errorOnOverwrite && Overwrites(found.value, attrs) {
        return Err(AttrOverwriteNotAllowed);
      }
      WithAttrsWritten(found.value, attrs);
      Store(id, WithAttrs(found.value, attrs));
      r := Ok(());
    }

    /** Other processes write: anything that keeps the backend consistent and lets every study evolve. */
    method OtherProcesses(studies': Studies, ids': map<nat, (nat, nat)>, nextTrialId': nat, nextStudyId': nat,
                          lastStamp': int)
      requires Consistent(studies', ids', nextTrialId', nextStudyId', lastStamp')
      requires EvolvesAll(studies, studies') && LocationsOk(ids, ids')
      modifies this
      ensures Valid() && studies == studies' && ids == ids'
    {
      studies, ids, nextTrialId, nextStudyId, lastStamp := studies', ids', nextTrialId', nextStudyId', lastStamp';
    }

    /** `get_trials_diff`: the rows that are included or beyond the cursor, unless hidden. */
    method GetTrialsDiff(s: nat, included: seq<nat>, greater: int) returns (loaded: seq<Trial>)
      requires Valid()
      ensures DiffOf(applyDiscard, Rows(s), included, greater, loaded)
      ensures forall i: nat :: i < |Rows(s)| ==>
        (Rows(s)[i].trial in loaded <==> (i > greater || i in included) && (applyDiscard ==> Rows(s)[i].stamp.None?))
    {
      loaded := [];
      var rows := Rows(s);
      assert Numbered(s, rows);
      for i := 0 to |rows|
        invariant forall t ::
          t in loaded ==>
            t.number < |rows| && rows[t.number].trial == t && InDiff(applyDiscard, rows, included, greater, t.number)
        invariant forall j: nat :: j < i && InDiff(applyDiscard, rows, included, greater, j) ==> rows[j].trial in loaded
      {
        if InDiff(applyDiscard, rows, included, greater, i) {
          loaded := loaded + [rows[i].trial];
        }
      }
    }

    /** `get_discarded_trials_diff`: everything stamped at or after the cursor, and the latest stamp. */
    method GetDiscardedTrialsDiff(s: nat, cursor: Option<int>) returns (numbers: seq<nat>, next: Option<int>)
      requires Valid()
      ensures DiscardsOf(Rows(s), cursor, numbers, next)
    {
      numbers, next := [], None;
      var rows := Rows(s);
      for i := 0 to |rows|
        invariant forall j: nat :: j in numbers <==> j < i && StampedSince(rows, cursor, j)
        invariant next.None? <==> numbers == []
        invariant next.Some? ==> exists j :: 0 <= j < i && j in numbers && rows[j].stamp == next
        invariant next.Some? ==> forall j: nat ::
          j < i && StampedSince(rows, cursor, j) ==> rows[j].stamp.value <= next.value
      {
        var row := rows[i];
        if row.stamp.Some? && (cursor.Some? ==> cursor.value <= row.stamp.value) {
          numbers := numbers + [i];
          assert i in numbers;
          if next.None? || next.value < row.stamp.value {
            next := row.stamp;
          }
        }
      }
    }

    /** `discard_trials`: stamps the trials that have no stamp yet, or fails without a trace when
        one of them does not exist. `now` never precedes an earlier stamp. */
    method DiscardTrials(trialIds: seq<nat>, now: int) returns (r: Result<()>)
      requires Valid() && lastStamp <= now
      modifies this
      ensures Valid() && ids == old(ids) && (r.Ok? <==> forall id :: id in trialIds ==> id in ids)
      ensures r.Err? ==> r.error == TrialNotFound && studies == old(studies)
      ensures r.Ok? ==> studies == StampAll(old(studies), trialIds, now)
      ensures EvolvesAll(old(studies), studies)
    {
      hide Consistent, StampAll, EvolvesAll;
      EvolvesAllReflexive(studies);
      StampEvolves(studies, ids, nextTrialId, nextStudyId, lastStamp, trialIds, now);
      if exists id :: id in trialIds && id !in ids {
        return Err(TrialNotFound);
      }
      ghost var before, was := studies, lastStamp;
      StampNone(studies, now);
      for k := 0 to |trialIds|
        invariant Valid() && ids == old(ids) && nextTrialId == old(nextTrialId) && nextStudyId == old(nextStudyId)
        invariant lastStamp <= now && studies == StampAll(before, trialIds[..k], now)
      {
        var id := trialIds[k];
        assert trialIds[..k + 1] == trialIds[..k] + [id];
        StampOne(before, ids, nextTrialId, nextStudyId, was, trialIds[..k], id, now);
        var (s, n) := ids[id];
        var row := studies[s][n];
        var stamped := Row(row.trial, if row.stamp.None? then Some(now) else row.stamp);
        assert Numbered(s, studies[s]) && (row.stamp.Some? ==> row.stamp.value <= lastStamp) by {
          RowFacts(studies, ids, nextTrialId, nextStudyId, lastStamp, s, n);
        }
        StoreConsistent(studies, ids, nextTrialId, nextStudyId, lastStamp, s, n, stamped, now);
        studies := studies[s := studies[s][n := stamped]];
        lastStamp := now;
      }
      assert trialIds[..|trialIds|] == trialIds;
      r := Ok(());
    }
  }

  lemma RowFacts(studies: Studies, ids: map<nat, (nat, nat)>, nextTrialId: nat, nextStudyId: nat, lastStamp: int,
                 s: nat, n: nat)
    requires Consistent(studies, ids, nextTrialId, nextStudyId, lastStamp) && s in studies && n < |studies[s]|
    ensures Numbered(s, studies[s]) && (studies[s][n].stamp.Some? ==> studies[s][n].stamp.value <= lastStamp)
  {
  }

  /** Whether a diff read returns row `i`. */
  predicate InDiff(apply: bool, rows: seq<Row>, included: seq<nat>, greater: int, i: nat)
    requires i < |rows|
  {
    (i > greater || i in included) && Visible(apply, rows[i]).Some?
  }

  /** The contract of `get_trials_diff`. */
  ghost predicate DiffOf(apply: bool, rows: seq<Row>, included: seq<nat>, greater: int, loaded: seq<Trial>) {
    && (forall t ::
      t in loaded ==>
        t.number < |rows| && rows[t.number].trial == t && InDiff(apply, rows, included, greater, t.number))
    && (forall i: nat :: i < |rows| && InDiff(apply, rows, included, greater, i) ==> rows[i].trial in loaded)
  }

  predicate StampedSince(rows: seq<Row>, cursor: Option<int>, i: nat)
    requires i < |rows|
  {
    rows[i].stamp.Some? && (cursor.Some? ==> cursor.value <= rows[i].stamp.value)
  }

  /** The contract of `get_discarded_trials_diff`. */
  ghost predicate DiscardsOf(rows: seq<Row>, cursor: Option<int>, numbers: seq<nat>, next: Option<int>) {
    && (forall i: nat :: i in numbers <==> i < |rows| && StampedSince(rows, cursor, i))
    && (next.None? <==> numbers == [])
    && (next.Some? ==> exists i :: 0 <= i < |rows| && i in numbers && rows[i].stamp == next)
    && (next.Some? ==> forall i: nat ::
      i < |rows| && StampedSince(rows, cursor, i) ==> rows[i].stamp.value <= next.value)
  }
}
