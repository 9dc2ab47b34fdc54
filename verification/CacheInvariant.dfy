/** What `CachedStorage` keeps true of one study while other processes write to the backend. */
module CacheInvariant {
  import opened Options
  import opened Trials
  import opened StudyCaches
  import opened Backend

  /** Everything the cache holds about one study. */
  datatype View = View(slots: Slots, unfinished: seq<nat>, lastFinished: int, cursor: Option<int>, cache: StudyCache)

  /** A slot that holds a trial names the backend's row; if finished it is that row's trial, and if
      not it is listed for refreshing. A slot that holds none is a discarded trial. */
  ghost predicate SlotOk(apply: bool, rows: seq<Row>, v: View, i: nat)
    requires i < |v.slots| && i < |rows|
  {
    match v.slots[i]
    case None => apply && rows[i].stamp.Some?
    case Some(t) =>
      && t.id == rows[i].trial.id && t.number == i
      && (t.IsFinished() ==> t == rows[i].trial)
      && (!t.IsFinished() ==> i in v.unfinished)
  }

  /** The discard cursor: an earlier discard has been applied, and some discard is at least as late. */
  ghost predicate CursorOk(apply: bool, rows: seq<Row>, v: View) {
    v.cursor.Some? ==>
      && apply
      && (forall i :: 0 <= i < |rows| && rows[i].stamp.Some? && rows[i].stamp.value < v.cursor.value ==>
            i < |v.slots| && v.slots[i].None?)
      && (exists i :: 0 <= i < |rows| && rows[i].stamp.Some? && v.cursor.value <= rows[i].stamp.value)
  }

  /** The joint search space: below what every cached complete trial has, above what every complete
      trial of the study (discarded ones included) agrees on. */
  ghost predicate SpaceOk(rows: seq<Row>, v: View) {
    && v.cache.cursor <= |v.slots|
    && (forall i :: 0 <= i < v.cache.cursor ==> !IsUnfinished(v.slots[i]))
    && Below(v.cache.space, v.slots)
    && Above(v.cache.space, rows)
  }

  ghost predicate Below(space: Option<Space>, slots: Slots) {
    && (space.None? ==> forall i :: 0 <= i < |slots| ==> !IsComplete(slots[i]))
    && (space.Some? ==> forall name: string, d: Distribution ::
      Holds(space.value, name, d) ==> AllAgree(slots, 0, name, d))
  }

  ghost predicate RowsAgree(rows: seq<Row>, name: string, d: Distribution) {
    forall i :: 0 <= i < |rows| && rows[i].trial.state.Complete? ==> Holds(rows[i].trial.distributions, name, d)
  }

  ghost predicate SomeComplete(rows: seq<Row>) {
    exists i :: 0 <= i < |rows| && rows[i].trial.state.Complete?
  }

  /** A complete trial that has every entry of the space. */
  ghost predicate HoldsAll(space: Space, trial: Trial) {
    trial.state.Complete? && forall name: string, d: Distribution ::
      Holds(space, name, d) ==> Holds(trial.distributions, name, d)
  }

  /** Some complete trial of the study, discarded or not, has every entry of the space. */
  ghost predicate Rooted(rows: seq<Row>, space: Space) {
    exists i :: 0 <= i < |rows| && HoldsAll(space, rows[i].trial)
  }

  ghost predicate Above(space: Option<Space>, rows: seq<Row>) {
    space.Some? ==>
      && Rooted(rows, space.value)
      && forall name: string, d: Distribution :: RowsAgree(rows, name, d) ==> Holds(space.value, name, d)
  }

  ghost predicate StudyInv(apply: bool, rows: seq<Row>, v: View) {
    && |v.slots| <= |rows|
    && -1 <= v.lastFinished < |v.slots|
    && (forall i: nat :: i < |v.slots| ==> SlotOk(apply, rows, v, i))
    && CursorOk(apply, rows, v)
    && SpaceOk(rows, v)
  }

  /** The cache shows exactly what the backend shows. */
  ghost predicate Synced(apply: bool, rows: seq<Row>, v: View) {
    v.slots == VisibleAll(apply, rows)
  }

  lemma AboveEvolves(space: Option<Space>, rows: seq<Row>, rows': seq<Row>)
    requires Above(space, rows) && Evolves(rows, rows')
    ensures Above(space, rows')
  {
    if space.Some? {
      var i :| 0 <= i < |rows| && HoldsAll(space.value, rows[i].trial);
      assert RowEvolves(rows[i], rows'[i]);
      forall name: string, d: Distribution | RowsAgree(rows', name, d) ensures RowsAgree(rows, name, d) {
        forall k | 0 <= k < |rows| && rows[k].trial.state.Complete?
          ensures Holds(rows[k].trial.distributions, name, d) {
          assert RowEvolves(rows[k], rows'[k]);
        }
      }
    }
  }

  /** No step of any other process breaks the invariant. */
  lemma InvEvolves(apply: bool, rows: seq<Row>, rows': seq<Row>, v: View)
    requires StudyInv(apply, rows, v) && Evolves(rows, rows')
    ensures StudyInv(apply, rows', v)
  {
    hide Below, Above;
    AboveEvolves(v.cache.space, rows, rows');
    forall i: nat | i < |v.slots| ensures SlotOk(apply, rows', v, i) {
      assert SlotOk(apply, rows, v, i) && RowEvolves(rows[i], rows'[i]);
    }
    if v.cursor.Some? {
      var j :| 0 <= j < |rows| && rows[j].stamp.Some? && v.cursor.value <= rows[j].stamp.value;
      assert RowEvolves(rows[j], rows'[j]);
      forall i | 0 <= i < |rows'| && rows'[i].stamp.Some? && rows'[i].stamp.value < v.cursor.value
        ensures i < |v.slots| && v.slots[i].None?
      {
        if i < |rows| && rows[i].stamp.Some? {
          assert RowEvolves(rows[i], rows'[i]);
        }
      }
    }
  }

  /** What a refresh does to the slots: loaded trials are written, discarded ones cleared, and the
      list grows with empty slots as far as either reaches. */
  ghost predicate Applied(slots: Slots, loaded: seq<Trial>, discarded: seq<nat>, slots': Slots) {
    && |slots| <= |slots'|
    && (forall t :: t in loaded ==> t.number < |slots'|)
    && (forall n :: n in discarded ==> n < |slots'|)
    && (|slots'| > |slots| ==> (exists t :: t in loaded && t.number == |slots'| - 1) || |slots'| - 1 in discarded)
    && (forall i: nat :: i < |slots'| ==> AppliedAt(slots, loaded, discarded, slots', i))
  }

  ghost predicate AppliedAt(slots: Slots, loaded: seq<Trial>, discarded: seq<nat>, slots': Slots, i: nat)
    requires i < |slots'|
  {
    if i in discarded then slots'[i] == None
    else if exists t :: t in loaded && t.number == i
    then slots'[i].Some? && slots'[i].value in loaded && slots'[i].value.number == i
    else slots'[i] == if i < |slots| then slots[i] else None
  }

  /** A refresh brings the slots in line with the backend, whatever happened since the last one. */
  lemma RefreshSyncs(apply: bool, rows: seq<Row>, v: View, loaded: seq<Trial>, numbers: seq<nat>, next: Option<int>,
                     slots': Slots)
    requires StudyInv(apply, rows, v)
    requires DiffOf(apply, rows, v.unfinished, v.lastFinished, loaded)
    requires if apply then DiscardsOf(rows, v.cursor, numbers, next) else numbers == []
    requires SelfNumbered(rows) && Applied(v.slots, loaded, numbers, slots')
    ensures slots' == VisibleAll(apply, rows)
  {
    hide SpaceOk;
    forall i: nat | i < |rows| ensures i < |slots'| && slots'[i] == Visible(apply, rows[i]) {
      RefreshSlot(apply, rows, v, loaded, numbers, next, slots', i);
    }
    assert forall t :: t in loaded ==> t.number < |rows|;
    assert forall n :: n in numbers ==> n < |rows|;
    assert |slots'| <= |rows|;
    if |rows| > 0 {
      assert Visible(apply, rows[|rows| - 1]) == slots'[|rows| - 1];
    }
    assert |slots'| == |VisibleAll(apply, rows)|;
  }

  lemma RefreshSlot(apply: bool, rows: seq<Row>, v: View, loaded: seq<Trial>, numbers: seq<nat>, next: Option<int>,
                    slots': Slots, i: nat)
    requires StudyInv(apply, rows, v)
    requires DiffOf(apply, rows, v.unfinished, v.lastFinished, loaded)
    requires if apply then DiscardsOf(rows, v.cursor, numbers, next) else numbers == []
    requires SelfNumbered(rows) && Applied(v.slots, loaded, numbers, slots')
    requires i < |rows|
    ensures i < |slots'| && slots'[i] == Visible(apply, rows[i])
  {
    hide SpaceOk;
    assert AppliedAt(v.slots, loaded, numbers, slots', i) by {
      SlotCovered(apply, rows, v, loaded, numbers, next, slots', i);
    }
    if i < |v.slots| {
      assert SlotOk(apply, rows, v, i);
    }
    if apply && rows[i].stamp.Some? {
      assert forall t :: t in loaded ==> t.number != i;
    } else {
      assert i !in numbers;
      if InDiff(apply, rows, v.unfinished, v.lastFinished, i) {
        assert rows[i].trial in loaded && rows[i].trial.number == i;
      }
    }
  }

  /** Every row of the backend has a slot after the refresh. */
  lemma SlotCovered(apply: bool, rows: seq<Row>, v: View, loaded: seq<Trial>, numbers: seq<nat>, next: Option<int>,
                    slots': Slots, i: nat)
    requires StudyInv(apply, rows, v)
    requires DiffOf(apply, rows, v.unfinished, v.lastFinished, loaded)
    requires if apply then DiscardsOf(rows, v.cursor, numbers, next) else numbers == []
    requires SelfNumbered(rows) && Applied(v.slots, loaded, numbers, slots') && i < |rows|
    ensures i < |slots'|
  {
    hide SpaceOk, SlotOk;
    if i >= |v.slots| {
      if apply && rows[i].stamp.Some? {
        assert StampedSince(rows, v.cursor, i);
      } else {
        assert InDiff(apply, rows, v.unfinished, v.lastFinished, i);
        assert rows[i].trial in loaded;
      }
    }
  }

  /** A refresh that reads nothing new had nothing to do. */
  lemma NothingNew(apply: bool, rows: seq<Row>, v: View, next: Option<int>)
    requires StudyInv(apply, rows, v) && SelfNumbered(rows)
    requires DiffOf(apply, rows, v.unfinished, v.lastFinished, [])
    requires apply ==> DiscardsOf(rows, v.cursor, [], next)
    ensures Synced(apply, rows, v)
  {
    hide SpaceOk;
    RefreshSyncs(apply, rows, v, [], [], next, v.slots);
  }

  /** A slot that will not change any more: finished, or empty where discards are applied. */
  predicate Terminal(apply: bool, slot: Option<Trial>) {
    if slot.None? then apply else slot.value.IsFinished()
  }

  /** What `recompute_trial_bookkeeping` computes: the unfinished trials, and the largest of the old
      cursor and the positions of terminal slots. */
  ghost predicate Recomputed(apply: bool, slots: Slots, last: int, unfinished: seq<nat>, last': int) {
    && (forall n: nat :: n in unfinished <==> n < |slots| && IsUnfinished(slots[n]))
    && last <= last'
    && (forall n: nat :: n < |slots| && Terminal(apply, slots[n]) ==> n <= last')
    && (last' == last || (0 <= last' < |slots| && Terminal(apply, slots[last'])))
  }

  /** The view after a refresh that synchronized the slots. */
  lemma RefreshInv(apply: bool, rows: seq<Row>, v: View, numbers: seq<nat>, next: Option<int>, v': View)
    requires StudyInv(apply, rows, v) && SelfNumbered(rows) && Synced(apply, rows, v')
    requires if apply then DiscardsOf(rows, v.cursor, numbers, next) else numbers == [] && next == None
    requires v'.cursor == if next.Some? then next else v.cursor
    requires Recomputed(apply, v'.slots, v.lastFinished, v'.unfinished, v'.lastFinished)
    requires SpaceOk(rows, v')
    ensures StudyInv(apply, rows, v')
  {
  }

  /** Updating the study cache from synchronized slots keeps the search space between its bounds. */
  lemma UpdateSpace(rows: seq<Row>, v: View, slots: Slots, sc: StudyCache)
    requires SpaceOk(rows, v) && |v.slots| <= |slots| <= |rows|
    requires forall i :: 0 <= i < v.cache.cursor ==>
      slots[i].None? || slots[i] == v.slots[i]
    requires forall i :: 0 <= i < |slots| && IsComplete(slots[i]) ==> rows[i].trial == slots[i].value
    requires CursorMoved(v.cache.cursor, slots, sc.cursor) && Narrowed(v.cache.space, slots, v.cache.cursor, sc.space)
    ensures sc.cursor <= |slots| && (forall i :: 0 <= i < sc.cursor ==> !IsUnfinished(slots[i]))
    ensures Below(sc.space, slots) && Above(sc.space, rows)
  {
    if sc.space.Some? {
      NarrowedRooted(rows, v, slots, sc.space.value);
    }
  }

  lemma NarrowedRooted(rows: seq<Row>, v: View, slots: Slots, space: Space)
    requires Above(v.cache.space, rows) && Narrowed(v.cache.space, slots, v.cache.cursor, Some(space))
      && |slots| <= |rows|
    requires forall i :: 0 <= i < |slots| && IsComplete(slots[i]) ==> rows[i].trial == slots[i].value
    ensures Rooted(rows, space)
  {
    if v.cache.space.Some? {
      var i :| 0 <= i < |rows| && HoldsAll(v.cache.space.value, rows[i].trial);
      assert HoldsAll(space, rows[i].trial);
    } else {
      var i :| v.cache.cursor <= i < |slots| && IsComplete(slots[i]);
      assert HoldsAll(space, rows[i].trial);
    }
  }

  ghost predicate NoneStamped(rows: seq<Row>) {
    forall i :: 0 <= i < |rows| ==> rows[i].stamp.None?
  }

  ghost predicate SomeVisible(apply: bool, rows: seq<Row>) {
    exists i :: 0 <= i < |rows| && IsComplete(Visible(apply, rows[i]))
  }

  /** The entry takes more than one value, and all complete trials ever, of which there are some, have it. */
  ghost predicate Agreed(rows: seq<Row>, name: string, d: Distribution) {
    !d.IsSingle() && SomeComplete(rows) && RowsAgree(rows, name, d)
  }

  ghost predicate AgreedKept(rows: seq<Row>, space: Space) {
    forall name: string, d: Distribution :: Agreed(rows, name, d) ==> Holds(space, name, d)
  }

  /** What the search space is, by whether this process has ever `seen` a complete trial of the study.
      Every entry takes more than one value and is shared by all visible complete trials. Unless
      something was seen there is no entry; otherwise all entries come from one complete trial,
      discarded or not, and every entry shared by all complete trials ever is there. */
  ghost predicate SpaceBetween(apply: bool, rows: seq<Row>, seen: bool, space: Space) {
    && (forall name: string, d: Distribution ::
          Holds(space, name, d) ==> !d.IsSingle() && AllAgree(VisibleAll(apply, rows), 0, name, d))
    && (if seen then Rooted(rows, space) && AgreedKept(rows, space) else space == map[])
  }

  /** The lower bound holds if and only if a complete trial was seen or there is nothing to miss. */
  lemma LowerBoundExactly(apply: bool, rows: seq<Row>, seen: bool, space: Space)
    requires SpaceBetween(apply, rows, seen, space)
    ensures AgreedKept(rows, space) <==> seen || forall name: string, d: Distribution :: !Agreed(rows, name, d)
  {
    hide Agreed, AllAgree, Rooted;
  }

  /** The intersection over all complete trials, computed from scratch. */
  ghost predicate SpaceExact(rows: seq<Row>, space: Space) {
    forall name: string, d: Distribution ::
      Holds(space, name, d) <==> !d.IsSingle() && SomeComplete(rows) && RowsAgree(rows, name, d)
  }

  lemma JointSpaceBounds(apply: bool, rows: seq<Row>, v: View)
    requires SpaceOk(rows, v) && Synced(apply, rows, v)
    ensures SpaceBetween(apply, rows, v.cache.space.Some?, JointSearchSpace(v.cache))
  {
    hide Below, Above, RowsAgree, SomeComplete;
    SpaceFacts(rows, v);
    var space := JointSearchSpace(v.cache);
    if v.cache.space.Some? {
      var i :| 0 <= i < |rows| && HoldsAll(v.cache.space.value, rows[i].trial);
      assert HoldsAll(space, rows[i].trial);
    }
  }

  lemma SpaceFacts(rows: seq<Row>, v: View)
    requires SpaceOk(rows, v)
    ensures v.cache.space.Some? ==> Rooted(rows, v.cache.space.value)
    ensures v.cache.space.Some? ==> forall name: string, d: Distribution ::
      Holds(v.cache.space.value, name, d) ==> AllAgree(v.slots, 0, name, d)
    ensures v.cache.space.Some? ==> forall name: string, d: Distribution ::
      RowsAgree(rows, name, d) ==> Holds(v.cache.space.value, name, d)
  {
  }

  /** A process has seen a complete trial once one was visible to it at a refresh. */
  lemma SeenAfter(apply: bool, rows: seq<Row>, v: View, v': View)
    requires StudyInv(apply, rows, v) && Synced(apply, rows, v')
    requires Narrowed(v.cache.space, v'.slots, v.cache.cursor, v'.cache.space)
    ensures v'.cache.space.Some? <==> v.cache.space.Some? || SomeVisible(apply, rows)
  {
    hide Above, CursorOk, Narrowed, SomeVisible;
    forall i | 0 <= i < v.cache.cursor && IsComplete(v'.slots[i]) ensures v.cache.space.Some? {
      assert SlotOk(apply, rows, v, i) && v'.slots[i] == Visible(apply, rows[i]);
      assert IsComplete(v.slots[i]);
    }
    SeenBy(apply, rows, v.cache.space, v'.slots, v.cache.cursor, v'.cache.space);
  }

  lemma SeenBy(apply: bool, rows: seq<Row>, space: Option<Space>, slots: Slots, lo: nat, space': Option<Space>)
    requires slots == VisibleAll(apply, rows) && Narrowed(space, slots, lo, space')
    requires forall i :: 0 <= i < lo && i < |slots| && IsComplete(slots[i]) ==> space.Some?
    ensures space'.Some? <==> space.Some? || SomeVisible(apply, rows)
  {
    if SomeVisible(apply, rows) {
      var i :| 0 <= i < |rows| && IsComplete(Visible(apply, rows[i]));
      assert IsComplete(slots[i]);
    }
    forall i | 0 <= i < |slots| && IsComplete(slots[i]) ensures SomeVisible(apply, rows) {
      assert slots[i] == Visible(apply, rows[i]);
    }
  }

  /** Where nothing had to be refreshed, what is visible was seen before. */
  lemma SeenBefore(apply: bool, rows: seq<Row>, v: View)
    requires SpaceOk(rows, v) && Synced(apply, rows, v) && SomeVisible(apply, rows)
    ensures v.cache.space.Some?
  {
    var i :| 0 <= i < |rows| && IsComplete(Visible(apply, rows[i]));
    assert IsComplete(v.slots[i]);
  }

  lemma JointSpaceExact(apply: bool, rows: seq<Row>, v: View)
    requires SpaceOk(rows, v) && Synced(apply, rows, v)
    requires !apply || NoneStamped(rows)
    ensures SpaceExact(rows, JointSearchSpace(v.cache))
  {
  }

  /** The search space after the study cache has seen the refreshed slots. */
  lemma RefreshSpace(apply: bool, rows: seq<Row>, v: View, v': View)
    requires StudyInv(apply, rows, v) && Synced(apply, rows, v')
    requires CursorMoved(v.cache.cursor, v'.slots, v'.cache.cursor)
      && Narrowed(v.cache.space, v'.slots, v.cache.cursor, v'.cache.space)
    ensures SpaceOk(rows, v')
  {
    hide Below, Above, CursorMoved, Narrowed;
    forall i | 0 <= i < v.cache.cursor ensures v'.slots[i].None? || v'.slots[i] == v.slots[i] {
      assert SlotOk(apply, rows, v, i) && v'.slots[i] == Visible(apply, rows[i]);
    }
    assert forall i :: 0 <= i < |v'.slots| ==> v'.slots[i] == Visible(apply, rows[i]);
    UpdateSpace(rows, v, v'.slots, v'.cache);
  }

  /** Updating the study cache again keeps the invariant. */
  lemma UpdateInv(apply: bool, rows: seq<Row>, v: View, v': View)
    requires StudyInv(apply, rows, v) && v' == v.(cache := v'.cache)
    requires CursorMoved(v.cache.cursor, v.slots, v'.cache.cursor)
      && Narrowed(v.cache.space, v.slots, v.cache.cursor, v'.cache.space)
    ensures StudyInv(apply, rows, v')
  {
    hide Below, Above, CursorMoved, Narrowed;
    forall i | 0 <= i < |v.slots| && IsComplete(v.slots[i]) ensures rows[i].trial == v.slots[i].value {
      assert SlotOk(apply, rows, v, i);
    }
    UpdateSpace(rows, v, v.slots, v'.cache);
    forall i: nat | i < |v'.slots| ensures SlotOk(apply, rows, v', i) {
      assert SlotOk(apply, rows, v, i);
    }
  }

  /** Registering the trial this process has just created in the last row. */
  lemma RegisterInv(apply: bool, rows: seq<Row>, v: View, trial: Trial, v': View)
    requires StudyInv(apply, rows, v) && |rows| == trial.number + 1 && rows[trial.number] == Row(trial, None)
    requires trial.number <= |v.slots| && v'.slots == v.slots[..trial.number] + [Some(trial)]
    requires CursorMoved(v.cache.cursor, v'.slots, v'.cache.cursor)
      && Narrowed(v.cache.space, v'.slots, v.cache.cursor, v'.cache.space)
    requires v'.cursor == v.cursor && -1 <= v'.lastFinished < |rows|
    requires v'.unfinished == if trial.IsFinished() then v.unfinished else v.unfinished + [trial.number]
    ensures StudyInv(apply, rows, v')
  {
    hide Below, Above, CursorMoved, Narrowed;
    forall i: nat | i < |v'.slots| ensures SlotOk(apply, rows, v', i) {
      if i < trial.number {
        assert SlotOk(apply, rows, v, i);
      }
    }
    forall i | 0 <= i < v.cache.cursor ensures v'.slots[i].None? || v'.slots[i] == v.slots[i] {
      assert SlotOk(apply, rows, v, i);
    }
    assert forall i: nat :: i < |v'.slots| && IsComplete(v'.slots[i]) ==> SlotOk(apply, rows, v', i);
    UpdateSpace(rows, v, v'.slots, v'.cache);
  }

  /** Clearing slots of discarded trials. */
  lemma ClearInv(rows: seq<Row>, v: View, v': View)
    requires StudyInv(true, rows, v) && |v'.slots| == |v.slots| && v'.cursor == v.cursor && v'.cache == v.cache
    requires forall i: nat ::
      i < |v.slots| ==> v'.slots[i] == v.slots[i] || (v'.slots[i] == None && rows[i].stamp.Some?)
    requires forall n: nat :: n < |v'.slots| && IsUnfinished(v'.slots[n]) ==> n in v'.unfinished
    requires -1 <= v'.lastFinished < |v'.slots|
    ensures StudyInv(true, rows, v')
  {
    hide Above;
    forall i: nat | i < |v'.slots| ensures SlotOk(true, rows, v', i) {
      assert SlotOk(true, rows, v, i);
    }
    assert Below(v'.cache.space, v'.slots) by {
      BelowCleared(v.cache.space, v.slots, v'.slots);
    }
  }

  lemma BelowCleared(space: Option<Space>, slots: Slots, slots': Slots)
    requires Below(space, slots) && |slots'| == |slots|
    requires forall i: nat :: i < |slots| && IsComplete(slots'[i]) ==> slots'[i] == slots[i]
    ensures Below(space, slots')
  {
  }

  /** Changing an unfinished trial in the cache as it was changed in the backend. */
  lemma PatchInv(apply: bool, rows: seq<Row>, v: View, n: nat, v': View)
    requires StudyInv(apply, rows, v) && n < |v.slots| && IsUnfinished(v.slots[n])
    requires !rows[n].trial.IsFinished() && rows[n].trial.number == n
      && v' == v.(slots := v.slots[n := Some(rows[n].trial)])
    ensures StudyInv(apply, rows, v')
  {
    hide Above;
    forall i: nat | i < |v'.slots| ensures SlotOk(apply, rows, v', i) {
      assert SlotOk(apply, rows, v, i) && SlotOk(apply, rows, v, n);
    }
    BelowCleared(v.cache.space, v.slots, v'.slots);
  }

  /** A longer refresh list never hurts. */
  lemma PushInv(apply: bool, rows: seq<Row>, v: View, n: nat)
    requires StudyInv(apply, rows, v)
    ensures StudyInv(apply, rows, v.(unfinished := v.unfinished + [n]))
  {
    hide Above, Below;
    forall i: nat | i < |v.slots| ensures SlotOk(apply, rows, v.(unfinished := v.unfinished + [n]), i) {
      assert SlotOk(apply, rows, v, i);
    }
  }

  function LastOf(lastFinished: map<nat, int>, s: nat): int {
    if s in lastFinished then lastFinished[s] else -1
  }

  function Later(a: int, b: int): (later: int)
    ensures later >= a && later >= b && (later == a || later == b)
  {
    if a < b then b else a
  }

  /** The fields of `CachedStorage` that hold per-study entries; a missing entry reads as its default. */
  datatype Caches = Caches(trials: map<nat, Slots>, studyCaches: map<nat, StudyCache>, unfinished: map<nat, seq<nat>>,
                           lastFinished: map<nat, int>, discardCursor: map<nat, int>)
  {
    function ViewOf(s: nat): View {
      View(if s in trials then trials[s] else [],
           if s in unfinished then unfinished[s] else [],
           LastOf(lastFinished, s),
           if s in discardCursor then Some(discardCursor[s]) else None,
           CacheOf(studyCaches, s))
    }
  }

  ghost predicate AllInv(apply: bool, studies: Studies, c: Caches) {
    forall s: nat :: StudyInv(apply, RowsOf(studies, s), c.ViewOf(s))
  }

  ghost predicate OthersSame(c: Caches, c': Caches, s: nat) {
    forall t: nat :: t != s ==> c'.ViewOf(t) == c.ViewOf(t)
  }

  lemma AllEvolve(apply: bool, studies: Studies, studies': Studies, c: Caches)
    requires AllInv(apply, studies, c) && EvolvesAll(studies, studies')
    ensures AllInv(apply, studies', c)
  {
    hide StudyInv, Evolves;
    forall s: nat ensures StudyInv(apply, RowsOf(studies', s), c.ViewOf(s)) {
      InvEvolves(apply, RowsOf(studies, s), RowsOf(studies', s), c.ViewOf(s));
    }
  }

  lemma OneInv(apply: bool, studies: Studies, c: Caches, c': Caches, s: nat)
    requires AllInv(apply, studies, c) && OthersSame(c, c', s)
    requires StudyInv(apply, RowsOf(studies, s), c'.ViewOf(s))
    ensures AllInv(apply, studies, c')
  {
  }

  /** A refresh that reads nothing leaves the caches as they are, and they were in line. */
  lemma NothingToRefresh(apply: bool, studies: Studies, c: Caches, s: nat, next: Option<int>)
    requires AllInv(apply, studies, c) && SelfNumbered(RowsOf(studies, s))
    requires DiffOf(apply, RowsOf(studies, s), c.ViewOf(s).unfinished, c.ViewOf(s).lastFinished, [])
    requires if apply then DiscardsOf(RowsOf(studies, s), c.ViewOf(s).cursor, [], next) else next == None
    ensures next.None? && c.ViewOf(s).slots == VisibleAll(apply, RowsOf(studies, s))
    ensures RowsOf(studies, s) != [] ==> s in c.trials
    ensures SomeVisible(apply, RowsOf(studies, s)) ==> CacheOf(c.studyCaches, s).space.Some?
    ensures OthersSame(c, c, s)
  {
    hide StudyInv, DiffOf, SpaceOk, SomeVisible;
    ViewInv(apply, studies, c, s);
    assert StudyInv(apply, RowsOf(studies, s), c.ViewOf(s));
    NothingNew(apply, RowsOf(studies, s), c.ViewOf(s), next);
    if SomeVisible(apply, RowsOf(studies, s)) {
      SeenBefore(apply, RowsOf(studies, s), c.ViewOf(s));
    }
  }

  ghost predicate Positioned(slots: Slots) {
    forall i: nat :: i < |slots| && slots[i].Some? ==> slots[i].value.number == i
  }

  lemma SyncedNumbers(apply: bool, studies: Studies, c: Caches, s: nat, loaded: seq<Trial>, numbers: seq<nat>,
                      next: Option<int>, slots: Slots)
    requires AllInv(apply, studies, c) && SelfNumbered(RowsOf(studies, s))
    requires DiffOf(apply, RowsOf(studies, s), c.ViewOf(s).unfinished, c.ViewOf(s).lastFinished, loaded)
    requires if apply then DiscardsOf(RowsOf(studies, s), c.ViewOf(s).cursor, numbers, next) else numbers == []
    requires Applied(c.ViewOf(s).slots, loaded, numbers, slots)
    ensures slots == VisibleAll(apply, RowsOf(studies, s)) && Positioned(slots)
    ensures RowsOf(studies, s) == [] ==> loaded == [] && numbers == []
  {
    hide StudyInv, Applied;
    assert StudyInv(apply, RowsOf(studies, s), c.ViewOf(s));
    RefreshSyncs(apply, RowsOf(studies, s), c.ViewOf(s), loaded, numbers, next, slots);
    if loaded != [] {
      assert loaded[0] in loaded;
    }
    if numbers != [] {
      assert numbers[0] in numbers;
    }
  }

  /** The caches a refresh leaves behind. */
  lemma RefreshKeeps(apply: bool, studies: Studies, c: Caches, s: nat, loaded: seq<Trial>, numbers: seq<nat>,
                     next: Option<int>, c': Caches)
    requires AllInv(apply, studies, c) && SelfNumbered(RowsOf(studies, s)) && s in c'.trials
    requires if apply then DiscardsOf(RowsOf(studies, s), c.ViewOf(s).cursor, numbers, next)
      else numbers == [] && next == None
    requires c'.trials == c.trials[s := VisibleAll(apply, RowsOf(studies, s))]
    requires s in c'.studyCaches && c'.studyCaches == c.studyCaches[s := c'.studyCaches[s]]
    requires s in c'.unfinished && c'.unfinished == c.unfinished[s := c'.unfinished[s]]
    requires s in c'.lastFinished && c'.lastFinished == c.lastFinished[s := c'.lastFinished[s]]
    requires c'.discardCursor == if next.Some? then c.discardCursor[s := next.value] else c.discardCursor
    requires CursorMoved(CacheOf(c.studyCaches, s).cursor, c'.trials[s], c'.studyCaches[s].cursor)
    requires Narrowed(CacheOf(c.studyCaches, s).space, c'.trials[s], CacheOf(c.studyCaches, s).cursor,
      c'.studyCaches[s].space)
    requires Recomputed(apply, c'.trials[s], LastOf(c.lastFinished, s), c'.unfinished[s], c'.lastFinished[s])
    ensures AllInv(apply, studies, c') && OthersSame(c, c', s)
    ensures c'.ViewOf(s).slots == VisibleAll(apply, RowsOf(studies, s)) && c'.ViewOf(s).cache == c'.studyCaches[s]
    ensures c'.studyCaches[s].space.Some? <==>
      CacheOf(c.studyCaches, s).space.Some? || SomeVisible(apply, RowsOf(studies, s))
  {
    hide StudyInv, DiscardsOf, CursorMoved, Narrowed, Recomputed, SpaceOk, SomeVisible;
    assert StudyInv(apply, RowsOf(studies, s), c.ViewOf(s));
    RefreshSpace(apply, RowsOf(studies, s), c.ViewOf(s), c'.ViewOf(s));
    SeenAfter(apply, RowsOf(studies, s), c.ViewOf(s), c'.ViewOf(s));
    RefreshInv(apply, RowsOf(studies, s), c.ViewOf(s), numbers, next, c'.ViewOf(s));
    OneInv(apply, studies, c, c', s);
  }

  /** What a cached slot says about its row: finished trials are right, and an empty slot is a
      discarded trial. */
  lemma SlotFacts(apply: bool, studies: Studies, c: Caches, s: nat, n: nat)
    requires AllInv(apply, studies, c) && n < |c.ViewOf(s).slots|
    ensures n < |RowsOf(studies, s)|
    ensures c.ViewOf(s).slots[n].None? ==> apply && RowsOf(studies, s)[n].stamp.Some?
    ensures c.ViewOf(s).slots[n].Some? ==> c.ViewOf(s).slots[n].value.id == RowsOf(studies, s)[n].trial.id
    ensures c.ViewOf(s).slots[n].Some? && c.ViewOf(s).slots[n].value.IsFinished() ==>
      c.ViewOf(s).slots[n].value == RowsOf(studies, s)[n].trial
  {
    hide CursorOk, SpaceOk;
    assert StudyInv(apply, RowsOf(studies, s), c.ViewOf(s));
    assert SlotOk(apply, RowsOf(studies, s), c.ViewOf(s), n);
  }

  lemma ViewInv(apply: bool, studies: Studies, c: Caches, s: nat)
    requires AllInv(apply, studies, c)
    ensures SpaceOk(RowsOf(studies, s), c.ViewOf(s))
  {
  }

  lemma CachedWithin(apply: bool, studies: Studies, c: Caches, s: nat)
    requires AllInv(apply, studies, c)
    ensures |c.ViewOf(s).slots| <= |RowsOf(studies, s)|
  {
  }

  /** Every cached unfinished trial is on its refresh list, and the refresh cursor names a slot. */
  lemma UnfinishedListed(apply: bool, studies: Studies, c: Caches, s: nat)
    requires AllInv(apply, studies, c)
    ensures forall n: nat ::
      n < |c.ViewOf(s).slots| && IsUnfinished(c.ViewOf(s).slots[n]) ==> n in c.ViewOf(s).unfinished
    ensures -1 <= c.ViewOf(s).lastFinished < |c.ViewOf(s).slots|
  {
    hide CursorOk, SpaceOk;
    assert StudyInv(apply, RowsOf(studies, s), c.ViewOf(s));
    forall n: nat | n < |c.ViewOf(s).slots| && IsUnfinished(c.ViewOf(s).slots[n]) ensures n in c.ViewOf(s).unfinished {
      assert SlotOk(apply, RowsOf(studies, s), c.ViewOf(s), n);
    }
  }

  lemma SlotsPositioned(apply: bool, studies: Studies, c: Caches, s: nat)
    requires AllInv(apply, studies, c)
    ensures Positioned(c.ViewOf(s).slots)
    ensures -1 <= c.ViewOf(s).lastFinished < |c.ViewOf(s).slots|
  {
    hide CursorOk, SpaceOk;
    assert StudyInv(apply, RowsOf(studies, s), c.ViewOf(s));
    forall n: nat | n < |c.ViewOf(s).slots| && c.ViewOf(s).slots[n].Some?
      ensures c.ViewOf(s).slots[n].value.number == n {
      assert SlotOk(apply, RowsOf(studies, s), c.ViewOf(s), n);
    }
  }

  /** A new, empty study. */
  lemma NewStudyKeeps(apply: bool, studies: Studies, c: Caches, s: nat)
    requires AllInv(apply, studies, c) && RowsOf(studies, s) == []
    ensures AllInv(apply, studies, Caches(c.trials[s := []], c.studyCaches[s := EMPTY], c.unfinished[s := []],
      c.lastFinished[s := -1], c.discardCursor))
  {
  }

  /** The slots with a just created trial in the last position. */
  function Registered(slots: Slots, trial: Trial): Slots
    requires trial.number <= |slots|
  {
    slots[..trial.number] + [Some(trial)]
  }

  /** Registering a created trial in the caches. */
  lemma RegisterKeeps(apply: bool, studies: Studies, c: Caches, s: nat, trial: Trial, c': Caches)
    requires AllInv(apply, studies, c) && s in c'.trials && s in c'.studyCaches
    requires |RowsOf(studies, s)| == trial.number + 1 && RowsOf(studies, s)[trial.number] == Row(trial, None)
    requires trial.number <= |c.ViewOf(s).slots|
    requires c'.trials == c.trials[s := Registered(c.ViewOf(s).slots, trial)]
    requires c'.studyCaches == c.studyCaches[s := c'.studyCaches[s]]
    requires c'.unfinished == if trial.IsFinished() then c.unfinished
      else c.unfinished[s := c.ViewOf(s).unfinished + [trial.number]]
    requires c'.lastFinished == if !trial.IsFinished() then c.lastFinished
      else c.lastFinished[s := Later(LastOf(c.lastFinished, s), trial.number)]
    requires c'.discardCursor == c.discardCursor
    requires CursorMoved(CacheOf(c.studyCaches, s).cursor, c'.trials[s], c'.studyCaches[s].cursor)
    requires Narrowed(CacheOf(c.studyCaches, s).space, c'.trials[s], CacheOf(c.studyCaches, s).cursor,
      c'.studyCaches[s].space)
    ensures AllInv(apply, studies, c')
    ensures c'.ViewOf(s).slots == c'.trials[s] && |c'.trials[s]| == |RowsOf(studies, s)|
      && c'.trials[s][trial.number] == Some(trial)
  {
    hide SpaceOk, CursorOk, SlotOk, CursorMoved, Narrowed;
    assert StudyInv(apply, RowsOf(studies, s), c.ViewOf(s));
    RegisterInv(apply, RowsOf(studies, s), c.ViewOf(s), trial, c'.ViewOf(s));
    OneInv(apply, studies, c, c', s);
  }

  /** Updating one study cache. */
  lemma UpdateKeeps(apply: bool, studies: Studies, c: Caches, s: nat, sc: StudyCache)
    requires AllInv(apply, studies, c)
    requires CursorMoved(CacheOf(c.studyCaches, s).cursor, c.ViewOf(s).slots, sc.cursor)
    requires Narrowed(CacheOf(c.studyCaches, s).space, c.ViewOf(s).slots, CacheOf(c.studyCaches, s).cursor, sc.space)
    ensures AllInv(apply, studies, c.(studyCaches := c.studyCaches[s := sc]))
    ensures Synced(apply, RowsOf(studies, s), c.ViewOf(s)) ==>
      (sc.space.Some? <==> CacheOf(c.studyCaches, s).space.Some? || SomeVisible(apply, RowsOf(studies, s)))
    ensures c.(studyCaches := c.studyCaches[s := sc]).ViewOf(s) == c.ViewOf(s).(cache := sc)
    ensures OthersSame(c, c.(studyCaches := c.studyCaches[s := sc]), s)
  {
    hide StudyInv, CursorMoved, Narrowed;
    assert StudyInv(apply, RowsOf(studies, s), c.ViewOf(s));
    UpdateInv(apply, RowsOf(studies, s), c.ViewOf(s), c.(studyCaches := c.studyCaches[s := sc]).ViewOf(s));
    OneInv(apply, studies, c, c.(studyCaches := c.studyCaches[s := sc]), s);
    if Synced(apply, RowsOf(studies, s), c.ViewOf(s)) {
      SeenAfter(apply, RowsOf(studies, s), c.ViewOf(s), c.ViewOf(s).(cache := sc));
    }
  }

  /** Adding to one refresh list. */
  lemma PushKeeps(apply: bool, studies: Studies, c: Caches, s: nat, n: nat)
    requires AllInv(apply, studies, c)
    ensures AllInv(apply, studies, c.(unfinished := c.unfinished[s := c.ViewOf(s).unfinished + [n]]))
  {
    hide StudyInv;
    assert StudyInv(apply, RowsOf(studies, s), c.ViewOf(s));
    PushInv(apply, RowsOf(studies, s), c.ViewOf(s), n);
    var c' := c.(unfinished := c.unfinished[s := c.ViewOf(s).unfinished + [n]]);
    assert c'.ViewOf(s) == c.ViewOf(s).(unfinished := c.ViewOf(s).unfinished + [n]);
    OneInv(apply, studies, c, c', s);
  }

  /** Changing a cached unfinished trial as the backend changed it. */
  lemma PatchKeeps(apply: bool, studies: Studies, c: Caches, s: nat, n: nat, trial: Trial)
    requires AllInv(apply, studies, c) && s in c.trials && n < |c.trials[s]| && IsUnfinished(c.trials[s][n])
    requires n < |RowsOf(studies, s)| && RowsOf(studies, s)[n].trial == trial && !trial.IsFinished()
      && trial.number == n
    ensures AllInv(apply, studies, c.(trials := c.trials[s := c.trials[s][n := Some(trial)]]))
  {
    hide StudyInv;
    var c' := c.(trials := c.trials[s := c.trials[s][n := Some(trial)]]);
    assert StudyInv(apply, RowsOf(studies, s), c.ViewOf(s));
    PatchInv(apply, RowsOf(studies, s), c.ViewOf(s), n, c'.ViewOf(s));
    OneInv(apply, studies, c, c', s);
  }

  lemma PatchVisible(apply: bool, studies: Studies, s: nat, n: nat, trial: Trial)
    requires s in studies && n < |studies[s]| && Visible(apply, studies[s][n]).Some?
    ensures VisibleAll(apply, Stored(studies, (s, n), trial)[s]) == VisibleAll(apply, studies[s])[n := Some(trial)]
  {
  }

  /** Clearing a discarded trial's slot and dropping it from the refresh list. */
  lemma ClearKeeps(studies: Studies, c: Caches, s: nat, c': Caches)
    requires AllInv(true, studies, c) && OthersSame(c, c', s)
    requires |c'.ViewOf(s).slots| == |c.ViewOf(s).slots|
    requires c'.ViewOf(s).cursor == c.ViewOf(s).cursor && c'.ViewOf(s).cache == c.ViewOf(s).cache
    requires forall i: nat :: i < |c.ViewOf(s).slots| ==>
      || c'.ViewOf(s).slots[i] == c.ViewOf(s).slots[i]
      || (c'.ViewOf(s).slots[i] == None && i < |RowsOf(studies, s)| && RowsOf(studies, s)[i].stamp.Some?)
    requires forall n: nat ::
      n < |c'.ViewOf(s).slots| && IsUnfinished(c'.ViewOf(s).slots[n]) ==> n in c'.ViewOf(s).unfinished
    requires -1 <= c'.ViewOf(s).lastFinished < |c'.ViewOf(s).slots|
    ensures AllInv(true, studies, c')
  {
    hide CursorOk, SpaceOk, SlotOk;
    assert StudyInv(true, RowsOf(studies, s), c.ViewOf(s));
    ClearInv(RowsOf(studies, s), c.ViewOf(s), c'.ViewOf(s));
    OneInv(true, studies, c, c', s);
  }

  /** `unfinished.retain(|number| *number != trial_number)` */
  function Without(numbers: seq<nat>, n: nat): (kept: seq<nat>)
    ensures forall m: nat :: m in kept <==> m in numbers && m != n
  {
    if numbers == [] then []
    else if numbers[0] == n then Without(numbers[1..], n)
    else [numbers[0]] + Without(numbers[1..], n)
  }

  ghost predicate StampedAt(studies: Studies, at: (nat, nat)) {
    at.0 in studies && at.1 < |studies[at.0]| && studies[at.0][at.1].stamp.Some?
  }

  /** Forgetting one discarded trial. */
  lemma ForgetKeeps(studies: Studies, c: Caches, s: nat, n: nat, c': Caches)
    requires AllInv(true, studies, c) && StampedAt(studies, (s, n))
    requires c'.trials == if s in c.trials && n < |c.trials[s]| then c.trials[s := c.trials[s][n := None]] else c.trials
    requires c'.unfinished == if s in c.unfinished then c.unfinished[s := Without(c.unfinished[s], n)] else c.unfinished
    requires c'.lastFinished == c.lastFinished && c'.discardCursor == c.discardCursor && c'.studyCaches == c.studyCaches
    ensures AllInv(true, studies, c')
    ensures forall t: nat, m: nat :: m < |c'.ViewOf(t).slots| ==>
      m < |c.ViewOf(t).slots| && c'.ViewOf(t).slots[m] == if t == s && m == n then None else c.ViewOf(t).slots[m]
  {
    hide AllInv;
    CachedWithin(true, studies, c, s);
    UnfinishedListed(true, studies, c, s);
    ClearKeeps(studies, c, s, c');
  }
}
