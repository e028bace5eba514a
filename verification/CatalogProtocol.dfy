/** All interleavings of the gathering thread, one heartbeat thread, catalog changes and
    statestore resets.  The lock is held exactly where the source holds it; the body of a
    heartbeat runs without it (be/src/catalog/catalog-server.cc, lines 173-179 and 264-295).
 */
module CatalogProtocol {
  import opened CatalogTopic
  import opened CatalogServer

  datatype Owner = Free | Gatherer | Heart

  /** Where the gathering thread is; it holds the lock everywhere but in Waiting. */
  datatype GatherPc =
    | Waiting
    | Awake
    | Fetched(response: Response)
    | Stored
    | Marked
    | Done

  /** Where the heartbeat is.  `epoch` counts the statestore resets before it was sent. */
  datatype HeartPc =
    | Idle
    | Checking(full: bool, epoch: nat)
    | Entered(full: bool, epoch: nat)
    | Reviewed(cleared: bool, epoch: nat)
    | Computed(epoch: nat, items: seq<Item>, current: set<Key>)
    | Swapped(epoch: nat, items: seq<Item>)
    | Versioned(epoch: nat, items: seq<Item>)
    | Relocked(epoch: nat, items: seq<Item>)
    | Unready(epoch: nat, items: seq<Item>)

  datatype State = State(
    log: seq<Catalog>,
    // the server's fields
    lock: Owner, loaded: bool, objects: Snapshot, ready: bool, lastSent: nat, fromVersion: nat, keys: set<Key>,
    gather: GatherPc, heart: HeartPc,
    // the statestore: the topic, whether nothing has been published to it yet, and how often it was
    // reset; `current` says that a heartbeat has returned to it since the last reset
    topic: Topic, blank: bool, epoch: nat, current: bool)

  ghost predicate Init(s: State) {
    && History(s.log)
    && s.lock == Free && !s.loaded && !s.ready && s.lastSent == 0 && s.keys == {}
    && s.gather == Waiting && s.heart == Idle
    && s.topic == map[] && s.blank && !s.current
  }

  // ----- the environment -----

  ghost predicate Mutate(s: State, s': State) {
    s.log != [] && s' == s.(log := s'.log) && |s'.log| == |s.log| + 1 && s'.log[..|s.log|] == s.log
    && Evolves(s.log[|s.log| - 1], s'.log[|s.log|], |s.log|)
  }

  ghost predicate ResetStatestore(s: State, s': State) {
    s' == s.(topic := map[], blank := true, epoch := s.epoch + 1, current := false)
  }

  // ----- the gathering thread -----

  /** The wait may end at any time, notified or not. */
  ghost predicate Wake(s: State, s': State) {
    s.gather == Waiting && s.lock == Free && s' == s.(gather := Awake, lock := Gatherer)
  }

  ghost predicate SleepAgain(s: State, s': State) {
    s.gather == Awake && s.ready && s' == s.(gather := Waiting, lock := Free)
  }

  ghost predicate FetchOk(s: State, s': State) {
    && s.gather == Awake && !s.ready
    && s'.gather.Fetched? && s'.gather.response.Ok?
    && s'.gather.response.snapshot.maxVersion == |s.log| - 1 && Gathered(s.log, s.lastSent, s'.gather.response.snapshot)
    && s' == s.(gather := s'.gather)
  }

  /** A gather may fail once the first one has succeeded. */
  ghost predicate FetchFailed(s: State, s': State) {
    s.gather == Awake && !s.ready && s.loaded && s' == s.(gather := Fetched(Failed))
  }

  ghost predicate Store(s: State, s': State) {
    && s.gather.Fetched?
    && s' == match s.gather.response
             case Ok(o) => s.(gather := Stored, loaded := true, objects := o)
             case Failed => s.(gather := Stored)
  }

  ghost predicate Mark(s: State, s': State) {
    s.gather == Stored && s' == s.(gather := Marked, fromVersion := s.lastSent)
  }

  ghost predicate SetReady(s: State, s': State) {
    s.gather == Marked && s' == s.(gather := Done, ready := true)
  }

  ghost predicate Release(s: State, s': State) {
    s.gather == Done && s' == s.(gather := Waiting, lock := Free)
  }

  // ----- the heartbeat -----

  /** A heartbeat whose try-lock fails does nothing; one that succeeds looks at the flag. */
  ghost predicate TryLock(s: State, s': State) {
    s.heart == Idle && s.lock == Free && s' == s.(heart := Checking(s.blank, s.epoch), lock := Heart)
  }

  ghost predicate Check(s: State, s': State) {
    && s.heart.Checking?
    && s' == s.(lock := Free, heart := if s.ready then Entered(s.heart.full, s.heart.epoch) else Idle)
  }

  ghost predicate Review(s: State, s': State) {
    && s.heart.Entered?
    && var cleared := s.heart.full && s.fromVersion != 0;
       && s'.heart == Reviewed(cleared, s.heart.epoch)
       && s' == s.(heart := s'.heart, keys := if cleared then {} else s.keys,
                   objects := if cleared then EMPTY else s.objects)
  }

  ghost predicate Compute(s: State, s': State) {
    && s.heart.Reviewed?
    && s'.heart.Computed? && s'.heart.epoch == s.heart.epoch
    && s'.heart.current == KeysOf(s.objects.objects)
    && DeltaOf(s.objects, s.keys, s.lastSent, s'.heart.items)
    && s' == s.(heart := s'.heart, keys := s.keys - s'.heart.current)
  }

  ghost predicate Swap(s: State, s': State) {
    s.heart.Computed? && s' == s.(heart := Swapped(s.heart.epoch, s.heart.items), keys := s.heart.current)
  }

  ghost predicate Advance(s: State, s': State) {
    s.heart.Swapped? && s' == s.(heart := Versioned(s.heart.epoch, s.heart.items), lastSent := s.objects.maxVersion)
  }

  ghost predicate Relock(s: State, s': State) {
    s.heart.Versioned? && s.lock == Free && s' == s.(heart := Relocked(s.heart.epoch, s.heart.items), lock := Heart)
  }

  ghost predicate ClearReady(s: State, s': State) {
    s.heart.Relocked? && s' == s.(heart := Unready(s.heart.epoch, s.heart.items), ready := false)
  }

  /** The items reach the statestore unless it was reset since the heartbeat was sent. */
  ghost predicate Return(s: State, s': State) {
    && s.heart.Unready?
    && var t := s.(heart := Idle, lock := Free);
       s' == if s.heart.epoch != s.epoch then t
             else t.(topic := Apply(s.topic, s.heart.items), blank := s.blank && s.heart.items == [], current := true)
  }

  ghost predicate GatherStep(s: State, s': State) {
    Wake(s, s') || SleepAgain(s, s') || FetchOk(s, s') || FetchFailed(s, s') || Store(s, s') || Mark(s, s')
    || SetReady(s, s') || Release(s, s')
  }

  ghost predicate HeartStep(s: State, s': State) {
    TryLock(s, s') || Check(s, s') || Review(s, s') || Compute(s, s') || Swap(s, s') || Advance(s, s')
    || Relock(s, s') || ClearReady(s, s') || Return(s, s')
  }

  ghost predicate Step(s: State, s': State) {
    Mutate(s, s') || ResetStatestore(s, s') || GatherStep(s, s') || HeartStep(s, s')
  }

  // ----- the invariant -----

  /** The snapshot was gathered at some time. */
  ghost predicate Genuine(log: seq<Catalog>, o: Snapshot) {
    exists from :: Gathered(log, from, o)
  }

  /** The snapshot tells everything that happened since lastSent: it was gathered from there, or, the
      last gather having failed, it is what was sent last. */
  ghost predicate Usable(log: seq<Catalog>, o: Snapshot, lastSent: nat) {
    && lastSent <= o.maxVersion
    && (Gathered(log, lastSent, o) || (o.maxVersion == lastSent && Genuine(log, o)))
  }

  /** The heartbeat's unlocked section, in which it reads catalog_objects_. */
  predicate InSection(h: HeartPc) {
    h.Entered? || h.Reviewed? || h.Computed? || h.Swapped? || h.Versioned?
  }

  /** The gathering thread is about to write, or has just written, catalog_objects_. */
  predicate Writing(g: GatherPc) {
    g.Fetched? || g.Stored? || g.Marked?
  }

  ghost predicate LockInv(s: State) {
    && (s.lock == Gatherer <==> s.gather != Waiting)
    && (s.lock == Heart <==> s.heart.Checking? || s.heart.Relocked? || s.heart.Unready?)
    && (InSection(s.heart) || s.heart.Relocked? ==> s.ready)
    && (s.heart.Unready? ==> !s.ready)
    && (Writing(s.gather) ==> !s.ready)
    && (s.gather.Done? ==> s.ready)
  }

  ghost predicate GatherInv(s: State) {
    && (s.ready || s.gather.Stored? || s.gather.Marked? ==> s.loaded)
    && (s.loaded ==> s.objects.maxVersion < |s.log| && Genuine(s.log, s.objects))
    && (s.gather.Fetched? && s.gather.response.Ok? ==> Gathered(s.log, s.lastSent, s.gather.response.snapshot))
    && (s.gather.Fetched? && s.gather.response.Failed? ==> s.loaded)
    && (s.loaded && !s.ready && !s.gather.Stored? && !s.gather.Marked? ==> s.objects.maxVersion == s.lastSent)
    && (s.gather.Stored? || s.gather.Marked? ==> Usable(s.log, s.objects, s.lastSent))
    && (s.gather.Marked? ==> s.fromVersion == s.lastSent)
  }

  ghost predicate HeartInv(s: State) {
    match s.heart
    case Idle => Known(s, s.lastSent) && (s.ready ==> Baton(s))
    case Checking(_, _) => Known(s, s.lastSent) && (s.ready ==> Baton(s))
    case Entered(_, _) => Known(s, s.lastSent) && Baton(s)
    case Reviewed(cleared, _) =>
      if cleared then s.objects == EMPTY && s.keys == {} else Known(s, s.lastSent) && Baton(s)
    case Computed(_, _, current) => s.objects.maxVersion < |s.log| && current == s.log[s.objects.maxVersion].Keys
    case Swapped(_, _) => Known(s, s.objects.maxVersion)
    case Versioned(_, _) => Known(s, s.lastSent) && s.objects.maxVersion == s.lastSent
    case Relocked(_, _) => Known(s, s.lastSent) && s.objects.maxVersion == s.lastSent
    case Unready(_, _) => Known(s, s.lastSent) && s.objects.maxVersion == s.lastSent
  }

  /** The known keys are those of version v. */
  ghost predicate Known(s: State, v: nat) {
    v < |s.log| && s.keys == s.log[v].Keys
  }

  /** The snapshot handed over is usable and was asked for from the version sent last. */
  ghost predicate Baton(s: State) {
    s.fromVersion == s.lastSent && Usable(s.log, s.objects, s.lastSent)
  }

  /** The topic holds version v. */
  ghost predicate Holds(s: State, topic: Topic, v: nat) {
    v < |s.log| && topic == TopicAt(s.log, v)
  }

  /** What the items computed so far make of the topic, unless it was reset in between. */
  ghost predicate Leads(s: State, epoch: nat, items: seq<Item>, v: nat) {
    epoch == s.epoch ==> Holds(s, Apply(s.topic, items), v)
  }

  ghost predicate TopicInv(s: State) {
    && (s.blank ==> s.topic == map[])
    && (!s.current ==> s.blank)
    && (!s.heart.Idle? ==> s.heart.epoch <= s.epoch && (s.heart.epoch < s.epoch ==> !s.current))
    && (s.heart.Checking? || s.heart.Entered? ==> s.heart.epoch == s.epoch ==> s.heart.full == s.blank)
    && match s.heart
       case Idle => s.current ==> Holds(s, s.topic, s.lastSent)
       case Checking(_, _) => s.current ==> Holds(s, s.topic, s.lastSent)
       case Entered(_, _) => s.current ==> Holds(s, s.topic, s.lastSent)
       case Reviewed(cleared, epoch) =>
         epoch == s.epoch ==> if cleared then s.topic == map[] else Holds(s, s.topic, s.lastSent)
       case Computed(epoch, items, _) => Leads(s, epoch, items, s.objects.maxVersion)
       case Swapped(epoch, items) => Leads(s, epoch, items, s.objects.maxVersion)
       case Versioned(epoch, items) => Leads(s, epoch, items, s.lastSent)
       case Relocked(epoch, items) => Leads(s, epoch, items, s.lastSent)
       case Unready(epoch, items) => Leads(s, epoch, items, s.lastSent)
  }

  ghost predicate Inv(s: State) {
    History(s.log) && s.lastSent < |s.log| && LockInv(s) && GatherInv(s) && HeartInv(s) && TopicInv(s)
  }

  lemma InitInv(s: State)
    requires Init(s)
    ensures Inv(s)
  {
  }

  // ----- every step keeps it -----

  lemma GatheredLater(log: seq<Catalog>, log': seq<Catalog>, from: nat, o: Snapshot)
    requires |log| <= |log'| && log'[..|log|] == log && Gathered(log, from, o)
    ensures Gathered(log', from, o)
  {
    assert log'[o.maxVersion] == log[o.maxVersion];
  }

  lemma GenuineLater(log: seq<Catalog>, log': seq<Catalog>, o: Snapshot)
    requires |log| <= |log'| && log'[..|log|] == log && Genuine(log, o)
    ensures Genuine(log', o)
  {
    var from :| Gathered(log, from, o);
    GatheredLater(log, log', from, o);
  }

  lemma UsableLater(log: seq<Catalog>, log': seq<Catalog>, o: Snapshot, lastSent: nat)
    requires |log| <= |log'| && log'[..|log|] == log && Usable(log, o, lastSent)
    ensures Usable(log', o, lastSent)
  {
    if Gathered(log, lastSent, o) {
      GatheredLater(log, log', lastSent, o);
    } else {
      GenuineLater(log, log', o);
    }
  }

  lemma HistoryLater(log: seq<Catalog>, log': seq<Catalog>)
    requires History(log) && |log'| == |log| + 1 && log'[..|log|] == log && Evolves(log[|log| - 1], log'[|log|], |log|)
    ensures History(log')
    ensures forall v :: 0 <= v < |log| ==> log'[v] == log[v]
    ensures forall v :: 0 <= v < |log| ==> TopicAt(log', v) == TopicAt(log, v)
  {
    assert forall v :: 0 <= v < |log| ==> log'[v] == log'[..|log|][v];
  }

  lemma MutateInv(s: State, s': State)
    requires Inv(s) && Mutate(s, s')
    ensures Inv(s')
  {
    HistoryLater(s.log, s'.log);
    if s.loaded {
      GenuineLater(s.log, s'.log, s.objects);
    }
    if s.gather.Fetched? && s.gather.response.Ok? {
      GatheredLater(s.log, s'.log, s.lastSent, s.gather.response.snapshot);
    }
    if Usable(s.log, s.objects, s.lastSent) {
      UsableLater(s.log, s'.log, s.objects, s.lastSent);
    }
  }

  lemma ResetInv(s: State, s': State)
    requires Inv(s) && ResetStatestore(s, s')
    ensures Inv(s')
  {
  }

  lemma FetchInv(s: State, s': State)
    requires Inv(s) && (Wake(s, s') || SleepAgain(s, s') || FetchOk(s, s') || FetchFailed(s, s'))
    ensures Inv(s')
  {
  }

  lemma StoreInv(s: State, s': State)
    requires Inv(s) && (Store(s, s') || Mark(s, s') || SetReady(s, s') || Release(s, s'))
    ensures Inv(s')
  {
  }

  lemma GatherStepInv(s: State, s': State)
    requires Inv(s) && GatherStep(s, s')
    ensures Inv(s')
  {
    if Wake(s, s') || SleepAgain(s, s') || FetchOk(s, s') || FetchFailed(s, s') {
      FetchInv(s, s');
    } else {
      StoreInv(s, s');
    }
  }

  lemma ReviewInv(s: State, s': State)
    requires Inv(s) && Review(s, s')
    ensures Inv(s')
  {
    assert Gathered(s.log, 0, EMPTY);
    assert TopicAt(s.log, 0) == map[];
  }

  lemma SomeKey(keys: seq<Key>)
    ensures keys == [] || exists k :: k in keys
  {
    if keys != [] {
      assert keys[0] in keys;
    }
  }

  /** After a reset, there is nothing to tell. */
  lemma NothingToTell(lastSent: nat, items: seq<Item>)
    requires DeltaOf(EMPTY, {}, lastSent, items)
    ensures items == []
  {
    var gone: seq<Key> :| Enumerates(gone, {} - KeysOf(EMPTY.objects)) &&
                            items == Updates(EMPTY.objects, lastSent) + Deletes(gone);
    SomeKey(gone);
  }

  lemma ComputeInv(s: State, s': State)
    requires Inv(s) && Compute(s, s')
    ensures Inv(s')
  {
    var items := s'.heart.items;
    if s.heart.cleared {
      NothingToTell(s.lastSent, items);
      assert TopicAt(s.log, 0) == map[];
    } else if Gathered(s.log, s.lastSent, s.objects) {
      DeltaCatchesUp(s.log, s.lastSent, s.objects, s.lastSent, items);
    } else {
      var from :| Gathered(s.log, from, s.objects);
      DeltaCatchesUp(s.log, from, s.objects, s.lastSent, items);
    }
  }

  lemma EnterInv(s: State, s': State)
    requires Inv(s) && (TryLock(s, s') || Check(s, s'))
    ensures Inv(s')
  {
  }

  lemma FinishInv(s: State, s': State)
    requires Inv(s) && (Swap(s, s') || Advance(s, s') || Relock(s, s') || ClearReady(s, s') || Return(s, s'))
    ensures Inv(s')
  {
  }

  lemma HeartStepInv(s: State, s': State)
    requires Inv(s) && HeartStep(s, s')
    ensures Inv(s')
  {
    if TryLock(s, s') || Check(s, s') {
      EnterInv(s, s');
    } else if Review(s, s') {
      ReviewInv(s, s');
    } else if Compute(s, s') {
      ComputeInv(s, s');
    } else {
      FinishInv(s, s');
    }
  }

  lemma StepInv(s: State, s': State)
    requires Inv(s) && Step(s, s')
    ensures Inv(s')
  {
    if Mutate(s, s') {
      MutateInv(s, s');
    } else if ResetStatestore(s, s') {
      ResetInv(s, s');
    } else if GatherStep(s, s') {
      GatherStepInv(s, s');
    } else {
      HeartStepInv(s, s');
    }
  }

  // ----- what holds in every run -----

  ghost predicate Run(states: seq<State>) {
    && states != [] && Init(states[0])
    && forall i :: 0 < i < |states| ==> Step(states[i - 1], states[i])
  }

  lemma {:induction false} RunInv(states: seq<State>, i: nat)
    requires Run(states) && i < |states|
    ensures Inv(states[i])
  {
    if i == 0 {
      InitInv(states[0]);
    } else {
      RunInv(states, i - 1);
      StepInv(states[i - 1], states[i]);
    }
  }

  /** Between heartbeats, a topic to which one has returned since its last reset holds exactly the
      known keys, each with its value as of the version sent last. */
  lemma TopicIsCatalog(states: seq<State>, i: nat)
    requires Run(states) && i < |states| && states[i].heart.Idle? && states[i].current
    ensures var s := states[i];
            s.lastSent < |s.log| && s.topic == TopicAt(s.log, s.lastSent) && s.topic.Keys == s.keys
  {
    RunInv(states, i);
  }

  /** The unlocked section of a heartbeat never overlaps a write to the gathered objects. */
  lemma NoOverlap(states: seq<State>, i: nat)
    requires Run(states) && i < |states|
    ensures !(InSection(states[i].heart) && Writing(states[i].gather))
    ensures InSection(states[i].heart) && i + 1 < |states| && GatherStep(states[i], states[i + 1]) ==>
              states[i + 1].objects == states[i].objects && states[i + 1].lastSent == states[i].lastSent
  {
    RunInv(states, i);
  }

  /** A heartbeat that enters its section uses a snapshot gathered from the version sent last, or, if
      that gather failed, the snapshot it has sent last. */
  lemma SnapshotIsCurrent(states: seq<State>, i: nat)
    requires Run(states) && i < |states| && states[i].heart.Entered?
    ensures var s := states[i];
            && s.fromVersion == s.lastSent
            && (Gathered(s.log, s.lastSent, s.objects) ||
                (s.objects.maxVersion == s.lastSent && Genuine(s.log, s.objects)))
  {
    RunInv(states, i);
  }

  /** Without interference, the steps of a heartbeat are one call of UpdateCatalogTopicCallback. */
  lemma HeartbeatIsCallback(s: seq<State>)
    requires |s| == 10 && s[0].ready
    requires TryLock(s[0], s[1]) && Check(s[1], s[2]) && Review(s[2], s[3]) && Compute(s[3], s[4]) && Swap(s[4], s[5])
    requires Advance(s[5], s[6]) && Relock(s[6], s[7]) && ClearReady(s[7], s[8]) && Return(s[8], s[9])
    ensures var before, after := s[0], s[9];
            var clear := before.blank && before.fromVersion != 0;
            && after.objects == (if clear then EMPTY else before.objects)
            && DeltaOf(after.objects, if clear then {} else before.keys, before.lastSent, s[8].heart.items)
            && after.topic == Apply(before.topic, s[8].heart.items)
            && after.keys == KeysOf(after.objects.objects) && after.lastSent == after.objects.maxVersion
            && !after.ready && after.fromVersion == before.fromVersion && after.heart.Idle? && after.lock == Free
  {
    assert s[3].heart.Reviewed? && s[4].heart.Computed?;
    assert s[8].heart.items == s[4].heart.items;
  }

  /** Without interference, the steps of the gathering thread are one call of Gather. */
  lemma GatherStepsAreGather(s: seq<State>)
    requires |s| == 7 && !s[0].ready && Wake(s[0], s[1]) && (FetchOk(s[1], s[2]) || FetchFailed(s[1], s[2]))
    requires Store(s[2], s[3]) && Mark(s[3], s[4]) && SetReady(s[4], s[5]) && Release(s[5], s[6])
    ensures var response := s[2].gather.response;
            s[6] == s[0].(loaded := s[0].loaded || response.Ok?, objects := Kept(response, s[0].objects),
                          fromVersion := s[0].lastSent, ready := true)
  {
  }

  /** And if the objects are ready, it goes back to sleep and nothing has changed. */
  lemma ReadyStepsAreGather(s: seq<State>)
    requires |s| == 3 && s[0].ready && Wake(s[0], s[1])
    ensures (SleepAgain(s[1], s[2]) ==> s[2] == s[0]) && !FetchOk(s[1], s[2]) && !FetchFailed(s[1], s[2])
  {
  }
}
