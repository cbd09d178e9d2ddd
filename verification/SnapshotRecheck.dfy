/** The bridge's recheck of a qualification: the snapshot of the five input histories at the
    qualification's own cutoff, built again after later publications
    (`_resolve` in `polygon_completed_daily_production_bridge.py`). */
module SnapshotRecheck {
  import opened Basics
  import opened PublicationHistory
  import opened AsOfHistory
  import opened RetainedMaterial

  /** One attempt in one of the five histories. */
  datatype Event =
    | Construct(attempt: Attempt<Content>) | Validate(attempt: Attempt<Content>) | Refresh(attempt: Attempt<Content>)
    | Admit(attempt: Attempt<Content>) | Activate(attempt: Attempt<Content>)

  function StoreOf(s: Stores, e: Event): Store {
    match e
    case Construct(_) => s.constructions
    case Validate(_) => s.validations
    case Refresh(_) => s.freshness
    case Admit(_) => s.admissions
    case Activate(_) => s.validity
  }

  predicate StoreAuthentic(e: Event, store: Store) {
    match e
    case Construct(_) => ConstructionsAuthentic(store)
    case Activate(_) => EventsAuthentic(store)
    case _ => RecordsAuthentic(store)
  }

  /** Every owner validates its own history before it publishes. */
  predicate Appends(s: Stores, e: Event) {
    var store := StoreOf(s, e);
    StoreAuthentic(e, store) && Publishes(Retaining, store.namespace, store.state, e.attempt)
  }

  function Put(store: Store, a: Attempt<Content>): Store {
    store.(state := After(Retaining, store.namespace, store.state, a))
  }

  function Do(s: Stores, e: Event): Stores {
    if !Appends(s, e) then s
    else match e
      case Construct(a) => s.(constructions := Put(s.constructions, a))
      case Validate(a) => s.(validations := Put(s.validations, a))
      case Refresh(a) => s.(freshness := Put(s.freshness, a))
      case Admit(a) => s.(admissions := Put(s.admissions, a))
      case Activate(a) => s.(validity := Put(s.validity, a))
  }

  function DoAll(s: Stores, run: seq<Event>): Stores
    decreases |run|
  {
    if run == [] then s else DoAll(Do(s, run[0]), run[1..])
  }

  // ---- What a publication changes ----

  /** The publication that the attempt would make concerns this version and is stamped at or
      before the cutoff: a caller can tell beforehand. */
  predicate Disturbs(s: Stores, e: Event, artifact: Artifact, cutoff: Instant) {
    Appends(s, e) && SameVersion(e.attempt.content.artifact, artifact) && e.attempt.available.value <= cutoff
  }

  predicate StoreGrows(a: Store, b: Store) {
    a.state.entries <= b.state.entries
  }

  predicate Grows(s: Stores, t: Stores) {
    && StoreGrows(s.constructions, t.constructions) && StoreGrows(s.validations, t.validations)
    && StoreGrows(s.freshness, t.freshness) && StoreGrows(s.admissions, t.admissions) && StoreGrows(s.validity, t.validity)
  }

  predicate NothingAdded(a: Store, b: Store, artifact: Artifact, cutoff: Instant) {
    NoLateArrival(a.state.entries, b.state.entries, OfVersion(artifact), cutoff)
  }

  /** Nothing relevant was added between two moments, stamped by the cutoff. */
  ghost predicate UndisturbedBetween(s: Stores, t: Stores, artifact: Artifact, cutoff: Instant) {
    && NothingAdded(s.constructions, t.constructions, artifact, cutoff)
    && NothingAdded(s.validations, t.validations, artifact, cutoff)
    && NothingAdded(s.freshness, t.freshness, artifact, cutoff)
    && NothingAdded(s.admissions, t.admissions, artifact, cutoff)
    && NothingAdded(s.validity, t.validity, artifact, cutoff)
  }

  lemma {:induction false} StepUndisturbed(s: Stores, e: Event, artifact: Artifact, cutoff: Instant)
    ensures Grows(s, Do(s, e))
    ensures UndisturbedBetween(s, Do(s, e), artifact, cutoff) <==> !Disturbs(s, e, artifact, cutoff)
  {
    var store := StoreOf(s, e);
    AppendedIsLast(Retaining, store.namespace, store.state, e.attempt, OfVersion(artifact), cutoff);
  }

  lemma {:induction false} KnownAgainExactly(a: Store, b: Store, artifact: Artifact, cutoff: Instant)
    requires StoreGrows(a, b)
    ensures RetainedMaterial.Known(b, artifact, cutoff) == RetainedMaterial.Known(a, artifact, cutoff)
       <==> NothingAdded(a, b, artifact, cutoff)
  {
    SameSelectionExactly(a.state.entries, b.state.entries, OfVersion(artifact), cutoff);
  }

  lemma {:induction false} CollectedAgainExactly(s: Stores, t: Stores, artifact: Artifact, cutoff: Instant)
    requires Grows(s, t)
    ensures Collect(t, artifact, cutoff) == Collect(s, artifact, cutoff) <==> UndisturbedBetween(s, t, artifact, cutoff)
  {
    KnownAgainExactly(s.constructions, t.constructions, artifact, cutoff);
    KnownAgainExactly(s.validations, t.validations, artifact, cutoff);
    KnownAgainExactly(s.freshness, t.freshness, artifact, cutoff);
    KnownAgainExactly(s.admissions, t.admissions, artifact, cutoff);
    KnownAgainExactly(s.validity, t.validity, artifact, cutoff);
  }

  /** What a snapshot at a cutoff collects changes exactly with such a publication. */
  lemma {:induction false} SnapshotChangesExactly(s: Stores, e: Event, artifact: Artifact, cutoff: Instant)
    ensures Collect(Do(s, e), artifact, cutoff) == Collect(s, artifact, cutoff) <==> !Disturbs(s, e, artifact, cutoff)
  {
    StepUndisturbed(s, e, artifact, cutoff);
    CollectedAgainExactly(s, Do(s, e), artifact, cutoff);
  }

  // ---- What keeps the histories authentic ----

  predicate NewVersion(entries: seq<Item>, artifact: Artifact) {
    forall i :: 0 <= i < |entries| ==> !SameVersion(entries[i].content.artifact, artifact)
  }

  /** The content is of the kind of its history and repeats nothing that must be unique. */
  predicate FitsIn(e: Event, entries: seq<Item>) {
    match e
    case Construct(a) => a.content.Constructed?
    case Activate(a) => a.content.Supported? && NewVersion(entries, a.content.artifact)
    case _ => e.attempt.content.Supported? && NewRecord(entries, RecordId, RecordOf, e.attempt.content)
  }

  /** Whatever the event appends has a new execution id and fits: a caller can tell
      beforehand. */
  predicate KeepsAuthentic(s: Stores, e: Event) {
    Appends(s, e) ==> NewId(StoreOf(s, e).state, e.attempt.executionId) && FitsIn(e, StoreOf(s, e).state.entries)
  }

  lemma {:induction false} StoreStaysAuthenticExactly(e: Event, store: Store)
    requires StoreAuthentic(e, store) && Publishes(Retaining, store.namespace, store.state, e.attempt)
    ensures StoreAuthentic(e, Put(store, e.attempt))
       <==> NewId(store.state, e.attempt.executionId) && FitsIn(e, store.state.entries)
  {
    var n, after := |store.state.entries|, Put(store, e.attempt).state.entries;
    assert after[n].content == e.attempt.content && after[..n] == store.state.entries;
    AppendKeepsIds(store.namespace, store.state, e.attempt);
    match e
    case Construct(_) =>
    case Activate(a) => OneMoreEvent(store.state.entries, after[n]);
    case _ => AppendKeepsRecords(store.namespace, store.state, e.attempt, RecordId, RecordOf);
  }

  lemma {:induction false} OneMoreEvent(entries: seq<Item>, item: Item)
    requires OneEventPerVersion(entries)
    ensures OneEventPerVersion(entries + [item]) <==> NewVersion(entries, item.content.artifact)
  {
    var all := entries + [item];
    assert all[|entries|] == item;
    if OneEventPerVersion(all) {
      forall i | 0 <= i < |entries| ensures !SameVersion(entries[i].content.artifact, item.content.artifact) {
        assert all[i] == entries[i] && !OfVersion(all[i].content.artifact)(all[|entries|]);
      }
    }
  }

  /** One event keeps the five histories authentic exactly then; what once fails to
      authenticate stays as it is. */
  lemma {:induction false} StepAuthenticExactly(s: Stores, e: Event)
    ensures Authentic(s) ==> (Authentic(Do(s, e)) <==> KeepsAuthentic(s, e))
    ensures !Authentic(s) ==> !Authentic(Do(s, e))
  {
    if Appends(s, e) { StoreStaysAuthenticExactly(e, StoreOf(s, e)); }
  }

  lemma {:induction false} UnauthenticStays(s: Stores, run: seq<Event>)
    requires !Authentic(s)
    ensures !Authentic(DoAll(s, run))
    decreases |run|
  {
    if run != [] {
      StepAuthenticExactly(s, run[0]);
      UnauthenticStays(Do(s, run[0]), run[1..]);
    }
  }

  // ---- The recheck over whole runs ----

  /** What a qualification recorded of its inputs. */
  datatype Qualified = Qualified(target: Item, task: Item, history: Snapshot)

  /** The bridge's checks: the same snapshot at the recorded cutoff, holding the qualified
      construction and the task freshness. */
  predicate BridgeAccepts(s: Stores, artifact: Artifact, q: Qualified) {
    && SnapshotAt(s, artifact, q.history.knowledge) == Some(q.history)
    && q.target in q.history.constructions && q.task in q.history.freshness
  }

  predicate KeptThroughout(s: Stores, run: seq<Event>, artifact: Artifact, cutoff: Instant)
    decreases |run|
  {
    run == [] ||
    (!Disturbs(s, run[0], artifact, cutoff) && KeepsAuthentic(s, run[0]) && KeptThroughout(Do(s, run[0]), run[1..], artifact, cutoff))
  }

  lemma {:induction false} RunGrows(s: Stores, run: seq<Event>, artifact: Artifact, cutoff: Instant)
    ensures Grows(s, DoAll(s, run))
    decreases |run|
  {
    if run != [] {
      StepUndisturbed(s, run[0], artifact, cutoff);
      RunGrows(Do(s, run[0]), run[1..], artifact, cutoff);
    }
  }

  lemma {:induction false} AcceptsLaterExactly(s: Stores, t: Stores, artifact: Artifact, q: Qualified)
    requires BridgeAccepts(s, artifact, q) && Grows(s, t)
    ensures BridgeAccepts(t, artifact, q) <==> Authentic(t) && UndisturbedBetween(s, t, artifact, q.history.knowledge)
  {
    CollectedAgainExactly(s, t, artifact, q.history.knowledge);
  }

  lemma {:induction false} UndisturbedEarlier(s: Stores, t: Stores, u: Stores, artifact: Artifact, cutoff: Instant)
    requires Grows(s, t) && Grows(t, u) && UndisturbedBetween(s, u, artifact, cutoff)
    ensures UndisturbedBetween(s, t, artifact, cutoff)
  {
  }

  lemma {:induction false} GrowsFurther(s: Stores, t: Stores, u: Stores)
    requires Grows(s, t) && Grows(t, u)
    ensures Grows(s, u)
  {
  }

  /** What the bridge refuses once it refuses for good. */
  lemma {:induction false} RefusedStaysRefused(s: Stores, t: Stores, run: seq<Event>, artifact: Artifact, q: Qualified)
    requires BridgeAccepts(s, artifact, q) && Grows(s, t) && !BridgeAccepts(t, artifact, q)
    ensures !BridgeAccepts(DoAll(t, run), artifact, q)
  {
    var u, cutoff := DoAll(t, run), q.history.knowledge;
    RunGrows(t, run, artifact, cutoff);
    GrowsFurther(s, t, u);
    AcceptsLaterExactly(s, t, artifact, q);
    AcceptsLaterExactly(s, u, artifact, q);
    if Authentic(t) {
      if UndisturbedBetween(s, u, artifact, cutoff) { UndisturbedEarlier(s, t, u, artifact, cutoff); }
    } else {
      UnauthenticStays(t, run);
    }
  }

  /** After any publications in any order, whatever the clocks and the ids, the bridge still
      accepts a qualification exactly when each of them left its snapshot alone and kept
      the histories authentic. */
  lemma {:induction false} BridgeAcceptsExactly(s: Stores, run: seq<Event>, artifact: Artifact, q: Qualified)
    requires BridgeAccepts(s, artifact, q)
    ensures BridgeAccepts(DoAll(s, run), artifact, q) <==> KeptThroughout(s, run, artifact, q.history.knowledge)
    decreases |run|
  {
    if run != [] {
      var t := Do(s, run[0]);
      StepUndisturbed(s, run[0], artifact, q.history.knowledge);
      StepAuthenticExactly(s, run[0]);
      AcceptsLaterExactly(s, t, artifact, q);
      if BridgeAccepts(t, artifact, q) {
        BridgeAcceptsExactly(t, run[1..], artifact, q);
      } else {
        RefusedStaysRefused(s, t, run[1..], artifact, q);
      }
    }
  }

  /** Every later availability sample lies after the cutoff. */
  predicate SampledAfter(run: seq<Event>, cutoff: Instant) {
    forall i :: 0 <= i < |run| && run[i].attempt.available.Some? ==> cutoff < run[i].attempt.available.value
  }

  predicate KeepsAuthenticThroughout(s: Stores, run: seq<Event>)
    decreases |run|
  {
    run == [] || (KeepsAuthentic(s, run[0]) && KeepsAuthenticThroughout(Do(s, run[0]), run[1..]))
  }

  lemma {:induction false} LaterSamplesDisturbNothing(s: Stores, run: seq<Event>, artifact: Artifact, cutoff: Instant)
    requires SampledAfter(run, cutoff)
    ensures KeptThroughout(s, run, artifact, cutoff) <==> KeepsAuthenticThroughout(s, run)
    decreases |run|
  {
    if run != [] {
      assert forall i :: 0 <= i < |run[1..]| ==> run[1..][i] == run[i + 1];
      LaterSamplesDisturbNothing(Do(s, run[0]), run[1..], artifact, cutoff);
    }
  }

  /** A qualification resolved its material by its cutoff, with a task freshness known then.
      After any publications sampled later than that the bridge finds the same snapshot,
      the construction and the task freshness again, exactly when no publication repeated
      an id, a record identity or an activated version. */
  lemma {:induction false} BridgeFindsSnapshotAgain(s: Stores, request: Request, now: Instant, task: Item, run: seq<Event>)
    requires Resolution(s, request, now).Material? && SampledAfter(run, CutoffOf(request, now))
    requires task in SnapshotAt(s, request.artifact, CutoffOf(request, now)).value.freshness
    ensures var q := Qualified(Resolution(s, request, now).item, task, SnapshotAt(s, request.artifact, CutoffOf(request, now)).value);
      BridgeAccepts(DoAll(s, run), request.artifact, q) <==> KeepsAuthenticThroughout(s, run)
  {
    var cutoff := CutoffOf(request, now);
    var history := SnapshotAt(s, request.artifact, cutoff).value;
    var q := Qualified(Resolution(s, request, now).item, task, history);
    NamedAreListed(history.constructions, request.executionId);
    BridgeAcceptsExactly(s, run, request.artifact, q);
    LaterSamplesDisturbNothing(s, run, request.artifact, cutoff);
  }

  lemma {:induction false} NamedAreListed(items: seq<Item>, executionId: string)
    ensures forall i :: 0 <= i < |Named(items, executionId)| ==> Named(items, executionId)[i] in items
  {
    if items != [] { NamedAreListed(items[..|items| - 1], executionId); }
  }

  /** A relevant publication stamped at or before the very cutoff makes the recorded snapshot
      unreachable for good. */
  lemma {:induction false} StampAtCutoffIsNoticed(s: Stores, e: Event, later: seq<Event>, artifact: Artifact, q: Qualified)
    requires BridgeAccepts(s, artifact, q) && Disturbs(s, e, artifact, q.history.knowledge)
    ensures !BridgeAccepts(DoAll(s, [e] + later), artifact, q)
  {
    BridgeAcceptsExactly(s, [e] + later, artifact, q);
  }
}
