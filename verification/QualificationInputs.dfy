/** What a snapshot of the five input histories holds, when material is resolved from it and
    when the bridge accepts it again, in terms of the retained entries alone. */
module QualificationInputs {
  import opened Basics
  import opened PublicationHistory
  import opened AsOfHistory
  import R = RetainedMaterial
  import C = SnapshotRecheck

  type Item = R.Item
  type Content = R.Content

  // ---- Known entries ----

  /** An entry of the artifact's version, available by the cutoff. */
  predicate IsKnown(item: Item, artifact: Artifact, cutoff: Instant) {
    item.content.artifact.id == artifact.id && item.content.artifact.version == artifact.version && item.available <= cutoff
  }

  predicate Knows(store: R.Store, artifact: Artifact, cutoff: Instant, item: Item) {
    IsKnown(item, artifact, cutoff) && exists i :: 0 <= i < |store.state.entries| && store.state.entries[i] == item
  }

  /** The known entries of a store, in order. */
  function KnownOf(store: R.Store, artifact: Artifact, cutoff: Instant): seq<Item> {
    Select(store.state.entries,
      (e: Item) => e.content.artifact.id == artifact.id && e.content.artifact.version == artifact.version, Some(cutoff))
  }

  lemma {:induction false} KnownExactly(store: R.Store, artifact: Artifact, cutoff: Instant)
    ensures R.Known(store, artifact, cutoff) == KnownOf(store, artifact, cutoff)
    ensures forall item :: item in KnownOf(store, artifact, cutoff) <==> Knows(store, artifact, cutoff, item)
  {
    var ofVersion := (e: Item) => e.content.artifact.id == artifact.id && e.content.artifact.version == artifact.version;
    SameRelevance(store.state.entries, R.OfVersion(artifact), ofVersion, Some(cutoff));
    SelectHolds(store.state.entries, ofVersion, Some(cutoff));
    forall item ensures item in KnownOf(store, artifact, cutoff) <==> Knows(store, artifact, cutoff, item) {
      if item in KnownOf(store, artifact, cutoff) {
        var i :| 0 <= i < |KnownOf(store, artifact, cutoff)| && KnownOf(store, artifact, cutoff)[i] == item;
      }
    }
  }

  // ---- Histories in order ----

  predicate AllConstructed(store: R.Store) {
    forall i :: 0 <= i < |store.state.entries| ==> store.state.entries[i].content.Constructed?
  }

  predicate AllResults(store: R.Store) {
    forall i :: 0 <= i < |store.state.entries| ==> store.state.entries[i].content.Supported?
  }

  /** No record identity stands for two records. */
  predicate OneRecordPerId(store: R.Store)
    requires AllResults(store)
  {
    forall i, j :: 0 <= i < |store.state.entries| && 0 <= j < |store.state.entries|
      && store.state.entries[i].content.record.id == store.state.entries[j].content.record.id
      ==> store.state.entries[i].content.record == store.state.entries[j].content.record
  }

  predicate OneEventPerVersion(store: R.Store) {
    forall i, j :: 0 <= i < j < |store.state.entries| ==>
      !(store.state.entries[i].content.artifact.id == store.state.entries[j].content.artifact.id
        && store.state.entries[i].content.artifact.version == store.state.entries[j].content.artifact.version)
  }

  predicate ResultsInOrder(store: R.Store) {
    Sound(store.namespace, store.state) && AllResults(store) && OneRecordPerId(store)
  }

  predicate EventsInOrder(store: R.Store) {
    Sound(store.namespace, store.state) && AllResults(store) && OneEventPerVersion(store)
  }

  predicate InOrder(s: R.Stores) {
    && Sound(s.constructions.namespace, s.constructions.state) && AllConstructed(s.constructions)
    && ResultsInOrder(s.validations) && ResultsInOrder(s.freshness) && ResultsInOrder(s.admissions)
    && EventsInOrder(s.validity)
  }

  lemma {:induction false} ResultsExactly(store: R.Store)
    ensures R.RecordsAuthentic(store) <==> ResultsInOrder(store)
  {
    var e := store.state.entries;
    if R.RecordsAuthentic(store) {
      forall i, j | 0 <= i < |e| && 0 <= j < |e| && e[i].content.record.id == e[j].content.record.id
        ensures e[i].content.record == e[j].content.record
      {
        var low, high := if i < j then i else j, if i < j then j else i;
        assert low < high ==> R.RecordId(e[low].content) == R.RecordId(e[high].content);
      }
    }
  }

  lemma {:induction false} EventsExactly(store: R.Store)
    ensures R.EventsAuthentic(store) <==> EventsInOrder(store)
  {
    var e := store.state.entries;
    forall i, j | 0 <= i < j < |e|
      ensures R.OfVersion(e[i].content.artifact)(e[j])
        <==> e[i].content.artifact.id == e[j].content.artifact.id && e[i].content.artifact.version == e[j].content.artifact.version
    {
    }
    if R.OneEventPerVersion(e) {
      forall i, j | 0 <= i < j < |e|
        ensures !(e[i].content.artifact.id == e[j].content.artifact.id && e[i].content.artifact.version == e[j].content.artifact.version)
      {
        assert !R.OfVersion(e[i].content.artifact)(e[j]);
      }
    }
  }

  lemma {:induction false} AuthenticExactly(s: R.Stores)
    ensures R.Authentic(s) <==> InOrder(s)
  {
    ResultsExactly(s.validations);
    ResultsExactly(s.freshness);
    ResultsExactly(s.admissions);
    EventsExactly(s.validity);
  }

  // ---- The snapshot ----

  predicate AllKnown(store: R.Store, artifact: Artifact, cutoff: Instant, items: seq<Item>) {
    forall i :: 0 <= i < |items| ==> Knows(store, artifact, cutoff, items[i])
  }

  /** A known result is of this very artifact and of a known construction. */
  predicate ResultsGrounded(s: R.Stores, store: R.Store, artifact: Artifact, cutoff: Instant) {
    forall i :: 0 <= i < |store.state.entries| && IsKnown(store.state.entries[i], artifact, cutoff) ==>
      && store.state.entries[i].content.Supported? && store.state.entries[i].content.artifact == artifact
      && Knows(s.constructions, artifact, cutoff, store.state.entries[i].content.construction)
  }

  /** Whatever is known at the cutoff rests on what is known then. */
  predicate Grounded(s: R.Stores, artifact: Artifact, cutoff: Instant) {
    && (forall i :: 0 <= i < |s.constructions.state.entries| && IsKnown(s.constructions.state.entries[i], artifact, cutoff) ==>
          && s.constructions.state.entries[i].content.artifact == artifact
          && s.constructions.state.entries[i].content.Constructed? && s.constructions.state.entries[i].content.approvedProfile)
    && ResultsGrounded(s, s.validations, artifact, cutoff) && ResultsGrounded(s, s.freshness, artifact, cutoff)
    && ResultsGrounded(s, s.admissions, artifact, cutoff)
    && (forall i :: 0 <= i < |s.admissions.state.entries| && IsKnown(s.admissions.state.entries[i], artifact, cutoff) ==>
          && AllKnown(s.validations, artifact, cutoff, s.admissions.state.entries[i].content.validations)
          && AllKnown(s.freshness, artifact, cutoff, s.admissions.state.entries[i].content.freshness))
    && (forall i :: 0 <= i < |s.validity.state.entries| && IsKnown(s.validity.state.entries[i], artifact, cutoff) ==>
          s.validity.state.entries[i].content.Supported?
          && AllKnown(s.admissions, artifact, cutoff, s.validity.state.entries[i].content.admissions))
  }

  lemma {:induction false} ListedIsRetained(store: R.Store, artifact: Artifact, cutoff: Instant, k: nat) returns (i: nat)
    requires k < |KnownOf(store, artifact, cutoff)|
    ensures i < |store.state.entries| && store.state.entries[i] == KnownOf(store, artifact, cutoff)[k]
    ensures IsKnown(store.state.entries[i], artifact, cutoff)
  {
    KnownExactly(store, artifact, cutoff);
    var item := KnownOf(store, artifact, cutoff)[k];
    assert item in KnownOf(store, artifact, cutoff);
    i :| 0 <= i < |store.state.entries| && store.state.entries[i] == item;
  }

  lemma {:induction false} RetainedIsListed(store: R.Store, artifact: Artifact, cutoff: Instant, i: nat) returns (k: nat)
    requires i < |store.state.entries| && IsKnown(store.state.entries[i], artifact, cutoff)
    ensures k < |KnownOf(store, artifact, cutoff)| && KnownOf(store, artifact, cutoff)[k] == store.state.entries[i]
  {
    KnownExactly(store, artifact, cutoff);
    assert store.state.entries[i] in KnownOf(store, artifact, cutoff);
    k :| 0 <= k < |KnownOf(store, artifact, cutoff)| && KnownOf(store, artifact, cutoff)[k] == store.state.entries[i];
  }

  lemma {:induction false} AllInExactly(store: R.Store, artifact: Artifact, cutoff: Instant, items: seq<Item>)
    ensures R.AllIn(items, KnownOf(store, artifact, cutoff)) <==> AllKnown(store, artifact, cutoff, items)
  {
    KnownExactly(store, artifact, cutoff);
  }

  /** The six parts of closure, each over the entries of one store. */
  lemma {:induction false} ConstructionsClosed(s: R.Stores, artifact: Artifact, cutoff: Instant)
    ensures var known := KnownOf(s.constructions, artifact, cutoff); var e := s.constructions.state.entries;
      (forall k :: 0 <= k < |known| ==>
         known[k].content.artifact == artifact && known[k].content.Constructed? && known[k].content.approvedProfile)
      <==> forall i :: 0 <= i < |e| && IsKnown(e[i], artifact, cutoff) ==>
             && e[i].content.artifact == artifact && e[i].content.Constructed? && e[i].content.approvedProfile
  {
    var known, e := KnownOf(s.constructions, artifact, cutoff), s.constructions.state.entries;
    if forall k :: 0 <= k < |known| ==>
      known[k].content.artifact == artifact && known[k].content.Constructed? && known[k].content.approvedProfile
    {
      forall i | 0 <= i < |e| && IsKnown(e[i], artifact, cutoff)
        ensures e[i].content.artifact == artifact && e[i].content.Constructed? && e[i].content.approvedProfile
      {
        var k := RetainedIsListed(s.constructions, artifact, cutoff, i);
      }
    } else {
      var k :| 0 <= k < |known|
        && !(known[k].content.artifact == artifact && known[k].content.Constructed? && known[k].content.approvedProfile);
      var i := ListedIsRetained(s.constructions, artifact, cutoff, k);
    }
  }

  lemma {:induction false} ResultsClosed(s: R.Stores, store: R.Store, artifact: Artifact, cutoff: Instant)
    ensures var known := KnownOf(store, artifact, cutoff);
      (forall k :: 0 <= k < |known| ==> R.Grounded(known[k], artifact, KnownOf(s.constructions, artifact, cutoff)))
      <==> ResultsGrounded(s, store, artifact, cutoff)
  {
    var known, constructions := KnownOf(store, artifact, cutoff), KnownOf(s.constructions, artifact, cutoff);
    KnownExactly(s.constructions, artifact, cutoff);
    if forall k :: 0 <= k < |known| ==> R.Grounded(known[k], artifact, constructions) {
      forall i | 0 <= i < |store.state.entries| && IsKnown(store.state.entries[i], artifact, cutoff)
        ensures store.state.entries[i].content.Supported? && store.state.entries[i].content.artifact == artifact
        ensures Knows(s.constructions, artifact, cutoff, store.state.entries[i].content.construction)
      {
        var k := RetainedIsListed(store, artifact, cutoff, i);
        assert R.Grounded(known[k], artifact, constructions);
      }
    } else {
      var k :| 0 <= k < |known| && !R.Grounded(known[k], artifact, constructions);
      var i := ListedIsRetained(store, artifact, cutoff, k);
    }
  }

  predicate AdmissionEmbeds(s: R.Stores, artifact: Artifact, cutoff: Instant, item: Item)
    requires item.content.Supported?
  {
    && AllKnown(s.validations, artifact, cutoff, item.content.validations)
    && AllKnown(s.freshness, artifact, cutoff, item.content.freshness)
  }

  lemma {:induction false} AdmissionsClosed(s: R.Stores, artifact: Artifact, cutoff: Instant)
    requires ResultsGrounded(s, s.admissions, artifact, cutoff)
    ensures var known := KnownOf(s.admissions, artifact, cutoff); var e := s.admissions.state.entries;
      (forall k :: 0 <= k < |known| ==>
         && R.Grounded(known[k], artifact, KnownOf(s.constructions, artifact, cutoff))
         && R.AllIn(known[k].content.validations, KnownOf(s.validations, artifact, cutoff))
         && R.AllIn(known[k].content.freshness, KnownOf(s.freshness, artifact, cutoff)))
      <==> forall i :: 0 <= i < |e| && IsKnown(e[i], artifact, cutoff) ==> AdmissionEmbeds(s, artifact, cutoff, e[i])
  {
    var known, e := KnownOf(s.admissions, artifact, cutoff), s.admissions.state.entries;
    ResultsClosed(s, s.admissions, artifact, cutoff);
    forall k | 0 <= k < |known|
      ensures R.Grounded(known[k], artifact, KnownOf(s.constructions, artifact, cutoff))
      ensures R.AllIn(known[k].content.validations, KnownOf(s.validations, artifact, cutoff))
          && R.AllIn(known[k].content.freshness, KnownOf(s.freshness, artifact, cutoff))
        <==> AdmissionEmbeds(s, artifact, cutoff, known[k])
    {
      assert R.Grounded(known[k], artifact, KnownOf(s.constructions, artifact, cutoff));
      AllInExactly(s.validations, artifact, cutoff, known[k].content.validations);
      AllInExactly(s.freshness, artifact, cutoff, known[k].content.freshness);
    }
    if forall k :: 0 <= k < |known| ==> AdmissionEmbeds(s, artifact, cutoff, known[k]) {
      forall i | 0 <= i < |e| && IsKnown(e[i], artifact, cutoff) ensures AdmissionEmbeds(s, artifact, cutoff, e[i]) {
        var k := RetainedIsListed(s.admissions, artifact, cutoff, i);
      }
    } else {
      var k :| 0 <= k < |known| && !AdmissionEmbeds(s, artifact, cutoff, known[k]);
      var i := ListedIsRetained(s.admissions, artifact, cutoff, k);
    }
  }

  predicate EventEmbeds(s: R.Stores, artifact: Artifact, cutoff: Instant, item: Item) {
    item.content.Supported? && AllKnown(s.admissions, artifact, cutoff, item.content.admissions)
  }

  lemma {:induction false} EventsClosed(s: R.Stores, artifact: Artifact, cutoff: Instant)
    ensures var known := KnownOf(s.validity, artifact, cutoff); var e := s.validity.state.entries;
      (forall k :: 0 <= k < |known| ==>
         known[k].content.Supported? && R.AllIn(known[k].content.admissions, KnownOf(s.admissions, artifact, cutoff)))
      <==> forall i :: 0 <= i < |e| && IsKnown(e[i], artifact, cutoff) ==> EventEmbeds(s, artifact, cutoff, e[i])
  {
    var known, e := KnownOf(s.validity, artifact, cutoff), s.validity.state.entries;
    forall k | 0 <= k < |known| && known[k].content.Supported?
      ensures R.AllIn(known[k].content.admissions, KnownOf(s.admissions, artifact, cutoff))
        <==> EventEmbeds(s, artifact, cutoff, known[k])
    {
      AllInExactly(s.admissions, artifact, cutoff, known[k].content.admissions);
    }
    if forall k :: 0 <= k < |known| ==> EventEmbeds(s, artifact, cutoff, known[k]) {
      forall i | 0 <= i < |e| && IsKnown(e[i], artifact, cutoff) ensures EventEmbeds(s, artifact, cutoff, e[i]) {
        var k := RetainedIsListed(s.validity, artifact, cutoff, i);
      }
    } else {
      var k :| 0 <= k < |known| && !EventEmbeds(s, artifact, cutoff, known[k]);
      var i := ListedIsRetained(s.validity, artifact, cutoff, k);
    }
  }

  function Listed(s: R.Stores, artifact: Artifact, cutoff: Instant): R.Snapshot {
    R.Snapshot(KnownOf(s.constructions, artifact, cutoff), KnownOf(s.validations, artifact, cutoff),
      KnownOf(s.freshness, artifact, cutoff), KnownOf(s.admissions, artifact, cutoff), KnownOf(s.validity, artifact, cutoff), cutoff)
  }

  lemma {:induction false} CollectsExactly(s: R.Stores, artifact: Artifact, cutoff: Instant)
    ensures R.Collect(s, artifact, cutoff) == Listed(s, artifact, cutoff)
  {
    KnownExactly(s.constructions, artifact, cutoff);
    KnownExactly(s.validations, artifact, cutoff);
    KnownExactly(s.freshness, artifact, cutoff);
    KnownExactly(s.admissions, artifact, cutoff);
    KnownExactly(s.validity, artifact, cutoff);
  }

  lemma {:induction false} ClosedExactly(s: R.Stores, artifact: Artifact, cutoff: Instant)
    ensures R.Closed(Listed(s, artifact, cutoff), artifact) <==> Grounded(s, artifact, cutoff)
  {
    ConstructionsClosed(s, artifact, cutoff);
    ResultsClosed(s, s.validations, artifact, cutoff);
    ResultsClosed(s, s.freshness, artifact, cutoff);
    ResultsClosed(s, s.admissions, artifact, cutoff);
    EventsClosed(s, artifact, cutoff);
    if ResultsGrounded(s, s.admissions, artifact, cutoff) { AdmissionsClosed(s, artifact, cutoff); }
  }

  /** A snapshot is taken exactly when the five histories are in order and what is known at
      the cutoff rests on what is known then; it lists what is known, in order. */
  lemma {:induction false} SnapshotExactly(s: R.Stores, artifact: Artifact, cutoff: Instant)
    ensures R.SnapshotAt(s, artifact, cutoff) ==
      if InOrder(s) && Grounded(s, artifact, cutoff) then Some(Listed(s, artifact, cutoff)) else None
  {
    AuthenticExactly(s);
    CollectsExactly(s, artifact, cutoff);
    ClosedExactly(s, artifact, cutoff);
  }

  // ---- Resolving material ----

  /** The cutoff of a request: the one it names, or the present. */
  function CutoffFor(request: R.Request, now: Instant): Instant {
    match request.knowledge
    case Some(instant) => instant
    case None => now
  }

  /** Nothing of the version became available after the cutoff and up to now. */
  predicate NothingNew(store: R.Store, artifact: Artifact, cutoff: Instant, now: Instant) {
    forall i :: 0 <= i < |store.state.entries| && cutoff < store.state.entries[i].available ==>
      !IsKnown(store.state.entries[i], artifact, now)
  }

  predicate NothingNewAnywhere(s: R.Stores, artifact: Artifact, cutoff: Instant, now: Instant) {
    && NothingNew(s.constructions, artifact, cutoff, now) && NothingNew(s.validations, artifact, cutoff, now)
    && NothingNew(s.freshness, artifact, cutoff, now) && NothingNew(s.admissions, artifact, cutoff, now)
    && NothingNew(s.validity, artifact, cutoff, now)
  }

  lemma {:induction false} HiddenExactly(s: R.Stores, artifact: Artifact, cutoff: Instant, now: Instant)
    ensures R.NothingHiddenAnywhere(s, artifact, cutoff, now) <==> NothingNewAnywhere(s, artifact, cutoff, now)
  {
    OneHiddenExactly(s.constructions, artifact, cutoff, now);
    OneHiddenExactly(s.validations, artifact, cutoff, now);
    OneHiddenExactly(s.freshness, artifact, cutoff, now);
    OneHiddenExactly(s.admissions, artifact, cutoff, now);
    OneHiddenExactly(s.validity, artifact, cutoff, now);
  }

  lemma {:induction false} OneHiddenExactly(store: R.Store, artifact: Artifact, cutoff: Instant, now: Instant)
    ensures R.NothingHidden(store, artifact, cutoff, now) <==> NothingNew(store, artifact, cutoff, now)
  {
    var e := store.state.entries;
    forall i | 0 <= i < |e|
      ensures R.OfVersion(artifact)(e[i]) <==> e[i].content.artifact.id == artifact.id && e[i].content.artifact.version == artifact.version
    {
    }
  }

  /** The construction that a request asks for, available by the cutoff. */
  predicate IsRequested(item: Item, request: R.Request, cutoff: Instant) {
    item.executionId == request.executionId && item.content.artifact == request.artifact && item.available <= cutoff
  }

  ghost predicate HoldsRequested(s: R.Stores, request: R.Request, cutoff: Instant) {
    exists i :: 0 <= i < |s.constructions.state.entries| && IsRequested(s.constructions.state.entries[i], request, cutoff)
  }

  lemma {:induction false} ResolvableExactly(s: R.Stores, request: R.Request, now: Instant)
    ensures var cutoff := CutoffFor(request, now);
      R.Resolution(s, request, now).Material? <==>
        && InOrder(s) && Grounded(s, request.artifact, now) && cutoff <= now
        && NothingNewAnywhere(s, request.artifact, cutoff, now) && HoldsRequested(s, request, cutoff)
  {
    var cutoff, e := CutoffFor(request, now), s.constructions.state.entries;
    assert cutoff == R.CutoffOf(request, now);
    SnapshotExactly(s, request.artifact, now);
    HiddenExactly(s, request.artifact, cutoff, now);
    R.ResolvesExactly(s, request, now);
    assert forall i :: 0 <= i < |e| ==> (R.Wanted(e[i], request, cutoff) <==> IsRequested(e[i], request, cutoff));
  }

  /** Distinct ids leave one construction that a request can mean. */
  lemma {:induction false} OneRequested(e: seq<Item>, request: R.Request, cutoff: Instant, item: Item, other: Item)
    requires DistinctIds(e) && item in e && other in e
    requires IsRequested(item, request, cutoff) && IsRequested(other, request, cutoff)
    ensures item == other
  {
    var i :| 0 <= i < |e| && e[i] == item;
    var k :| 0 <= k < |e| && e[k] == other;
    assert e[i].executionId == e[k].executionId;
    assert i == k;
  }

  /** Material is resolved exactly when the histories are in order, what is known now rests
      on what is known now, the cutoff is not in the future, nothing of the version has
      become available since, and the requested construction is retained; it is that one. */
  lemma {:induction false} MaterialExactly(s: R.Stores, request: R.Request, now: Instant, item: Item)
    ensures var cutoff := CutoffFor(request, now);
      R.Resolution(s, request, now) == R.Material(item) <==>
        && InOrder(s) && Grounded(s, request.artifact, now)
        && cutoff <= now && NothingNewAnywhere(s, request.artifact, cutoff, now)
        && IsRequested(item, request, cutoff)
        && exists i :: 0 <= i < |s.constructions.state.entries| && s.constructions.state.entries[i] == item
  {
    var cutoff, e := CutoffFor(request, now), s.constructions.state.entries;
    ResolvableExactly(s, request, now);
    R.ResolvedIsRetained(s, request, now);
    if R.Resolution(s, request, now).Material? && item in e && IsRequested(item, request, cutoff) {
      OneRequested(e, request, cutoff, R.Resolution(s, request, now).item, item);
    }
  }

  /** A retained construction of the requested id is of another artifact. */
  predicate BoundElsewhere(s: R.Stores, request: R.Request) {
    exists i :: 0 <= i < |s.constructions.state.entries|
      && s.constructions.state.entries[i].executionId == request.executionId
      && s.constructions.state.entries[i].content.artifact != request.artifact
  }

  /** The refusals up to the comparison of the two snapshots, in the order of the checks. */
  lemma {:induction false} RefusesEarly(s: R.Stores, request: R.Request, now: Instant)
    ensures var outcome, cutoff := R.Resolution(s, request, now), CutoffFor(request, now);
      if !InOrder(s) || !Grounded(s, request.artifact, now) then outcome == R.Refused(R.HistoryIncomplete)
      else if BoundElsewhere(s, request) then outcome == R.Refused(R.ReferenceMismatch)
      else if now < cutoff then outcome == R.Refused(R.TemporalFailure)
      else if !Grounded(s, request.artifact, cutoff) then outcome == R.Refused(R.HistoryIncomplete)
      else if !NothingNewAnywhere(s, request.artifact, cutoff, now) then outcome == R.Refused(R.TemporalFailure)
      else true
  {
    var cutoff := CutoffFor(request, now);
    assert cutoff == R.CutoffOf(request, now);
    SnapshotExactly(s, request.artifact, now);
    SnapshotExactly(s, request.artifact, cutoff);
    HiddenExactly(s, request.artifact, cutoff, now);
    if InOrder(s) && cutoff <= now {
      AuthenticExactly(s);
      CollectsExactly(s, request.artifact, now);
      CollectsExactly(s, request.artifact, cutoff);
      R.SameCollectionExactly(s, request.artifact, cutoff, now);
    }
  }

  /** And at the end: some construction is known, but not the requested one; or none is. */
  lemma {:induction false} RefusesLate(s: R.Stores, request: R.Request, now: Instant)
    requires var cutoff := CutoffFor(request, now);
      && InOrder(s) && Grounded(s, request.artifact, now) && !BoundElsewhere(s, request)
      && cutoff <= now && Grounded(s, request.artifact, cutoff) && NothingNewAnywhere(s, request.artifact, cutoff, now)
    requires forall i :: 0 <= i < |s.constructions.state.entries| ==>
      !IsRequested(s.constructions.state.entries[i], request, CutoffFor(request, now))
    ensures R.Resolution(s, request, now) ==
      if |KnownOf(s.constructions, request.artifact, CutoffFor(request, now))| > 0 then R.Refused(R.ReferenceMismatch)
      else R.Refused(R.InputUnavailable)
  {
    var cutoff := CutoffFor(request, now);
    assert cutoff == R.CutoffOf(request, now);
    AuthenticExactly(s);
    SnapshotExactly(s, request.artifact, now);
    SnapshotExactly(s, request.artifact, cutoff);
    HiddenExactly(s, request.artifact, cutoff, now);
    CollectsExactly(s, request.artifact, now);
    CollectsExactly(s, request.artifact, cutoff);
    R.SameCollectionExactly(s, request.artifact, cutoff, now);
    NoneNamed(KnownOf(s.constructions, request.artifact, cutoff), s, request, cutoff);
  }

  lemma {:induction false} NoneNamed(known: seq<Item>, s: R.Stores, request: R.Request, cutoff: Instant)
    requires known == KnownOf(s.constructions, request.artifact, cutoff) && !BoundElsewhere(s, request)
    requires forall i :: 0 <= i < |s.constructions.state.entries| ==> !IsRequested(s.constructions.state.entries[i], request, cutoff)
    ensures R.Named(known, request.executionId) == []
  {
    forall k | 0 <= k < |known| ensures known[k].executionId != request.executionId {
      var i := ListedIsRetained(s.constructions, request.artifact, cutoff, k);
      assert !IsRequested(s.constructions.state.entries[i], request, cutoff);
    }
    NoneOfName(known, request.executionId);
  }

  lemma {:induction false} NoneOfName(items: seq<Item>, executionId: string)
    requires forall k :: 0 <= k < |items| ==> items[k].executionId != executionId
    ensures R.Named(items, executionId) == []
  {
    if items != [] { NoneOfName(items[..|items| - 1], executionId); }
  }

  // ---- Later publications and the bridge ----

  function StoreOf(s: R.Stores, e: C.Event): R.Store {
    match e
    case Construct(_) => s.constructions
    case Validate(_) => s.validations
    case Refresh(_) => s.freshness
    case Admit(_) => s.admissions
    case Activate(_) => s.validity
  }

  predicate StoreInOrder(e: C.Event, store: R.Store) {
    if e.Construct? then Sound(store.namespace, store.state) && AllConstructed(store)
    else if e.Activate? then EventsInOrder(store)
    else ResultsInOrder(store)
  }

  /** The store with one entry more. */
  function Appended(store: R.Store, a: Attempt<Content>): R.Store
    requires a.available.Some?
  {
    R.Store(store.namespace, State(store.state.next + 1, store.state.entries
      + [Entry(a.executionId, store.namespace, store.state.next, a.started, a.completed, a.available.value, a.content)]))
  }

  predicate Publishes(s: R.Stores, e: C.Event) {
    && StoreInOrder(e, StoreOf(s, e))
    && MayAppend(Retaining, StoreOf(s, e).namespace, StoreOf(s, e).state, e.attempt)
  }

  /** A publication adds its entry to its own store exactly when that is in order and can
      take it, and leaves the other four alone. */
  lemma {:induction false} PublishesExactly(s: R.Stores, e: C.Event)
    ensures C.Do(s, e) ==
      if !Publishes(s, e) then s
      else match e
        case Construct(a) => s.(constructions := Appended(s.constructions, a))
        case Validate(a) => s.(validations := Appended(s.validations, a))
        case Refresh(a) => s.(freshness := Appended(s.freshness, a))
        case Admit(a) => s.(admissions := Appended(s.admissions, a))
        case Activate(a) => s.(validity := Appended(s.validity, a))
  {
    var store := StoreOf(s, e);
    ResultsExactly(store);
    EventsExactly(store);
    AppendsExactly(Retaining, store.namespace, store.state, e.attempt);
  }

  /** The bridge accepts what a qualification recorded exactly when the snapshot at its
      cutoff can still be taken, lists the same, and knows the qualified construction and
      the task freshness. */
  lemma {:induction false} AcceptsExactly(s: R.Stores, artifact: Artifact, q: C.Qualified)
    ensures C.BridgeAccepts(s, artifact, q) <==>
      && InOrder(s) && Grounded(s, artifact, q.history.knowledge)
      && q.history == Listed(s, artifact, q.history.knowledge)
      && Knows(s.constructions, artifact, q.history.knowledge, q.target)
      && Knows(s.freshness, artifact, q.history.knowledge, q.task)
  {
    SnapshotExactly(s, artifact, q.history.knowledge);
    KnownExactly(s.constructions, artifact, q.history.knowledge);
    KnownExactly(s.freshness, artifact, q.history.knowledge);
  }
}
