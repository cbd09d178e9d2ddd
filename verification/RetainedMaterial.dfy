/** Resolving retained material over the five input histories
    (`resolve_retained_material` and `_snapshot` in
    `polygon_completed_daily_production_qualification.py`). */
module RetainedMaterial {
  import opened Basics
  import opened PublicationHistory
  import opened AsOfHistory

  /** The lifecycle record of a result. */
  datatype Record = Record(id: string, body: int)

  /** A constructed artifact, or a lifecycle result with the retained inputs it embeds. */
  datatype Content =
    | Constructed(artifact: Artifact, approvedProfile: bool)
    | Supported(artifact: Artifact, record: Record, construction: Item, validations: seq<Item>, freshness: seq<Item>, admissions: seq<Item>)

  type Item = Entry<Content>

  datatype Store = Store(namespace: string, state: State<Content>)

  datatype Stores = Stores(constructions: Store, validations: Store, freshness: Store, admissions: Store, validity: Store)

  datatype Snapshot = Snapshot(
    constructions: seq<Item>, validations: seq<Item>, freshness: seq<Item>, admissions: seq<Item>, events: seq<Item>,
    knowledge: Instant)

  datatype Reason = HistoryIncomplete | ReferenceMismatch | TemporalFailure | InputUnavailable

  datatype Verdict = Refused(reason: Reason) | Material(item: Item)

  datatype Request = Request(artifact: Artifact, executionId: string, knowledge: Option<Instant>)

  function OfVersion(artifact: Artifact): Relevance<Content> {
    (item: Item) => SameVersion(item.content.artifact, artifact)
  }

  predicate OneEventPerVersion(entries: seq<Item>) {
    forall i, j :: 0 <= i < j < |entries| ==> !OfVersion(entries[i].content.artifact)(entries[j])
  }

  function RecordOf(content: Content): Record {
    if content.Supported? then content.record else Record("", 0)
  }

  function RecordId(content: Content): string {
    RecordOf(content).id
  }

  predicate ConstructionsAuthentic(store: Store) {
    Sound(store.namespace, store.state) && forall i :: 0 <= i < |store.state.entries| ==> store.state.entries[i].content.Constructed?
  }

  predicate AllSupported(store: Store) {
    forall i :: 0 <= i < |store.state.entries| ==> store.state.entries[i].content.Supported?
  }

  /** Validations, freshness and admissions also keep one content per record identity. */
  predicate RecordsAuthentic(store: Store) {
    Sound(store.namespace, store.state) && AllSupported(store) && RecordsAgree(store.state.entries, RecordId, RecordOf)
  }

  predicate EventsAuthentic(store: Store) {
    Sound(store.namespace, store.state) && AllSupported(store) && OneEventPerVersion(store.state.entries)
  }

  /** What the five validators accept. */
  predicate Authentic(s: Stores) {
    && ConstructionsAuthentic(s.constructions) && RecordsAuthentic(s.validations) && RecordsAuthentic(s.freshness)
    && RecordsAuthentic(s.admissions) && EventsAuthentic(s.validity)
  }

  function Known(store: Store, artifact: Artifact, cutoff: Instant): seq<Item> {
    Select(store.state.entries, OfVersion(artifact), Some(cutoff))
  }

  function Collect(s: Stores, artifact: Artifact, cutoff: Instant): Snapshot {
    Snapshot(Known(s.constructions, artifact, cutoff), Known(s.validations, artifact, cutoff),
      Known(s.freshness, artifact, cutoff), Known(s.admissions, artifact, cutoff), Known(s.validity, artifact, cutoff), cutoff)
  }

  predicate AllIn(items: seq<Item>, known: seq<Item>) {
    forall i :: 0 <= i < |items| ==> items[i] in known
  }

  predicate Grounded(item: Item, artifact: Artifact, constructions: seq<Item>) {
    item.content.Supported? && item.content.construction in constructions && item.content.artifact == artifact
  }

  /** Everything visible embeds only what is visible too. */
  predicate Closed(v: Snapshot, artifact: Artifact) {
    && (forall i :: 0 <= i < |v.constructions| ==>
          v.constructions[i].content.artifact == artifact
          && v.constructions[i].content.Constructed? && v.constructions[i].content.approvedProfile)
    && (forall i :: 0 <= i < |v.validations| ==> Grounded(v.validations[i], artifact, v.constructions))
    && (forall i :: 0 <= i < |v.freshness| ==> Grounded(v.freshness[i], artifact, v.constructions))
    && (forall i :: 0 <= i < |v.admissions| ==>
          && Grounded(v.admissions[i], artifact, v.constructions)
          && AllIn(v.admissions[i].content.validations, v.validations)
          && AllIn(v.admissions[i].content.freshness, v.freshness))
    && (forall i :: 0 <= i < |v.events| ==>
          v.events[i].content.Supported? && AllIn(v.events[i].content.admissions, v.admissions))
  }

  /** `_snapshot`; nothing when a validator or a closure check raises. */
  function SnapshotAt(s: Stores, artifact: Artifact, cutoff: Instant): Option<Snapshot> {
    var found := Collect(s, artifact, cutoff);
    if Authentic(s) && Closed(found, artifact) then Some(found) else None
  }

  predicate Misbound(item: Item, request: Request) {
    item.executionId == request.executionId && item.content.artifact != request.artifact
  }

  function Named(items: seq<Item>, executionId: string): seq<Item> {
    if items == [] then []
    else Named(items[..|items| - 1], executionId)
         + (if items[|items| - 1].executionId == executionId then [items[|items| - 1]] else [])
  }

  function CutoffOf(request: Request, now: Instant): Instant {
    if request.knowledge.Some? then request.knowledge.value else now
  }

  function Resolution(s: Stores, request: Request, now: Instant): Verdict {
    var cutoff := CutoffOf(request, now);
    var current, past := SnapshotAt(s, request.artifact, now), SnapshotAt(s, request.artifact, cutoff);
    if current.None? then Refused(HistoryIncomplete)
    else if !NoneMisbound(s.constructions.state.entries, request)
    then Refused(ReferenceMismatch)
    else if cutoff > now then Refused(TemporalFailure)
    else if past.None? then Refused(HistoryIncomplete)
    else if current.value.(knowledge := cutoff) != past.value then Refused(TemporalFailure)
    else
      var matches := Named(past.value.constructions, request.executionId);
      if past.value.constructions != [] && matches == [] then Refused(ReferenceMismatch)
      else if |matches| != 1 then Refused(InputUnavailable)
      else Material(matches[0])
  }

  // ---- Nothing newer is hidden ----

  predicate NothingHidden(store: Store, artifact: Artifact, cutoff: Instant, now: Instant) {
    NothingBetween(store.state.entries, OfVersion(artifact), cutoff, now)
  }

  ghost predicate NothingHiddenAnywhere(s: Stores, artifact: Artifact, cutoff: Instant, now: Instant) {
    && NothingHidden(s.constructions, artifact, cutoff, now)
    && NothingHidden(s.validations, artifact, cutoff, now)
    && NothingHidden(s.freshness, artifact, cutoff, now)
    && NothingHidden(s.admissions, artifact, cutoff, now)
    && NothingHidden(s.validity, artifact, cutoff, now)
  }

  /** Two snapshots differ, their cutoffs aside, exactly when one of the five histories
      received a relevant entry in between. */
  lemma {:induction false} SameCollectionExactly(s: Stores, artifact: Artifact, cutoff: Instant, now: Instant)
    requires Authentic(s) && cutoff <= now
    ensures Collect(s, artifact, now).(knowledge := cutoff) == Collect(s, artifact, cutoff)
      <==> NothingHiddenAnywhere(s, artifact, cutoff, now)
  {
    EqualAnswersExactly(s.constructions.state.entries, OfVersion(artifact), cutoff, now);
    EqualAnswersExactly(s.validations.state.entries, OfVersion(artifact), cutoff, now);
    EqualAnswersExactly(s.freshness.state.entries, OfVersion(artifact), cutoff, now);
    EqualAnswersExactly(s.admissions.state.entries, OfVersion(artifact), cutoff, now);
    EqualAnswersExactly(s.validity.state.entries, OfVersion(artifact), cutoff, now);
  }

  predicate Wanted(item: Item, request: Request, cutoff: Instant) {
    item.executionId == request.executionId && item.content.artifact == request.artifact && item.available <= cutoff
  }

  /** The present histories authenticate, the cutoff is not in the future, no relevant entry
      of any of the five became available after it, and the named construction of this very
      artifact was available by it. */
  ghost predicate Resolvable(s: Stores, request: Request, now: Instant) {
    var cutoff := CutoffOf(request, now);
    && SnapshotAt(s, request.artifact, now).Some?
    && cutoff <= now
    && NothingHiddenAnywhere(s, request.artifact, cutoff, now)
    && exists i :: 0 <= i < |s.constructions.state.entries| && Wanted(s.constructions.state.entries[i], request, cutoff)
  }

  /** Resolution succeeds exactly then. */
  lemma {:induction false} ResolvesExactly(s: Stores, request: Request, now: Instant)
    ensures Resolution(s, request, now).Material? <==> Resolvable(s, request, now)
  {
    var cutoff := CutoffOf(request, now);
    if SnapshotAt(s, request.artifact, now).Some? && cutoff <= now {
      SameCollectionExactly(s, request.artifact, cutoff, now);
      MatchesExactly(s.constructions.state.entries, request, cutoff);
    }
  }

  predicate NoneMisbound(entries: seq<Item>, request: Request) {
    forall i :: 0 <= i < |entries| ==> !Misbound(entries[i], request)
  }

  lemma {:induction false} MatchesExactly(entries: seq<Item>, request: Request, cutoff: Instant)
    requires DistinctIds(entries)
    ensures NoneMisbound(entries, request)
        && |Named(Select(entries, OfVersion(request.artifact), Some(cutoff)), request.executionId)| == 1
      <==> exists i :: 0 <= i < |entries| && Wanted(entries[i], request, cutoff)
  {
    if i :| 0 <= i < |entries| && Wanted(entries[i], request, cutoff) {
      OnlyOneNamed(entries, request, cutoff, i);
      NotMisbound(entries, request, i);
    } else if NoneMisbound(entries, request) {
      forall k | 0 <= k < |entries| ensures !Matching(entries[k], OfVersion(request.artifact), cutoff, request.executionId) {
        assert !Misbound(entries[k], request) && !Wanted(entries[k], request, cutoff);
      }
      NoneNamed(entries, OfVersion(request.artifact), cutoff, request.executionId);
    }
  }

  lemma {:induction false} NotMisbound(entries: seq<Item>, request: Request, i: nat)
    requires DistinctIds(entries) && i < |entries|
    requires entries[i].executionId == request.executionId && entries[i].content.artifact == request.artifact
    ensures NoneMisbound(entries, request)
  {
    forall j | 0 <= j < |entries| ensures !Misbound(entries[j], request) {
      if j < i { assert entries[j].executionId != entries[i].executionId; }
      if i < j { assert entries[i].executionId != entries[j].executionId; }
    }
  }

  /** What is returned is that retained construction. */
  lemma {:induction false} ResolvedIsRetained(s: Stores, request: Request, now: Instant)
    ensures Resolution(s, request, now).Material? ==>
      var item := Resolution(s, request, now).item;
      && item in s.constructions.state.entries
      && Wanted(item, request, CutoffOf(request, now))
  {
    if Resolution(s, request, now).Material? {
      var cutoff := CutoffOf(request, now);
      ResolvesExactly(s, request, now);
      var entries := s.constructions.state.entries;
      var i :| 0 <= i < |entries| && Wanted(entries[i], request, cutoff);
      OnlyOneNamed(entries, request, cutoff, i);
    }
  }

  /** Distinct execution ids leave one match among the visible constructions. */
  lemma {:induction false} OnlyOneNamed(entries: seq<Item>, request: Request, cutoff: Instant, i: nat)
    requires DistinctIds(entries) && i < |entries| && Wanted(entries[i], request, cutoff)
    ensures Named(Select(entries, OfVersion(request.artifact), Some(cutoff)), request.executionId) == [entries[i]]
  {
    forall j | 0 <= j < |entries| && j != i ensures entries[j].executionId != request.executionId {
      assert if i < j then entries[i].executionId != entries[j].executionId else entries[j].executionId != entries[i].executionId;
    }
    OneNamed(entries, OfVersion(request.artifact), cutoff, request.executionId, i);
  }

  predicate Matching(item: Item, relevant: Relevance<Content>, cutoff: Instant, executionId: string) {
    item.executionId == executionId && Visible(item, relevant, Some(cutoff))
  }

  lemma {:induction false} NoneNamed(entries: seq<Item>, relevant: Relevance<Content>, cutoff: Instant, executionId: string)
    requires forall k :: 0 <= k < |entries| ==> !Matching(entries[k], relevant, cutoff, executionId)
    ensures Named(Select(entries, relevant, Some(cutoff)), executionId) == []
  {
    if entries != [] {
      var front := entries[..|entries| - 1];
      assert forall k :: 0 <= k < |front| ==> front[k] == entries[k];
      NoneNamed(front, relevant, cutoff, executionId);
      NamedSelectStep(entries, relevant, cutoff, executionId);
    }
  }

  lemma {:induction false} OneNamed(entries: seq<Item>, relevant: Relevance<Content>, cutoff: Instant, executionId: string, i: nat)
    requires i < |entries| && Matching(entries[i], relevant, cutoff, executionId)
    requires forall k :: 0 <= k < |entries| && k != i ==> !Matching(entries[k], relevant, cutoff, executionId)
    ensures Named(Select(entries, relevant, Some(cutoff)), executionId) == [entries[i]]
    decreases |entries|
  {
    var n := |entries| - 1;
    var front := entries[..n];
    assert forall k :: 0 <= k < |front| ==> front[k] == entries[k];
    NamedSelectStep(entries, relevant, cutoff, executionId);
    if i < n {
      OneNamed(front, relevant, cutoff, executionId, i);
    } else {
      NoneNamed(front, relevant, cutoff, executionId);
    }
  }

  lemma {:induction false} NamedSelectStep(entries: seq<Item>, relevant: Relevance<Content>, cutoff: Instant, executionId: string)
    requires entries != []
    ensures var last := entries[|entries| - 1];
      Named(Select(entries, relevant, Some(cutoff)), executionId)
      == Named(Select(entries[..|entries| - 1], relevant, Some(cutoff)), executionId)
         + (if Visible(last, relevant, Some(cutoff)) && last.executionId == executionId then [last] else [])
  {
    var early := Select(entries[..|entries| - 1], relevant, Some(cutoff));
    assert early + [] == early;
    NamedAppend(early, entries[|entries| - 1], executionId);
    assert Named(early, executionId) + [] == Named(early, executionId);
  }

  lemma {:induction false} NamedAppend(items: seq<Item>, item: Item, executionId: string)
    ensures Named(items + [item], executionId)
      == Named(items, executionId) + (if item.executionId == executionId then [item] else [])
  {
    assert (items + [item])[..|items|] == items;
  }

  // ---- The resolution itself ----

  /** `resolve_retained_material`, in the order of its checks. */
  method Resolve(s: Stores, request: Request, now: Instant) returns (verdict: Verdict)
    ensures verdict == Resolution(s, request, now)
    ensures verdict.Material? <==> Resolvable(s, request, now)
    ensures verdict.Material? ==> verdict.item in s.constructions.state.entries && Wanted(verdict.item, request, CutoffOf(request, now))
  {
    ResolvesExactly(s, request, now);
    ResolvedIsRetained(s, request, now);
    var cutoff := CutoffOf(request, now);
    var current := SnapshotAt(s, request.artifact, now);
    if current.None? {
      return Refused(HistoryIncomplete);
    }
    var entries := s.constructions.state.entries;
    for i := 0 to |entries|
      invariant forall j :: 0 <= j < i ==> !Misbound(entries[j], request)
    {
      if entries[i].executionId == request.executionId && entries[i].content.artifact != request.artifact {
        return Refused(ReferenceMismatch);
      }
    }
    if cutoff > now {
      return Refused(TemporalFailure);
    }
    var past := SnapshotAt(s, request.artifact, cutoff);
    if past.None? {
      return Refused(HistoryIncomplete);
    }
    if current.value.(knowledge := cutoff) != past.value {
      return Refused(TemporalFailure);
    }
    var matches := Named(past.value.constructions, request.executionId);
    if past.value.constructions != [] && matches == [] {
      return Refused(ReferenceMismatch);
    }
    if |matches| != 1 {
      return Refused(InputUnavailable);
    }
    verdict := Material(matches[0]);
  }
}
