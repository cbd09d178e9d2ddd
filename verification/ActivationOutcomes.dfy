/** When an initial activation commits its event, and which refusal it gives otherwise, in
    terms of the retained constructions, admissions and events. */
module ActivationOutcomes {
  import opened Basics
  import opened PublicationHistory
  import opened InitialActivation

  // ---- What is visible to one activation ----

  /** A construction that the request names, available at the start. */
  predicate IsNamed(c: Construction, t: Trial) {
    c.executionId == t.request.constructionId && c.available <= t.started
  }

  /** An admission of the requested version, available at the start. */
  predicate IsVisible(a: Admission, t: Trial) {
    && a.content.artifact.id == t.request.artifact.id && a.content.artifact.version == t.request.artifact.version
    && a.available <= t.started
  }

  function Visible(s: System, t: Trial): seq<Admission> {
    RelevantAdmissions(s.admissions.entries, t.request.artifact, t.started)
  }

  /** Entry by entry, the two comprehensions and the occurrences of a record. */
  lemma {:induction false} SelectsInOrder(cs: seq<Construction>, c: Construction, admissions: seq<Admission>,
      a: Admission, r: Record, t: Trial)
    ensures NamedConstructions([], t.request.constructionId, t.started) == []
    ensures NamedConstructions(cs + [c], t.request.constructionId, t.started)
      == NamedConstructions(cs, t.request.constructionId, t.started) + (if IsNamed(c, t) then [c] else [])
    ensures RelevantAdmissions([], t.request.artifact, t.started) == []
    ensures RelevantAdmissions(admissions + [a], t.request.artifact, t.started)
      == RelevantAdmissions(admissions, t.request.artifact, t.started) + (if IsVisible(a, t) then [a] else [])
    ensures RecordOccurrences([], r) == []
    ensures RecordOccurrences(admissions + [a], r) == RecordOccurrences(admissions, r) + (if a.content.record == r then [a] else [])
  {
    assert (cs + [c])[..|cs|] == cs;
    assert (admissions + [a])[..|admissions|] == admissions;
  }

  // ---- The distinct records ----

  predicate OneContentPerId(history: seq<Admission>) {
    forall i, j :: 0 <= i < |history| && 0 <= j < |history|
      && history[i].content.record.id == history[j].content.record.id
      ==> history[i].content.record == history[j].content.record
  }

  ghost predicate Carries(history: seq<Admission>, record: Record) {
    exists i :: 0 <= i < |history| && history[i].content.record == record
  }

  lemma {:induction false} CarriesStep(history: seq<Admission>, record: Record)
    requires history != []
    ensures Carries(history, record)
      <==> Carries(history[..|history| - 1], record) || history[|history| - 1].content.record == record
  {
    var front := history[..|history| - 1];
    if i :| 0 <= i < |front| && front[i].content.record == record {
      assert history[i] == front[i];
    }
    if i :| 0 <= i < |front| && history[i].content.record == record {
      assert front[i] == history[i];
    }
  }

  lemma {:induction false} FrontAgrees(history: seq<Admission>)
    requires history != [] && OneContentPerId(history)
    ensures OneContentPerId(history[..|history| - 1])
  {
    var front := history[..|history| - 1];
    assert forall i :: 0 <= i < |front| ==> front[i] == history[i];
  }

  /** When no id has two contents, the records are those carried, in order of first
      appearance. */
  lemma {:induction false} RecordsExactly(history: seq<Admission>)
    requires OneContentPerId(history)
    ensures DistinctRecords(history).Some?
    ensures forall r :: r in DistinctRecords(history).value <==> Carries(history, r)
    ensures history == [] ==> DistinctRecords(history) == Some([])
    ensures history != [] ==>
      var front, last := history[..|history| - 1], history[|history| - 1].content.record;
      DistinctRecords(front).Some? && DistinctRecords(history).value
        == DistinctRecords(front).value + (if Carries(front, last) then [] else [last])
  {
    if history != [] {
      var front, last := history[..|history| - 1], history[|history| - 1].content.record;
      FrontAgrees(history);
      RecordsExactly(front);
      var records := DistinctRecords(front).value;
      forall k | 0 <= k < |records| && records[k].id == last.id ensures records[k] == last {
        assert records[k] in records && Carries(front, records[k]);
        var i :| 0 <= i < |front| && front[i].content.record == records[k];
        assert history[i] == front[i];
      }
      assert records + [] == records;
      forall r ensures r in DistinctRecords(history).value <==> Carries(history, r) { CarriesStep(history, r); }
    }
  }

  lemma {:induction false} AuthenticExactly(space: string, st: State<Admitted>)
    ensures AdmissionsAuthentic(space, st) <==> Sound(space, st) && OneContentPerId(st.entries)
  {
    var a := st.entries;
    if RecordsAgree(a, RecordId, RecordOf) {
      forall i, j | 0 <= i < |a| && 0 <= j < |a| && a[i].content.record.id == a[j].content.record.id
        ensures a[i].content.record == a[j].content.record
      {
        var low, high := if i < j then i else j, if i < j then j else i;
        assert low < high ==> RecordId(a[low].content) == RecordId(a[high].content);
      }
    }
  }

  lemma {:induction false} VisibleAgree(admissions: seq<Admission>, artifact: Artifact, cutoff: Instant)
    requires OneContentPerId(admissions)
    ensures OneContentPerId(RelevantAdmissions(admissions, artifact, cutoff))
  {
    var h := RelevantAdmissions(admissions, artifact, cutoff);
    forall i, j | 0 <= i < |h| && 0 <= j < |h| && h[i].content.record.id == h[j].content.record.id
      ensures h[i].content.record == h[j].content.record
    {
      assert h[i] in h && h[j] in h;
      var k :| 0 <= k < |admissions| && admissions[k] == h[i];
      var l :| 0 <= l < |admissions| && admissions[l] == h[j];
    }
  }

  // ---- The named construction ----

  lemma {:induction false} NamedIsOne(cs: seq<Construction>, t: Trial, k: nat)
    requires DistinctIds(cs) && k < |cs| && IsNamed(cs[k], t)
    ensures NamedConstructions(cs, t.request.constructionId, t.started) == [cs[k]]
  {
    var n := |cs| - 1;
    NamedStep(cs, t);
    if k < n {
      assert cs[k].executionId != cs[n].executionId;
      FrontIsDistinct(cs);
      NamedIsOne(cs[..n], t, k);
    } else {
      forall i | 0 <= i < n ensures !IsNamed(cs[i], t) { assert cs[i].executionId != cs[n].executionId; }
      NoneNamed(cs[..n], t);
    }
  }

  lemma {:induction false} NamedStep(cs: seq<Construction>, t: Trial)
    requires cs != []
    ensures var n := |cs| - 1;
      NamedConstructions(cs, t.request.constructionId, t.started)
        == NamedConstructions(cs[..n], t.request.constructionId, t.started) + (if IsNamed(cs[n], t) then [cs[n]] else [])
  {
  }

  lemma {:induction false} FrontIsDistinct(cs: seq<Construction>)
    requires DistinctIds(cs) && cs != []
    ensures DistinctIds(cs[..|cs| - 1])
  {
    var front := cs[..|cs| - 1];
    forall i, j | 0 <= i < j < |front| ensures front[i].executionId != front[j].executionId {
      assert cs[i].executionId != cs[j].executionId;
    }
  }

  lemma {:induction false} NoneNamed(cs: seq<Construction>, t: Trial)
    requires forall k :: 0 <= k < |cs| ==> !IsNamed(cs[k], t)
    ensures NamedConstructions(cs, t.request.constructionId, t.started) == []
  {
    if cs != [] { NoneNamed(cs[..|cs| - 1], t); }
  }

  // ---- The first occurrence of a record ----

  /** The first visible admission that carries the record. */
  predicate IsFirst(admissions: seq<Admission>, t: Trial, record: Record, j: nat) {
    && j < |admissions| && IsVisible(admissions[j], t) && admissions[j].content.record == record
    && forall i :: 0 <= i < j && IsVisible(admissions[i], t) ==> admissions[i].content.record != record
  }

  function Occurrences(admissions: seq<Admission>, t: Trial, record: Record): seq<Admission> {
    RecordOccurrences(RelevantAdmissions(admissions, t.request.artifact, t.started), record)
  }

  lemma {:induction false} OccurrencesStep(admissions: seq<Admission>, t: Trial, record: Record)
    requires admissions != []
    ensures var front, last := admissions[..|admissions| - 1], admissions[|admissions| - 1];
      Occurrences(admissions, t, record)
        == Occurrences(front, t, record) + (if IsVisible(last, t) && last.content.record == record then [last] else [])
  {
    var front, last := admissions[..|admissions| - 1], admissions[|admissions| - 1];
    var early := RelevantAdmissions(front, t.request.artifact, t.started);
    assert early + [] == early;
    SelectsInOrder([], Entry("", "", 0, 0, 0, 0, t.request.artifact), early, last, record, t);
    assert Occurrences(front, t, record) + [] == Occurrences(front, t, record);
  }

  lemma {:induction false} NoOccurrence(admissions: seq<Admission>, t: Trial, record: Record)
    requires forall i :: 0 <= i < |admissions| && IsVisible(admissions[i], t) ==> admissions[i].content.record != record
    ensures Occurrences(admissions, t, record) == []
  {
    if admissions != [] {
      OccurrencesStep(admissions, t, record);
      NoOccurrence(admissions[..|admissions| - 1], t, record);
    }
  }

  lemma {:induction false} FirstOccurrence(admissions: seq<Admission>, t: Trial, record: Record, j: nat)
    requires IsFirst(admissions, t, record, j)
    ensures Occurrences(admissions, t, record) != [] && Occurrences(admissions, t, record)[0] == admissions[j]
    decreases |admissions|
  {
    var front := admissions[..|admissions| - 1];
    OccurrencesStep(admissions, t, record);
    if j < |front| {
      assert forall i :: 0 <= i <= j ==> front[i] == admissions[i];
      FirstOccurrence(front, t, record, j);
    } else {
      NoOccurrence(front, t, record);
    }
  }

  lemma {:induction false} SomeFirst(admissions: seq<Admission>, t: Trial, record: Record) returns (j: nat)
    requires Occurrences(admissions, t, record) != []
    ensures IsFirst(admissions, t, record, j)
    decreases |admissions|
  {
    var front := admissions[..|admissions| - 1];
    OccurrencesStep(admissions, t, record);
    if Occurrences(front, t, record) != [] {
      j := SomeFirst(front, t, record);
      FirstInFront(admissions, t, record, j);
    } else {
      j := |front|;
      forall i | 0 <= i < j && IsVisible(admissions[i], t) ensures admissions[i].content.record != record {
        if admissions[i].content.record == record {
          assert front[i] == admissions[i];
          OccursSomewhere(front, t, record, i);
        }
      }
    }
  }

  lemma {:induction false} FirstInFront(admissions: seq<Admission>, t: Trial, record: Record, j: nat)
    requires admissions != [] && IsFirst(admissions[..|admissions| - 1], t, record, j)
    ensures IsFirst(admissions, t, record, j)
  {
    var front := admissions[..|admissions| - 1];
    assert forall i :: 0 <= i <= j ==> front[i] == admissions[i];
  }

  lemma {:induction false} OccursSomewhere(admissions: seq<Admission>, t: Trial, record: Record, i: nat)
    requires i < |admissions| && IsVisible(admissions[i], t) && admissions[i].content.record == record
    ensures Occurrences(admissions, t, record) != []
    decreases |admissions|
  {
    OccurrencesStep(admissions, t, record);
    if i < |admissions| - 1 { OccursSomewhere(admissions[..|admissions| - 1], t, record, i); }
  }

  // ---- The outcome ----

  /** The records that the evaluator is given. */
  function Candidates(s: System, t: Trial): seq<Record> {
    match DistinctRecords(Visible(s, t))
    case Some(records) => records
    case None => []
  }

  predicate InOrder(n: Spaces, s: System) {
    && EventsSound(n.events, s.next, s.events) && Sound(n.constructions, s.constructions)
    && Sound(n.admissions, s.admissions) && OneContentPerId(s.admissions.entries)
  }

  /** Every visible admission carries the requested reference. */
  predicate SameReference(s: System, t: Trial) {
    forall i :: 0 <= i < |s.admissions.entries| && IsVisible(s.admissions.entries[i], t) ==>
      s.admissions.entries[i].content.artifact == t.request.artifact
  }

  predicate NotYetActive(s: System, t: Trial) {
    forall i :: 0 <= i < |s.events| ==>
      !(s.events[i].artifact.id == t.request.artifact.id && s.events[i].artifact.version == t.request.artifact.version)
  }

  predicate NotBeforeEvents(s: System, t: Trial) {
    t.completed <= t.available && forall i :: 0 <= i < |s.events| ==> s.events[i].available <= t.available
  }

  lemma {:induction false} OtherReferenceExactly(s: System, t: Trial)
    ensures OtherReference(Visible(s, t), t.request.artifact) <==> !SameReference(s, t)
  {
    OtherReferenceIn(s.admissions.entries, t);
  }

  lemma {:induction false} OtherReferenceIn(admissions: seq<Admission>, t: Trial)
    ensures OtherReference(RelevantAdmissions(admissions, t.request.artifact, t.started), t.request.artifact)
      <==> exists i :: 0 <= i < |admissions| && IsVisible(admissions[i], t) && admissions[i].content.artifact != t.request.artifact
  {
    if admissions != [] {
      var front, last := admissions[..|admissions| - 1], admissions[|admissions| - 1];
      var early := RelevantAdmissions(front, t.request.artifact, t.started);
      OtherReferenceIn(front, t);
      assert forall i :: 0 <= i < |front| ==> front[i] == admissions[i];
      assert early + [] == early;
      OtherReferenceStep(early, last, t.request.artifact);
    }
  }

  lemma {:induction false} OtherReferenceStep(history: seq<Admission>, a: Admission, artifact: Artifact)
    ensures OtherReference(history + [a], artifact) <==> OtherReference(history, artifact) || a.content.artifact != artifact
  {
    var more := history + [a];
    assert more[|history|] == a;
    assert forall i :: 0 <= i < |history| ==> more[i] == history[i];
  }

  lemma {:induction false} LatestExactly(n: Spaces, s: System, t: Trial)
    requires EventsSound(n.events, s.next, s.events)
    ensures LatestAvailability(s.events, t.completed) <= t.available <==> NotBeforeEvents(s, t)
  {
    var m := |s.events|;
    if m > 0 {
      forall i | 0 <= i < m ensures s.events[i].available <= s.events[m - 1].available {
        assert i < m - 1 ==> s.events[i].available <= s.events[m - 1].available;
      }
    }
  }

  /** Histories in order, a named construction `k` and the first visible admission `j` of the
      record that the evaluator resolves: the outcome, check by check. */
  lemma {:induction false} OutcomeExactly(resolve: Resolver, n: Spaces, s: System, t: Trial, k: nat, j: nat)
    requires InOrder(n, s) && k < |s.constructions.entries| && IsNamed(s.constructions.entries[k], t)
    requires j < |s.admissions.entries| && IsFirst(s.admissions.entries, t, s.admissions.entries[j].content.record, j)
    requires resolve(t.request.artifact, Candidates(s, t), t.started) == Some(s.admissions.entries[j].content.record)
    ensures var c, a := s.constructions.entries[k], s.admissions.entries[j];
      Issue(resolve, n, s, t) ==
        if c.content != t.request.artifact then Refused(TargetMismatch)
        else if !a.content.record.admitted then Refused(AdmissionUnavailable)
        else if a.content.construction != Named(c.executionId, c.content, c.available) || !SameReference(s, t)
        then Refused(TargetMismatch)
        else if !NotYetActive(s, t) then Refused(PriorValidity)
        else if t.started > t.completed then Refused(TemporalFailure)
        else if t.stagingRaises || t.completed < a.content.record.effective then Refused(HistoryConflict)
        else if !NotBeforeEvents(s, t) then Refused(TemporalFailure)
        else Activated(Event(t.request.artifact, t.completed, a, t.executionId, n.events, s.next,
          t.started, t.completed, t.available))
  {
    NamedIsOne(s.constructions.entries, t, k);
    AuthenticExactly(n.admissions, s.admissions);
    EffectiveExactly(resolve, s, t, j);
    OtherReferenceExactly(s, t);
    LatestExactly(n, s, t);
    PriorExactly(s, t);
  }

  lemma {:induction false} EffectiveExactly(resolve: Resolver, s: System, t: Trial, j: nat)
    requires OneContentPerId(s.admissions.entries) && j < |s.admissions.entries|
    requires IsFirst(s.admissions.entries, t, s.admissions.entries[j].content.record, j)
    requires resolve(t.request.artifact, Candidates(s, t), t.started) == Some(s.admissions.entries[j].content.record)
    ensures var effective := EffectiveAdmission(resolve, Visible(s, t), t.request.artifact, t.started);
      && effective.Effective? && effective.record == s.admissions.entries[j].content.record
      && effective.occurrences[0] == s.admissions.entries[j]
  {
    VisibleAgree(s.admissions.entries, t.request.artifact, t.started);
    RecordsExactly(Visible(s, t));
    FirstOccurrence(s.admissions.entries, t, s.admissions.entries[j].content.record, j);
  }

  lemma {:induction false} PriorExactly(s: System, t: Trial)
    ensures HasPrior(s.events, t.request.artifact) <==> !NotYetActive(s, t)
  {
  }

  /** Otherwise: a history out of order, no such construction, no visible admission, or no
      record resolved among those visible. */
  lemma {:induction false} RefusesEarly(resolve: Resolver, n: Spaces, s: System, t: Trial)
    ensures !EventsSound(n.events, s.next, s.events) || !Sound(n.constructions, s.constructions)
      ==> Issue(resolve, n, s, t) == Refused(HistoryConflict)
    ensures EventsSound(n.events, s.next, s.events) && Sound(n.constructions, s.constructions)
      && (forall k :: 0 <= k < |s.constructions.entries| ==> !IsNamed(s.constructions.entries[k], t))
      ==> Issue(resolve, n, s, t) == Refused(ConstructionUnavailable)
  {
    if forall k :: 0 <= k < |s.constructions.entries| ==> !IsNamed(s.constructions.entries[k], t) {
      NoneNamed(s.constructions.entries, t);
    }
  }

  /** The evaluator resolves no record, or one that no visible admission carries. */
  ghost predicate ResolvesNothing(resolve: Resolver, s: System, t: Trial) {
    match resolve(t.request.artifact, Candidates(s, t), t.started)
    case None => true
    case Some(record) => !Carries(Visible(s, t), record)
  }

  lemma {:induction false} RefusesWithoutAdmission(resolve: Resolver, n: Spaces, s: System, t: Trial, k: nat)
    requires EventsSound(n.events, s.next, s.events) && Sound(n.constructions, s.constructions)
    requires k < |s.constructions.entries| && IsNamed(s.constructions.entries[k], t)
    requires s.constructions.entries[k].content == t.request.artifact
    ensures !InOrder(n, s) ==> Issue(resolve, n, s, t) == Refused(HistoryConflict)
    ensures InOrder(n, s) && Visible(s, t) == [] ==> Issue(resolve, n, s, t) == Refused(AdmissionUnavailable)
    ensures InOrder(n, s) && Visible(s, t) != [] && ResolvesNothing(resolve, s, t)
      ==> Issue(resolve, n, s, t) == Refused(HistoryConflict)
  {
    NamedIsOne(s.constructions.entries, t, k);
    AuthenticExactly(n.admissions, s.admissions);
    if InOrder(n, s) { NothingEffective(resolve, s, t); }
  }

  lemma {:induction false} NothingEffective(resolve: Resolver, s: System, t: Trial)
    requires OneContentPerId(s.admissions.entries)
    ensures Visible(s, t) != [] && ResolvesNothing(resolve, s, t) ==>
      EffectiveAdmission(resolve, Visible(s, t), t.request.artifact, t.started) == Conflicting
  {
    VisibleAgree(s.admissions.entries, t.request.artifact, t.started);
    RecordsExactly(Visible(s, t));
    match resolve(t.request.artifact, Candidates(s, t), t.started)
    case None =>
    case Some(record) =>
      if !Carries(Visible(s, t), record) { NotCarried(Visible(s, t), record); }
  }

  lemma {:induction false} NotCarried(history: seq<Admission>, record: Record)
    requires !Carries(history, record)
    ensures RecordOccurrences(history, record) == []
  {
    if history != [] {
      CarriesStep(history, record);
      NotCarried(history[..|history| - 1], record);
    }
  }
  /** The construction `k` is named and of the requested artifact; the admission `j` is the
      first visible one of the record resolved, ADMITTED, effective in time, of that very
      construction; no visible admission carries another reference, the version is not yet
      active, and the clocks advance. */
  predicate Supports(resolve: Resolver, n: Spaces, s: System, t: Trial, k: nat, j: nat) {
    && InOrder(n, s) && k < |s.constructions.entries| && j < |s.admissions.entries|
    && var c, a := s.constructions.entries[k], s.admissions.entries[j];
      && IsNamed(c, t) && c.content == t.request.artifact
      && IsFirst(s.admissions.entries, t, a.content.record, j)
      && resolve(t.request.artifact, Candidates(s, t), t.started) == Some(a.content.record)
      && a.content.record.admitted && a.content.record.effective <= t.completed
      && a.content.construction == Named(c.executionId, c.content, c.available)
      && SameReference(s, t) && NotYetActive(s, t)
      && t.started <= t.completed && NotBeforeEvents(s, t) && !t.stagingRaises
  }

  /** An activation commits its event exactly when something supports it, and the event
      rests on that. */
  lemma {:induction false} ActivatesExactly(resolve: Resolver, n: Spaces, s: System, t: Trial)
    ensures Issue(resolve, n, s, t).Activated? <==> exists k: nat, j: nat :: Supports(resolve, n, s, t, k, j)
    ensures forall k: nat, j: nat :: Supports(resolve, n, s, t, k, j) ==>
      Issue(resolve, n, s, t) == Activated(Event(t.request.artifact, t.completed, s.admissions.entries[j], t.executionId, n.events,
        s.next, t.started, t.completed, t.available))
  {
    forall k: nat, j: nat | Supports(resolve, n, s, t, k, j)
      ensures Issue(resolve, n, s, t) == Activated(Event(t.request.artifact, t.completed, s.admissions.entries[j], t.executionId,
        n.events, s.next, t.started, t.completed, t.available))
    {
      OutcomeExactly(resolve, n, s, t, k, j);
    }
    if Issue(resolve, n, s, t).Activated? {
      var k, j := SupportFound(resolve, n, s, t);
    }
  }

  lemma {:induction false} SupportFound(resolve: Resolver, n: Spaces, s: System, t: Trial) returns (k: nat, j: nat)
    requires Issue(resolve, n, s, t).Activated?
    ensures Supports(resolve, n, s, t, k, j)
  {
    RefusesEarly(resolve, n, s, t);
    k :| 0 <= k < |s.constructions.entries| && IsNamed(s.constructions.entries[k], t);
    NamedIsOne(s.constructions.entries, t, k);
    RefusesWithoutAdmission(resolve, n, s, t, k);
    var record := resolve(t.request.artifact, Candidates(s, t), t.started).value;
    CarriedOccurs(Visible(s, t), record);
    j := SomeFirst(s.admissions.entries, t, record);
    OutcomeExactly(resolve, n, s, t, k, j);
  }

  lemma {:induction false} CarriedOccurs(history: seq<Admission>, record: Record)
    requires Carries(history, record)
    ensures RecordOccurrences(history, record) != []
  {
    CarriesStep(history, record);
    if Carries(history[..|history| - 1], record) { CarriedOccurs(history[..|history| - 1], record); }
  }

  /** One step of a run: an activation adds its event, the other two add their entry when
      their history can take it; nothing else changes. */
  lemma {:induction false} StepsExactly(resolve: Resolver, n: Spaces, s: System, c: Attempt<Artifact>, a: Attempt<Admitted>, t: Trial)
    ensures Perform(resolve, n, s, Activate(t)) ==
      match Issue(resolve, n, s, t)
      case Activated(event) => System(s.constructions, s.admissions, s.next + 1, s.events + [event])
      case Refused(_) => s
    ensures Perform(resolve, n, s, Construct(c)) ==
      if MayAppend(Retaining, n.constructions, s.constructions, c)
      then s.(constructions := State(s.constructions.next + 1, s.constructions.entries
        + [Entry(c.executionId, n.constructions, s.constructions.next, c.started, c.completed, c.available.value, c.content)]))
      else s
    ensures Perform(resolve, n, s, Admit(a)) ==
      if OneContentPerId(s.admissions.entries) && MayAppend(Retaining, n.admissions, s.admissions, a)
      then s.(admissions := State(s.admissions.next + 1, s.admissions.entries
        + [Entry(a.executionId, n.admissions, s.admissions.next, a.started, a.completed, a.available.value, a.content)]))
      else s
  {
    AppendsExactly(Retaining, n.constructions, s.constructions, c);
    AppendsExactly(Retaining, n.admissions, s.admissions, a);
    AuthenticExactly(n.admissions, s.admissions);
  }

  /** Clause by clause: what an event rests on. */
  lemma {:induction false} WellFoundedExactly(s: System, e: Event)
    ensures WellFounded(s, e) <==>
      && e.support in s.admissions.entries && e.support.content.record.admitted
      && e.support.content.artifact == e.artifact && e.support.available <= e.started
      && e.started <= e.completed && e.completed <= e.available
      && e.effective == e.completed && e.support.content.record.effective <= e.completed
      && e.support.content.construction.artifact == e.artifact && e.support.content.construction.available <= e.started
      && exists i :: 0 <= i < |s.constructions.entries|
           && NameOf(s.constructions.entries[i]) == e.support.content.construction
  {
  }
}
