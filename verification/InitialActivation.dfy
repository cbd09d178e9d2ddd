/** Initial activation: at most one ACTIVE event per artifact version, each resting on an
    authentic admission (`polygon_completed_daily_production_validity.py`). */
module InitialActivation {
  import opened Basics
  import opened PublicationHistory
  import Results

  datatype Version = Version(id: string, version: string)

  function VersionOf(a: Artifact): Version {
    Version(a.id, a.version)
  }

  datatype Record = Record(id: string, artifact: Artifact, admitted: bool, recorded: Instant, effective: Instant, content: int)

  type Construction = Entry<Artifact>

  /** How an admission holds its construction. */
  datatype Named = Named(executionId: string, artifact: Artifact, available: Instant)

  function NameOf(c: Construction): Named {
    Named(c.executionId, c.content, c.available)
  }

  datatype Admitted = Admitted(record: Record, artifact: Artifact, construction: Named)

  type Admission = Entry<Admitted>

  datatype Event = Event(
    artifact: Artifact, effective: Instant, support: Admission, executionId: string, namespace: string, sequence: int,
    started: Instant, completed: Instant, available: Instant)

  /** The namespaces of the three histories. */
  datatype Spaces = Spaces(constructions: string, admissions: string, events: string)

  /** The three histories an activation reads or extends. */
  datatype System = System(constructions: State<Artifact>, admissions: State<Admitted>, next: int, events: seq<Event>)

  const EMPTY := System(State(1, []), State(1, []), 1, [])

  function RecordId(a: Admitted): string { a.record.id }
  function RecordOf(a: Admitted): Record { a.record }

  predicate AdmissionsAuthentic(namespace: string, st: State<Admitted>) {
    Sound(namespace, st) && RecordsAgree(st.entries, RecordId, RecordOf)
  }

  /** What the validators of the two input histories accept. */
  predicate InputsAuthentic(n: Spaces, s: System) {
    Sound(n.constructions, s.constructions) && AdmissionsAuthentic(n.admissions, s.admissions)
  }

  datatype Request = Request(artifact: Artifact, constructionId: string)

  /** Clock samples and the fresh identity of one activation; a staging callback may raise. */
  datatype Trial = Trial(request: Request, executionId: string, started: Instant, completed: Instant,
    available: Instant, stagingRaises: bool)

  /** The canonical evaluator: the effective admission among distinct records, if it can
      resolve one. */
  type Resolver = (Artifact, seq<Record>, Instant) -> Option<Record>

  datatype Refusal =
    | HistoryConflict | ConstructionUnavailable | TargetMismatch | AdmissionUnavailable | PriorValidity | TemporalFailure

  datatype Outcome = Refused(reason: Refusal) | Activated(event: Event)

  // ---- Selection ----

  function NamedConstructions(constructions: seq<Construction>, executionId: string, started: Instant): (found: seq<Construction>)
    ensures forall c :: c in found ==> c in constructions && c.executionId == executionId && c.available <= started
  {
    if constructions == [] then []
    else
      var last := constructions[|constructions| - 1];
      NamedConstructions(constructions[..|constructions| - 1], executionId, started)
      + (if last.executionId == executionId && last.available <= started then [last] else [])
  }

  /** `_relevant_admission_entries` */
  function RelevantAdmissions(admissions: seq<Admission>, artifact: Artifact, cutoff: Instant): (found: seq<Admission>)
    ensures forall a :: a in found ==> a in admissions && a.available <= cutoff
  {
    if admissions == [] then []
    else
      var last := admissions[|admissions| - 1];
      RelevantAdmissions(admissions[..|admissions| - 1], artifact, cutoff)
      + (if SameVersion(last.content.artifact, artifact) && last.available <= cutoff then [last] else [])
  }

  /** Records by id, or a conflict when one id carries two contents. */
  function DistinctRecords(history: seq<Admission>): Option<seq<Record>> {
    if history == [] then Some([])
    else match DistinctRecords(history[..|history| - 1])
      case None => None
      case Some(records) =>
        var last := history[|history| - 1].content.record;
        if exists k :: 0 <= k < |records| && records[k].id == last.id && records[k] != last then None
        else if last in records then Some(records) else Some(records + [last])
  }

  function RecordOccurrences(history: seq<Admission>, record: Record): (found: seq<Admission>)
    ensures forall a :: a in found ==> a in history && a.content.record == record
  {
    if history == [] then []
    else
      RecordOccurrences(history[..|history| - 1], record)
      + (if history[|history| - 1].content.record == record then [history[|history| - 1]] else [])
  }

  /** `_resolve_effective_admission_results` with an empty history allowed. */
  datatype Effective = Conflicting | NoAdmission | Effective(record: Record, occurrences: seq<Admission>)

  function EffectiveAdmission(resolve: Resolver, history: seq<Admission>, artifact: Artifact, cutoff: Instant): (r: Effective)
    ensures r.Effective? ==> r.occurrences != []
    ensures r.Effective? ==> forall a :: a in r.occurrences ==> a in history && a.content.record == r.record
  {
    if history == [] then NoAdmission
    else match DistinctRecords(history)
      case None => Conflicting
      case Some(records) =>
        match resolve(artifact, records, cutoff)
        case None => Conflicting
        case Some(record) =>
          var occurrences := RecordOccurrences(history, record);
          if occurrences == [] then Conflicting else Effective(record, occurrences)
  }

  // ---- The owner's validator ----

  predicate Repeats(earlier: Event, later: Event) {
    SameVersion(earlier.artifact, later.artifact) || earlier.executionId == later.executionId
  }

  predicate EventsSound(namespace: string, next: int, events: seq<Event>) {
    && next == |events| + 1
    && (forall i :: 0 <= i < |events| ==> events[i].sequence == i + 1 && events[i].namespace == namespace)
    && (forall i, j :: 0 <= i < j < |events| ==>
          !Repeats(events[i], events[j]) && events[i].available <= events[j].available)
  }

  function LatestAvailability(events: seq<Event>, default: Instant): Instant {
    if events == [] then default else Max(default, events[|events| - 1].available)
  }

  function Max(a: Instant, b: Instant): Instant {
    if a < b then b else a
  }

  predicate HasPrior(events: seq<Event>, artifact: Artifact) {
    exists i :: 0 <= i < |events| && SameVersion(events[i].artifact, artifact)
  }

  predicate OtherReference(history: seq<Admission>, artifact: Artifact) {
    exists i :: 0 <= i < |history| && history[i].content.artifact != artifact
  }

  /** `_issue_locked`, check by check. */
  function Issue(resolve: Resolver, n: Spaces, s: System, t: Trial): Outcome {
    var found := NamedConstructions(s.constructions.entries, t.request.constructionId, t.started);
    var history := RelevantAdmissions(s.admissions.entries, t.request.artifact, t.started);
    if !EventsSound(n.events, s.next, s.events) || !Sound(n.constructions, s.constructions) then Refused(HistoryConflict)
    else if found == [] then Refused(ConstructionUnavailable)
    else if |found| != 1 then Refused(HistoryConflict)
    else if found[0].content != t.request.artifact then Refused(TargetMismatch)
    else if !AdmissionsAuthentic(n.admissions, s.admissions) then Refused(HistoryConflict)
    else match EffectiveAdmission(resolve, history, t.request.artifact, t.started)
      case Conflicting => Refused(HistoryConflict)
      case NoAdmission => Refused(AdmissionUnavailable)
      case Effective(record, occurrences) =>
        if !record.admitted then Refused(AdmissionUnavailable)
        else if occurrences[0].content.construction != NameOf(found[0]) || OtherReference(history, t.request.artifact)
        then Refused(TargetMismatch)
        else if HasPrior(s.events, t.request.artifact) then Refused(PriorValidity)
        else if t.completed < t.started then Refused(TemporalFailure)
        else if t.stagingRaises || record.effective > t.completed then Refused(HistoryConflict)
        else if t.available < LatestAvailability(s.events, t.completed) then Refused(TemporalFailure)
        else Activated(Event(t.request.artifact, t.completed, occurrences[0], t.executionId, n.events, s.next,
          t.started, t.completed, t.available))
  }

  lemma {:induction false} ClashIsNotSound(namespace: string, next: int, events: seq<Event>, k: nat, i: nat)
    requires k < i < |events| && (Repeats(events[k], events[i]) || events[k].available > events[i].available)
    ensures !EventsSound(namespace, next, events)
  {
  }

  predicate SoundUpTo(namespace: string, events: seq<Event>, n: nat)
    requires n <= |events|
  {
    && (forall i :: 0 <= i < n ==> events[i].sequence == i + 1 && events[i].namespace == namespace)
    && (forall i, j :: 0 <= i < j < n ==> !Repeats(events[i], events[j]) && events[i].available <= events[j].available)
  }

  lemma {:induction false} ExtendSound(namespace: string, events: seq<Event>, n: nat)
    requires n < |events| && SoundUpTo(namespace, events, n) && events[n].sequence == n + 1 && events[n].namespace == namespace
    requires forall k :: 0 <= k < n ==> !Repeats(events[k], events[n])
    requires n > 0 ==> events[n - 1].available <= events[n].available
    ensures SoundUpTo(namespace, events, n + 1)
  {
    forall k | 0 <= k < n ensures events[k].available <= events[n].available {
      assert k < n - 1 ==> events[k].available <= events[n - 1].available;
    }
  }

  class ValidityService {
    var next: int
    var events: seq<Event>
    var pending: Option<Event>
    const namespace: string

    constructor (namespace: string)
      ensures this.namespace == namespace && next == 1 && events == [] && pending == None
    {
      this.namespace := namespace;
      next, events, pending := 1, [], None;
    }

    method ValidateHistory() returns (ok: bool)
      ensures ok <==> EventsSound(namespace, next, events)
    {
      var entries := events;
      if next != |entries| + 1 {
        return false;
      }
      var seen: set<Version> := {};
      var ids: set<string> := {};
      var previous: Option<Instant> := None;
      for i := 0 to |entries|
        invariant seen == set k | 0 <= k < i :: VersionOf(entries[k].artifact)
        invariant ids == set k | 0 <= k < i :: entries[k].executionId
        invariant previous == if i == 0 then None else Some(entries[i - 1].available)
        invariant SoundUpTo(namespace, entries, i)
      {
        var item := entries[i];
        if item.sequence != i + 1 || item.namespace != namespace {
          return false;
        }
        if VersionOf(item.artifact) in seen || item.executionId in ids || (previous.Some? && item.available < previous.value) {
          if VersionOf(item.artifact) in seen {
            ghost var k :| 0 <= k < i && VersionOf(entries[k].artifact) == VersionOf(item.artifact);
            ClashIsNotSound(namespace, next, entries, k, i);
          } else if item.executionId in ids {
            ghost var k :| 0 <= k < i && entries[k].executionId == item.executionId;
            ClashIsNotSound(namespace, next, entries, k, i);
          } else {
            ClashIsNotSound(namespace, next, entries, i - 1, i);
          }
          return false;
        }
        ExtendSound(namespace, entries, i);
        seen := seen + {VersionOf(item.artifact)};
        ids := ids + {item.executionId};
        previous := Some(item.available);
      }
      ok := true;
    }

    /** `_resolve_construction`: the construction history is validated as a whole first. */
    method ResolveConstruction(space: string, constructions: State<Artifact>, t: Trial)
        returns (refusal: Option<Refusal>, found: seq<Construction>)
      ensures found == NamedConstructions(constructions.entries, t.request.constructionId, t.started)
      ensures refusal ==
        if !Sound(space, constructions) then Some(HistoryConflict)
        else if found == [] then Some(ConstructionUnavailable)
        else if |found| != 1 then Some(HistoryConflict)
        else if found[0].content != t.request.artifact then Some(TargetMismatch)
        else None
    {
      found := NamedConstructions(constructions.entries, t.request.constructionId, t.started);
      ValidatorsAgree(space, constructions);
      var valid := ValidateRetained(space, constructions.entries);
      refusal :=
        if !valid || !Complete(constructions) then Some(HistoryConflict)
        else if found == [] then Some(ConstructionUnavailable)
        else if |found| != 1 then Some(HistoryConflict)
        else if found[0].content != t.request.artifact then Some(TargetMismatch)
        else None;
    }

    method CheckAdmissions(space: string, admissions: State<Admitted>) returns (ok: bool)
      ensures ok <==> AdmissionsAuthentic(space, admissions)
    {
      ValidatorsAgree(space, admissions);
      ok := ValidateRetained(space, admissions.entries);
      if ok {
        ok := ValidateRecords(admissions.entries, RecordId, RecordOf);
      }
      ok := ok && Complete(admissions);
    }

    /** The first occurrence of the effective admission, if that is ADMITTED and binds the
        construction. */
    method SelectSupport(resolve: Resolver, history: seq<Admission>, named: Named, t: Trial)
        returns (r: Results.Result<Admission, Refusal>)
      ensures r == match EffectiveAdmission(resolve, history, t.request.artifact, t.started)
        case Conflicting => Results.Refused(HistoryConflict)
        case NoAdmission => Results.Refused(AdmissionUnavailable)
        case Effective(record, occurrences) =>
          if !record.admitted then Results.Refused(AdmissionUnavailable)
          else if occurrences[0].content.construction != named || OtherReference(history, t.request.artifact)
          then Results.Refused(TargetMismatch)
          else Results.Ok(occurrences[0])
    {
      var effective := EffectiveAdmission(resolve, history, t.request.artifact, t.started);
      if effective.Conflicting? {
        return Results.Refused(HistoryConflict);
      }
      if effective.NoAdmission? || !effective.record.admitted {
        return Results.Refused(AdmissionUnavailable);
      }
      var support := effective.occurrences[0];
      if support.content.construction != named || OtherReference(history, t.request.artifact) {
        return Results.Refused(TargetMismatch);
      }
      r := Results.Ok(support);
    }

    /** One activation under the three locks: the event is committed, or nothing changes;
        nothing stays pending. */
    method IssueInitialActive(resolve: Resolver, constructionSpace: string, constructions: State<Artifact>,
                              admissionSpace: string, admissions: State<Admitted>, t: Trial)
      returns (outcome: Outcome)
      modifies this
      ensures outcome == Issue(resolve, Spaces(constructionSpace, admissionSpace, namespace),
                               System(constructions, admissions, old(next), old(events)), t)
      ensures outcome.Activated? ==> next == old(next) + 1 && events == old(events) + [outcome.event]
      ensures outcome.Refused? ==> next == old(next) && events == old(events)
      ensures pending == None
    {
      pending := None;
      var ok := ValidateHistory();
      if !ok {
        return Refused(HistoryConflict);
      }
      var refusal, found := ResolveConstruction(constructionSpace, constructions, t);
      if refusal.Some? {
        return Refused(refusal.value);
      }
      ok := CheckAdmissions(admissionSpace, admissions);
      if !ok {
        return Refused(HistoryConflict);
      }
      var history := RelevantAdmissions(admissions.entries, t.request.artifact, t.started);
      var selected := SelectSupport(resolve, history, NameOf(found[0]), t);
      if selected.Refused? {
        return Refused(selected.reason);
      }
      var support := selected.value;
      if HasPrior(events, t.request.artifact) {
        return Refused(PriorValidity);
      }
      if t.completed < t.started {
        return Refused(TemporalFailure);
      }
      if t.stagingRaises || support.content.record.effective > t.completed {
        return Refused(HistoryConflict);
      }
      var staged := Event(t.request.artifact, t.completed, support, t.executionId, namespace, next, t.started, t.completed,
        LatestAvailability(events, t.completed));
      pending := Some(staged);
      if t.available < staged.available {
        pending := None;
        return Refused(TemporalFailure);
      }
      var event := staged.(available := t.available);
      next, events := next + 1, events + [event];
      pending := None;
      outcome := Activated(event);
    }
  }

  // ---- Runs ----

  datatype Step = Construct(construction: Attempt<Artifact>) | Admit(admission: Attempt<Admitted>) | Activate(trial: Trial)

  function Perform(resolve: Resolver, n: Spaces, s: System, step: Step): System {
    match step
    case Construct(a) => s.(constructions := After(Retaining, n.constructions, s.constructions, a))
    case Admit(a) =>
      if AdmissionsAuthentic(n.admissions, s.admissions)
      then s.(admissions := After(Retaining, n.admissions, s.admissions, a)) else s
    case Activate(t) =>
      match Issue(resolve, n, s, t)
      case Refused(_) => s
      case Activated(event) => s.(next := s.next + 1, events := s.events + [event])
  }

  function PerformAll(resolve: Resolver, n: Spaces, s: System, steps: seq<Step>): System
    decreases |steps|
  {
    if steps == [] then s else PerformAll(resolve, n, Perform(resolve, n, s, steps[0]), steps[1..])
  }

  predicate OncePerVersion(events: seq<Event>) {
    forall i, j :: 0 <= i < j < |events| ==> !SameVersion(events[i].artifact, events[j].artifact)
  }

  predicate OrderedAndNumbered(s: System) {
    && s.next == |s.events| + 1
    && (forall i :: 0 <= i < |s.events| ==> s.events[i].sequence == i + 1)
    && (forall i, j :: 0 <= i < j < |s.events| ==> s.events[i].available <= s.events[j].available)
  }

  predicate IsRetained(constructions: seq<Construction>, named: Named) {
    exists i :: 0 <= i < |constructions| && NameOf(constructions[i]) == named
  }

  /** What an ACTIVE event rests on: an ADMITTED result and a construction of this very
      artifact, both retained, both available when the activation started, the admission
      effective no later than the event. */
  predicate WellFounded(s: System, e: Event) {
    && e.support in s.admissions.entries && e.support.content.record.admitted
    && e.support.available <= e.started <= e.completed <= e.available
    && e.support.content.record.effective <= e.effective == e.completed
    && e.support.content.artifact == e.artifact
    && IsRetained(s.constructions.entries, e.support.content.construction)
    && e.support.content.construction.artifact == e.artifact && e.support.content.construction.available <= e.started
  }

  /** What is retained stays retained. */
  lemma {:induction false} StaysWellFounded(s: System, t: System, e: Event)
    requires WellFounded(s, e)
    requires s.constructions.entries <= t.constructions.entries && s.admissions.entries <= t.admissions.entries
    ensures WellFounded(t, e)
  {
    var i :| 0 <= i < |s.constructions.entries| && NameOf(s.constructions.entries[i]) == e.support.content.construction;
    assert t.constructions.entries[i] == s.constructions.entries[i];
  }

  ghost predicate Inv(s: System) {
    && OncePerVersion(s.events) && OrderedAndNumbered(s)
    && forall i :: 0 <= i < |s.events| ==> WellFounded(s, s.events[i])
  }

  lemma {:induction false} IssuedIsWellFounded(resolve: Resolver, n: Spaces, s: System, t: Trial)
    requires Issue(resolve, n, s, t).Activated?
    ensures WellFounded(s, Issue(resolve, n, s, t).event)
    ensures Issue(resolve, n, s, t).event.available >= LatestAvailability(s.events, t.completed)
    ensures !HasPrior(s.events, Issue(resolve, n, s, t).event.artifact)
    ensures Issue(resolve, n, s, t).event.sequence == s.next
  {
    var found := NamedConstructions(s.constructions.entries, t.request.constructionId, t.started);
    var history := RelevantAdmissions(s.admissions.entries, t.request.artifact, t.started);
    var effective := EffectiveAdmission(resolve, history, t.request.artifact, t.started);
    FoundIsRetained(s.constructions.entries, t, found);
    SupportIsRelevant(s.admissions.entries, history, t, effective.record, effective.occurrences);
  }

  lemma {:induction false} FoundIsRetained(constructions: seq<Construction>, t: Trial, found: seq<Construction>)
    requires found == NamedConstructions(constructions, t.request.constructionId, t.started) && found != []
    ensures IsRetained(constructions, NameOf(found[0])) && found[0].available <= t.started
  {
    assert found[0] in found;
    var i :| 0 <= i < |constructions| && constructions[i] == found[0];
  }

  lemma {:induction false} SupportIsRelevant(admissions: seq<Admission>, history: seq<Admission>, t: Trial,
      record: Record, occurrences: seq<Admission>)
    requires history == RelevantAdmissions(admissions, t.request.artifact, t.started) && !OtherReference(history, t.request.artifact)
    requires occurrences != [] && forall a :: a in occurrences ==> a in history && a.content.record == record
    ensures occurrences[0] in admissions && occurrences[0].available <= t.started
    ensures occurrences[0].content.record == record && occurrences[0].content.artifact == t.request.artifact
  {
    var support := occurrences[0];
    assert support in occurrences && support in history;
    var k :| 0 <= k < |history| && history[k] == support;
    assert history[k].content.artifact == t.request.artifact;
  }

  lemma {:induction false} StepKeepsInv(resolve: Resolver, n: Spaces, s: System, step: Step)
    requires Inv(s)
    ensures Inv(Perform(resolve, n, s, step))
    ensures s.events <= Perform(resolve, n, s, step).events
  {
    var after := Perform(resolve, n, s, step);
    if step.Activate? && Issue(resolve, n, s, step.trial).Activated? {
      IssuedIsWellFounded(resolve, n, s, step.trial);
      AppendKeepsInv(s, Issue(resolve, n, s, step.trial).event, after);
    } else {
      forall i | 0 <= i < |after.events| ensures WellFounded(after, after.events[i]) {
        StaysWellFounded(s, after, s.events[i]);
      }
    }
  }

  lemma {:induction false} AppendKeepsInv(s: System, e: Event, after: System)
    requires Inv(s) && WellFounded(s, e) && e.sequence == s.next && !HasPrior(s.events, e.artifact)
    requires e.available >= LatestAvailability(s.events, e.completed)
    requires after == s.(next := s.next + 1, events := s.events + [e])
    ensures Inv(after)
  {
    var n := |s.events|;
    forall i | 0 <= i < n ensures s.events[i].available <= e.available && !SameVersion(s.events[i].artifact, e.artifact) {
      assert i < n - 1 ==> s.events[i].available <= s.events[n - 1].available;
    }
    forall i | 0 <= i <= n ensures WellFounded(after, after.events[i]) {
      assert i < n ==> WellFounded(s, s.events[i]);
    }
  }

  lemma {:induction false} RunKeepsInv(resolve: Resolver, n: Spaces, s: System, steps: seq<Step>)
    requires Inv(s)
    ensures Inv(PerformAll(resolve, n, s, steps)) && s.events <= PerformAll(resolve, n, s, steps).events
    decreases |steps|
  {
    if steps != [] {
      StepKeepsInv(resolve, n, s, steps[0]);
      RunKeepsInv(resolve, n, Perform(resolve, n, s, steps[0]), steps[1..]);
    }
  }

  /** On every run, whatever is published around it and whatever the evaluator resolves,
      each artifact version gets at most one ACTIVE event, and each event is well founded. */
  lemma {:induction false} ActivationIsSafe(resolve: Resolver, n: Spaces, steps: seq<Step>)
    ensures var end := PerformAll(resolve, n, EMPTY, steps);
      OncePerVersion(end.events) && OrderedAndNumbered(end)
      && forall i :: 0 <= i < |end.events| ==> WellFounded(end, end.events[i])
  {
    RunKeepsInv(resolve, n, EMPTY, steps);
  }

  /** Once activated, a version is refused for good, whatever happens in between. */
  lemma {:induction false} SecondActivationIsRefused(resolve: Resolver, n: Spaces, s: System, steps: seq<Step>, t: Trial, e: Event)
    requires Inv(s) && e in s.events && SameVersion(e.artifact, t.request.artifact)
    ensures Issue(resolve, n, PerformAll(resolve, n, s, steps), t).Refused?
  {
    RunKeepsInv(resolve, n, s, steps);
    var end := PerformAll(resolve, n, s, steps);
    var i :| 0 <= i < |s.events| && s.events[i] == e;
    assert end.events[i] == e;
    assert HasPrior(end.events, t.request.artifact);
  }

  /** Once the construction or the admission history repeats an id or a record identity,
      nothing is activated any more. */
  lemma {:induction false} CorruptInputsStopActivation(resolve: Resolver, n: Spaces, s: System, steps: seq<Step>)
    requires !InputsAuthentic(n, s)
    ensures PerformAll(resolve, n, s, steps).events == s.events && !InputsAuthentic(n, PerformAll(resolve, n, s, steps))
    decreases |steps|
  {
    if steps != [] { CorruptInputsStopActivation(resolve, n, Perform(resolve, n, s, steps[0]), steps[1..]); }
  }
}
