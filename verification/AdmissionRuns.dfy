/** Runs in which constructions, validations, freshness evaluations and admissions are
    published in any order, and what re-running a retained admission at its own cutoff finds
    (`polygon_completed_daily_production_admission.py`). */
module AdmissionRuns {
  import opened Basics
  import opened PublicationHistory
  import opened AsOfHistory
  import opened Results
  import opened AdmissionReplay
  import opened AdmissionOutcomes

  /** What an admission records: its construction and the prerequisites it rests on. */
  datatype Admitted = Admitted(construction: string, prerequisites: Prerequisites)

  /** The namespaces of the four histories and the approved policy. */
  datatype Policy = Policy(constructions: string, validations: string, freshness: string, admissions: string,
    concerns: seq<int>, resolve: Resolver, newYorkDate: Instant -> int)

  datatype System = System(constructions: State<Artifact>, validations: State<Validation>,
    freshness: State<Freshness>, admissions: State<Admitted>)

  function ContextOf(p: Policy, construction: string): Context {
    Context(construction, p.concerns, p.resolve, p.newYorkDate)
  }

  function StoresOf(p: Policy, s: System): Stores {
    Stores(p.validations, s.validations, p.freshness, s.freshness)
  }

  /** One issuance: the request, its clock samples, and where its publication may raise. */
  datatype Issuance = Issuance(artifact: Artifact, construction: string, executionId: string,
    started: Instant, completed: Instant, available: Option<Instant>, seams: Seams)

  datatype Event =
    | Construct(construction: Attempt<Artifact>)
    | Validate(validation: Attempt<Validation>)
    | Refresh(freshness: Attempt<Freshness>)
    | Admit(issuance: Issuance)

  predicate IsRetained(st: State<Artifact>, construction: string) {
    exists i :: 0 <= i < |st.entries| && st.entries[i].executionId == construction
  }

  /** `_resolve_prerequisites`: the construction history is validated first, and the named
      construction still retained. */
  function Resolved(p: Policy, s: System, construction: string, cutoff: Instant): Outcome<Prerequisites> {
    if !Sound(p.constructions, s.constructions) || !IsRetained(s.constructions, construction) then Refused(HistoryConflict)
    else Resolve(ContextOf(p, construction), StoresOf(p, s), cutoff)
  }

  /** `_resolve_construction`: the request names a construction of its artifact that was
      available at the start; in a sound history it is the only one of its id. */
  predicate Names(st: State<Artifact>, i: Issuance) {
    exists k :: 0 <= k < |st.entries| && st.entries[k].executionId == i.construction
      && st.entries[k].available <= i.started && st.entries[k].content == i.artifact
  }

  /** Prerequisites are resolved at the start and again at the sampled issuance time; what
      the second resolution found is published with that time as its cutoff. */
  function AfterIssuance(p: Policy, s: System, i: Issuance): System {
    if !Names(s.constructions, i) || Resolved(p, s, i.construction, i.started).Refused? || i.completed < i.started then s
    else match Resolved(p, s, i.construction, i.completed)
      case Refused(_) => s
      case Ok(found) =>
        s.(admissions := After(Retaining, p.admissions, s.admissions,
             Attempt(i.executionId, Admitted(i.construction, found), i.started, i.completed, i.available, i.seams)))
  }

  /** The owners of validations and freshness validate their records before they publish;
      none compares a new id or record with the retained ones. */
  predicate ValidationPublishes(p: Policy, s: System, a: Attempt<Validation>) {
    ValidationsAuthentic(p.validations, s.validations) && Publishes(Retaining, p.validations, s.validations, a)
  }

  predicate FreshnessPublishes(p: Policy, s: System, a: Attempt<Freshness>) {
    FreshnessAuthentic(p.freshness, s.freshness) && Publishes(Retaining, p.freshness, s.freshness, a)
  }

  function Do(p: Policy, s: System, e: Event): System {
    match e
    case Construct(a) => s.(constructions := After(Retaining, p.constructions, s.constructions, a))
    case Validate(a) =>
      if ValidationPublishes(p, s, a) then s.(validations := After(Retaining, p.validations, s.validations, a)) else s
    case Refresh(a) =>
      if FreshnessPublishes(p, s, a) then s.(freshness := After(Retaining, p.freshness, s.freshness, a)) else s
    case Admit(i) => AfterIssuance(p, s, i)
  }

  function DoAll(p: Policy, s: System, run: seq<Event>): System
    decreases |run|
  {
    if run == [] then s else DoAll(p, Do(p, s, run[0]), run[1..])
  }

  // ---- Each step, exactly ----

  /** The prerequisites of a construction as they resolve at a cutoff. */
  function PrerequisitesAt(p: Policy, s: System, construction: string, cutoff: Instant): Outcome<Prerequisites> {
    Resolve(Context(construction, p.concerns, p.resolve, p.newYorkDate),
      Stores(p.validations, s.validations, p.freshness, s.freshness), cutoff)
  }

  /** The construction history is in order and holds the named construction of the artifact,
      available by the start; the prerequisites resolve at the start and at the issuance
      time, which is not earlier; and the admission history can take the entry. */
  predicate MayIssue(p: Policy, s: System, i: Issuance) {
    && Sound(p.constructions, s.constructions)
    && (exists k :: 0 <= k < |s.constructions.entries|
          && s.constructions.entries[k].executionId == i.construction
          && s.constructions.entries[k].content == i.artifact && s.constructions.entries[k].available <= i.started)
    && PrerequisitesAt(p, s, i.construction, i.started).Ok?
    && i.started <= i.completed
    && PrerequisitesAt(p, s, i.construction, i.completed).Ok?
    && MayAppend(Retaining, p.admissions, s.admissions,
         Attempt(i.executionId, Admitted(i.construction, PrerequisitesAt(p, s, i.construction, i.completed).value),
           i.started, i.completed, i.available, i.seams))
  }

  /** An issuance retains one admission, carrying what resolved at the issuance time,
      exactly then, and otherwise changes nothing. */
  lemma {:induction false} IssuesExactly(p: Policy, s: System, i: Issuance)
    ensures Do(p, s, Admit(i)) ==
      if MayIssue(p, s, i) then
        s.(admissions := State(s.admissions.next + 1, s.admissions.entries
          + [Entry(i.executionId, p.admissions, s.admissions.next, i.started, i.completed, i.available.value,
               Admitted(i.construction, PrerequisitesAt(p, s, i.construction, i.completed).value))]))
      else s
  {
    NamedExactly(p, s, i);
    match PrerequisitesAt(p, s, i.construction, i.completed)
    case Refused(_) =>
    case Ok(found) =>
      AppendsExactly(Retaining, p.admissions, s.admissions,
        Attempt(i.executionId, Admitted(i.construction, found), i.started, i.completed, i.available, i.seams));
  }

  lemma {:induction false} NamedExactly(p: Policy, s: System, i: Issuance)
    ensures Names(s.constructions, i) <==>
      exists k :: 0 <= k < |s.constructions.entries|
        && s.constructions.entries[k].executionId == i.construction
        && s.constructions.entries[k].content == i.artifact && s.constructions.entries[k].available <= i.started
    ensures Names(s.constructions, i) ==>
      forall cutoff :: Resolved(p, s, i.construction, cutoff)
        == if Sound(p.constructions, s.constructions) then PrerequisitesAt(p, s, i.construction, cutoff) else Refused(HistoryConflict)
  {
  }

  /** Each prerequisite publication appends its one entry exactly when its history and
      records are in order and can take it, and leaves the other histories alone. */
  lemma {:induction false} PublishesExactly(p: Policy, s: System, c: Attempt<Artifact>, v: Attempt<Validation>, f: Attempt<Freshness>)
    ensures Do(p, s, Construct(c)) ==
      if MayAppend(Retaining, p.constructions, s.constructions, c)
      then s.(constructions := State(s.constructions.next + 1, s.constructions.entries
        + [Entry(c.executionId, p.constructions, s.constructions.next, c.started, c.completed, c.available.value, c.content)]))
      else s
    ensures Do(p, s, Validate(v)) ==
      if OneContentPerId(s.validations.entries) && MayAppend(Retaining, p.validations, s.validations, v)
      then s.(validations := State(s.validations.next + 1, s.validations.entries
        + [Entry(v.executionId, p.validations, s.validations.next, v.started, v.completed, v.available.value, v.content)]))
      else s
    ensures Do(p, s, Refresh(f)) ==
      if FingerprintsAgree(s.freshness.entries) && MayAppend(Retaining, p.freshness, s.freshness, f)
      then s.(freshness := State(s.freshness.next + 1, s.freshness.entries
        + [Entry(f.executionId, p.freshness, s.freshness.next, f.started, f.completed, f.available.value, f.content)]))
      else s
  {
    AppendsExactly(Retaining, p.constructions, s.constructions, c);
    AppendsExactly(Retaining, p.validations, s.validations, v);
    AppendsExactly(Retaining, p.freshness, s.freshness, f);
    ValidationsAuthenticExactly(p.validations, s.validations);
    FreshnessAuthenticExactly(p.freshness, s.freshness);
  }

  /** Resolving at the cutoff of a retained admission finds what it recorded: fingerprint,
      selected records and their occurrences. */
  predicate Replays(p: Policy, s: System, a: Admitted) {
    Resolved(p, s, a.construction, a.prerequisites.cutoff) == Ok(a.prerequisites)
  }

  predicate AllReplay(p: Policy, s: System) {
    forall k :: 0 <= k < |s.admissions.entries| ==> Replays(p, s, s.admissions.entries[k].content)
  }

  // ---- What keeps the histories authentic ----

  /** What every resolution demands of the three histories before it selects anything. */
  predicate Authenticates(p: Policy, s: System) {
    Sound(p.constructions, s.constructions) && Authentic(StoresOf(p, s))
  }

  /** Whatever the event publishes has an execution id and a record identity that clash
      with none retained before it: a caller can tell beforehand. */
  predicate KeepsAuthentic(p: Policy, s: System, e: Event) {
    match e
    case Construct(a) => Publishes(Retaining, p.constructions, s.constructions, a) ==> NewId(s.constructions, a.executionId)
    case Validate(a) => ValidationPublishes(p, s, a) ==>
      NewId(s.validations, a.executionId) && NewRecord(s.validations.entries, ValidationKey, ValidationContent, a.content)
    case Refresh(a) => FreshnessPublishes(p, s, a) ==>
      NewId(s.freshness, a.executionId) && NewRecord(s.freshness.entries, FreshnessKey, FreshnessContent, a.content)
    case Admit(_) => true
  }

  /** One event keeps the histories authentic exactly then. */
  lemma {:induction false} StepAuthenticatesExactly(p: Policy, s: System, e: Event)
    requires Authenticates(p, s)
    ensures Authenticates(p, Do(p, s, e)) <==> KeepsAuthentic(p, s, e)
  {
    match e
    case Construct(a) =>
      if Publishes(Retaining, p.constructions, s.constructions, a) { AppendKeepsIds(p.constructions, s.constructions, a); }
    case Validate(a) =>
      if ValidationPublishes(p, s, a) {
        AppendKeepsIds(p.validations, s.validations, a);
        AppendKeepsRecords(p.validations, s.validations, a, ValidationKey, ValidationContent);
      }
    case Refresh(a) =>
      if FreshnessPublishes(p, s, a) {
        AppendKeepsIds(p.freshness, s.freshness, a);
        AppendKeepsRecords(p.freshness, s.freshness, a, FreshnessKey, FreshnessContent);
      }
    case Admit(_) =>
  }

  /** A history that once fails to authenticate stays as it is, and no admission is issued
      any more. */
  lemma {:induction false} UnauthenticStays(p: Policy, s: System, run: seq<Event>)
    requires !Authenticates(p, s)
    ensures !Authenticates(p, DoAll(p, s, run)) && DoAll(p, s, run).admissions == s.admissions
    decreases |run|
  {
    if run != [] { UnauthenticStays(p, Do(p, s, run[0]), run[1..]); }
  }

  predicate KeepsAuthenticThroughout(p: Policy, s: System, run: seq<Event>)
    decreases |run|
  {
    run == [] || (KeepsAuthentic(p, s, run[0]) && KeepsAuthenticThroughout(p, Do(p, s, run[0]), run[1..]))
  }

  lemma {:induction false} RunAuthenticatesExactly(p: Policy, s: System, run: seq<Event>)
    requires Authenticates(p, s)
    ensures Authenticates(p, DoAll(p, s, run)) <==> KeepsAuthenticThroughout(p, s, run)
    decreases |run|
  {
    if run != [] {
      var t := Do(p, s, run[0]);
      StepAuthenticatesExactly(p, s, run[0]);
      if Authenticates(p, t) {
        RunAuthenticatesExactly(p, t, run[1..]);
      } else {
        UnauthenticStays(p, t, run[1..]);
      }
    }
  }

  // ---- What one publication disturbs ----

  predicate ForMandatoryConcern(p: Policy, construction: string, v: Validation) {
    v.construction == construction && v.record.concern in p.concerns
  }

  /** The publication that `a` would make is relevant to `x` and stamped by its cutoff. */
  predicate ValidationDisturbs(p: Policy, s: System, a: Attempt<Validation>, x: Admitted) {
    && ValidationPublishes(p, s, a)
    && ForMandatoryConcern(p, x.construction, a.content) && a.available.value <= x.prerequisites.cutoff
  }

  predicate FreshnessDisturbs(p: Policy, s: System, a: Attempt<Freshness>, x: Admitted) {
    && FreshnessPublishes(p, s, a)
    && a.content.construction == x.construction && a.content.kind == AdmissionKind
    && a.available.value <= x.prerequisites.cutoff
  }

  predicate Disturbs(p: Policy, s: System, e: Event, x: Admitted) {
    match e
    case Construct(_) => false
    case Validate(a) => ValidationDisturbs(p, s, a, x)
    case Refresh(a) => FreshnessDisturbs(p, s, a, x)
    case Admit(_) => false
  }

  ghost predicate UndisturbedBetween(p: Policy, s: System, t: System, x: Admitted) {
    Undisturbed(ContextOf(p, x.construction), s.validations.entries, t.validations.entries,
      s.freshness.entries, t.freshness.entries, x.prerequisites.cutoff)
  }

  predicate Grows(s: System, t: System) {
    && s.constructions.entries <= t.constructions.entries && s.validations.entries <= t.validations.entries
    && s.freshness.entries <= t.freshness.entries && s.admissions.entries <= t.admissions.entries
  }

  lemma {:induction false} StepUndisturbed(p: Policy, s: System, e: Event, x: Admitted)
    ensures Grows(s, Do(p, s, e))
    ensures UndisturbedBetween(p, s, Do(p, s, e), x) <==> !Disturbs(p, s, e, x)
  {
    var c, t, cutoff := ContextOf(p, x.construction), Do(p, s, e), x.prerequisites.cutoff;
    match e
    case Construct(_) =>
      UntouchedHistory(s.freshness.entries, ForAdmission(c.construction), cutoff);
    case Validate(a) =>
      UntouchedHistory(s.freshness.entries, ForAdmission(c.construction), cutoff);
      forall i | 0 <= i < |c.concerns|
        ensures s.validations.entries <= t.validations.entries
        ensures NoLateArrival(s.validations.entries, t.validations.entries, ForConcern(c.construction, c.concerns[i]), cutoff)
          <==> !(ValidationPublishes(p, s, a)
                 && Visible(Published(p.validations, s.validations, a), ForConcern(c.construction, c.concerns[i]), Some(cutoff)))
      {
        AppendedIsLast(Retaining, p.validations, s.validations, a, ForConcern(c.construction, c.concerns[i]), cutoff);
      }
    case Refresh(a) =>
      AppendedIsLast(Retaining, p.freshness, s.freshness, a, ForAdmission(c.construction), cutoff);
    case Admit(i) =>
      UntouchedHistory(s.freshness.entries, ForAdmission(c.construction), cutoff);
  }

  lemma {:induction false} StillRetained(s: State<Artifact>, t: State<Artifact>, construction: string)
    requires s.entries <= t.entries && IsRetained(s, construction)
    ensures IsRetained(t, construction)
  {
    var i :| 0 <= i < |s.entries| && s.entries[i].executionId == construction;
    assert t.entries[i] == s.entries[i];
  }

  /** In later histories an admission replays exactly when they authenticate and nothing
      relevant to it was added by its cutoff. */
  lemma {:induction false} ReplaysLaterExactly(p: Policy, s: System, t: System, x: Admitted)
    requires Replays(p, s, x) && Grows(s, t)
    ensures Replays(p, t, x) <==> Authenticates(p, t) && UndisturbedBetween(p, s, t, x)
  {
    var c, cutoff := ContextOf(p, x.construction), x.prerequisites.cutoff;
    StillRetained(s.constructions, t.constructions, x.construction);
    if Authenticates(p, t) {
      FingerprintReplaysExactly(c, StoresOf(p, s), StoresOf(p, t), cutoff);
      if UndisturbedBetween(p, s, t, x) { ReplaySelectsTheSame(c, StoresOf(p, s), StoresOf(p, t), cutoff); }
    }
  }

  /** What one event does to a retained admission, seen from before it: the admission still
      replays exactly when nothing relevant is stamped by its cutoff and no id or record
      identity is repeated. */
  lemma {:induction false} ReplayKeptExactly(p: Policy, s: System, e: Event, x: Admitted)
    requires Replays(p, s, x)
    ensures Replays(p, Do(p, s, e), x) <==> !Disturbs(p, s, e, x) && KeepsAuthentic(p, s, e)
  {
    StepUndisturbed(p, s, e, x);
    StepAuthenticatesExactly(p, s, e);
    ReplaysLaterExactly(p, s, Do(p, s, e), x);
  }

  /** The history fingerprint at the cutoff of an admission; none when a history is refused. */
  function Fingerprint(p: Policy, s: System, x: Admitted): Option<Digest> {
    if Sound(p.constructions, s.constructions)
    then FingerprintOf(ContextOf(p, x.construction), StoresOf(p, s), x.prerequisites.cutoff) else None
  }

  lemma {:induction false} FingerprintChangesExactly(p: Policy, s: System, e: Event, x: Admitted)
    requires Authenticates(p, s)
    ensures Fingerprint(p, Do(p, s, e), x) == Fingerprint(p, s, x) <==> !Disturbs(p, s, e, x) && KeepsAuthentic(p, s, e)
  {
    StepUndisturbed(p, s, e, x);
    StepAuthenticatesExactly(p, s, e);
    FingerprintReplaysExactly(ContextOf(p, x.construction), StoresOf(p, s), StoresOf(p, Do(p, s, e)), x.prerequisites.cutoff);
  }

  // ---- Whole runs ----

  /** At no moment of the run is something relevant to `x` published by its cutoff, or a
      retained id or record identity repeated. */
  predicate KeptThroughout(p: Policy, s: System, run: seq<Event>, x: Admitted)
    decreases |run|
  {
    run == [] ||
    (!Disturbs(p, s, run[0], x) && KeepsAuthentic(p, s, run[0]) && KeptThroughout(p, Do(p, s, run[0]), run[1..], x))
  }

  lemma {:induction false} RunGrows(p: Policy, s: System, run: seq<Event>, x: Admitted)
    ensures Grows(s, DoAll(p, s, run))
    decreases |run|
  {
    if run != [] {
      StepUndisturbed(p, s, run[0], x);
      RunGrows(p, Do(p, s, run[0]), run[1..], x);
    }
  }

  lemma {:induction false} UndisturbedEarlier(p: Policy, s: System, t: System, u: System, x: Admitted)
    requires Grows(s, t) && Grows(t, u) && UndisturbedBetween(p, s, u, x)
    ensures UndisturbedBetween(p, s, t, x)
  {
  }

  /** What is refused or found different once is never found again. */
  lemma {:induction false} BrokenStaysBroken(p: Policy, s: System, t: System, run: seq<Event>, x: Admitted)
    requires Replays(p, s, x) && Grows(s, t) && !Replays(p, t, x)
    ensures !Replays(p, DoAll(p, t, run), x)
  {
    var u := DoAll(p, t, run);
    RunGrows(p, t, run, x);
    ReplaysLaterExactly(p, s, t, x);
    ReplaysLaterExactly(p, s, u, x);
    if Authenticates(p, t) {
      if UndisturbedBetween(p, s, u, x) { UndisturbedEarlier(p, s, t, u, x); }
    } else {
      UnauthenticStays(p, t, run);
    }
  }

  /** On every interleaving of the four kinds of publication, whatever the clocks and the
      ids: an admission replays at the end exactly when every single event kept it. */
  lemma {:induction false} RunReplaysExactly(p: Policy, s: System, run: seq<Event>, x: Admitted)
    requires Replays(p, s, x)
    ensures Replays(p, DoAll(p, s, run), x) <==> KeptThroughout(p, s, run, x)
    decreases |run|
  {
    if run != [] {
      var t := Do(p, s, run[0]);
      StepUndisturbed(p, s, run[0], x);
      ReplayKeptExactly(p, s, run[0], x);
      if Replays(p, t, x) {
        RunReplaysExactly(p, t, run[1..], x);
      } else {
        BrokenStaysBroken(p, s, t, run[1..], x);
      }
    }
  }

  // ---- Clocks that move on ----

  /** The availability sample of a prerequisite publication. */
  function Sample(e: Event): Option<Instant> {
    match e
    case Construct(_) => None
    case Validate(a) => a.available
    case Refresh(a) => a.available
    case Admit(_) => None
  }

  predicate SampledAfter(e: Event, instant: Instant) {
    Sample(e).Some? ==> instant < Sample(e).value
  }

  /** The clock has moved on when a prerequisite is published after an issuance. */
  predicate ClocksAdvance(run: seq<Event>) {
    forall i, j :: 0 <= i < j < |run| && run[i].Admit? ==> SampledAfter(run[j], run[i].issuance.completed)
  }

  /** The sample lies after every cutoff retained so far. */
  predicate BeforeSample(s: System, e: Event) {
    forall k :: 0 <= k < |s.admissions.entries| ==> SampledAfter(e, s.admissions.entries[k].content.prerequisites.cutoff)
  }

  predicate BeforeSamples(s: System, run: seq<Event>) {
    forall j :: 0 <= j < |run| ==> BeforeSample(s, run[j])
  }

  lemma {:induction false} IssuedReplays(p: Policy, s: System, i: Issuance, k: nat)
    requires AllReplay(p, s) && k < |AfterIssuance(p, s, i).admissions.entries|
    ensures var x := AfterIssuance(p, s, i).admissions.entries[k].content;
      && Replays(p, s, x)
      && (k < |s.admissions.entries| ==> x == s.admissions.entries[k].content)
      && (k >= |s.admissions.entries| ==> x.prerequisites.cutoff == i.completed)
  {
  }

  lemma {:induction false} StepReplays(p: Policy, s: System, e: Event)
    requires AllReplay(p, s) && BeforeSample(s, e) && KeepsAuthentic(p, s, e)
    ensures AllReplay(p, Do(p, s, e))
  {
    var t := Do(p, s, e);
    forall k | 0 <= k < |t.admissions.entries| ensures Replays(p, t, t.admissions.entries[k].content) {
      if e.Admit? {
        IssuedReplays(p, s, e.issuance, k);
      }
      ReplayKeptExactly(p, s, e, t.admissions.entries[k].content);
    }
  }

  lemma {:induction false} HypothesesCarryOver(p: Policy, s: System, run: seq<Event>)
    requires run != [] && AllReplay(p, s) && BeforeSamples(s, run) && ClocksAdvance(run)
    ensures BeforeSamples(Do(p, s, run[0]), run[1..]) && ClocksAdvance(run[1..])
  {
    var e, rest := run[0], run[1..];
    var t := Do(p, s, e);
    forall j | 0 <= j < |rest| ensures BeforeSample(t, rest[j]) {
      assert rest[j] == run[j + 1] && BeforeSample(s, run[j + 1]);
      forall k | 0 <= k < |t.admissions.entries| ensures SampledAfter(rest[j], t.admissions.entries[k].content.prerequisites.cutoff) {
        if e.Admit? { IssuedReplays(p, s, e.issuance, k); }
      }
    }
    forall i, j | 0 <= i < j < |rest| && rest[i].Admit? ensures SampledAfter(rest[j], rest[i].issuance.completed) {
      assert rest[i] == run[i + 1] && rest[j] == run[j + 1];
    }
  }

  lemma {:induction false} AuthenticRunReplays(p: Policy, s: System, run: seq<Event>)
    requires AllReplay(p, s) && BeforeSamples(s, run) && ClocksAdvance(run) && KeepsAuthenticThroughout(p, s, run)
    ensures AllReplay(p, DoAll(p, s, run))
    decreases |run|
  {
    if run != [] {
      StepReplays(p, s, run[0]);
      HypothesesCarryOver(p, s, run);
      AuthenticRunReplays(p, Do(p, s, run[0]), run[1..]);
    }
  }

  /** As long as the clocks have moved on when a prerequisite is published after an
      issuance, every admission retained at the end of any interleaving finds its recorded
      fingerprint, selection and occurrences again at its own cutoff, exactly when no
      publication repeated a retained execution id or record identity; otherwise none of
      them does. */
  lemma {:induction false} AdmissionsReplayOnEveryRun(p: Policy, s: System, run: seq<Event>)
    requires Authenticates(p, s) && AllReplay(p, s) && BeforeSamples(s, run) && ClocksAdvance(run)
    ensures KeepsAuthenticThroughout(p, s, run) ==> AllReplay(p, DoAll(p, s, run))
    ensures !KeepsAuthenticThroughout(p, s, run) ==> forall x :: !Replays(p, DoAll(p, s, run), x)
  {
    RunAuthenticatesExactly(p, s, run);
    if KeepsAuthenticThroughout(p, s, run) { AuthenticRunReplays(p, s, run); }
  }

  /** From histories without an admission, when every prerequisite published after an issuance
      is sampled after that issuance: every admission retained at the end resolves at its own
      cutoff to what it recorded, unless a publication repeated a retained id or record. */
  lemma {:induction false} AdmissionsReplayFromTheStart(p: Policy, s: System, run: seq<Event>)
    requires Authenticates(p, s) && s.admissions.entries == [] && KeepsAuthenticThroughout(p, s, run)
    requires forall i, j :: 0 <= i < j < |run| && run[i].Admit? && run[j].Validate? && run[j].validation.available.Some? ==>
      run[i].issuance.completed < run[j].validation.available.value
    requires forall i, j :: 0 <= i < j < |run| && run[i].Admit? && run[j].Refresh? && run[j].freshness.available.Some? ==>
      run[i].issuance.completed < run[j].freshness.available.value
    ensures forall k :: 0 <= k < |DoAll(p, s, run).admissions.entries| ==>
      FoundAgain(p, DoAll(p, s, run), DoAll(p, s, run).admissions.entries[k].content)
  {
    forall i, j | 0 <= i < j < |run| && run[i].Admit? ensures SampledAfter(run[j], run[i].issuance.completed) {
    }
    forall j | 0 <= j < |run| ensures BeforeSample(s, run[j]) {
    }
    AdmissionsReplayOnEveryRun(p, s, run);
    var end := DoAll(p, s, run);
    forall k | 0 <= k < |end.admissions.entries| ensures FoundAgain(p, end, end.admissions.entries[k].content) {
      assert Replays(p, end, end.admissions.entries[k].content);
      ReplayIsFoundAgain(p, end, end.admissions.entries[k].content);
    }
  }

  /** The prerequisites of the construction resolve at the recorded cutoff to what was recorded. */
  predicate FoundAgain(p: Policy, s: System, x: Admitted) {
    && Sound(p.constructions, s.constructions) && IsRetained(s.constructions, x.construction)
    && PrerequisitesAt(p, s, x.construction, x.prerequisites.cutoff) == Ok(x.prerequisites)
  }

  lemma {:induction false} ReplayIsFoundAgain(p: Policy, s: System, x: Admitted)
    ensures Replays(p, s, x) <==> FoundAgain(p, s, x)
  {
  }

  /** Repeating a retained id breaks every replay for good, however late it is stamped. */
  lemma {:induction false} RepeatedIdBreaksEveryReplay(p: Policy, s: System, a: Attempt<Freshness>, later: seq<Event>, x: Admitted)
    requires FreshnessPublishes(p, s, a) && !NewId(s.freshness, a.executionId)
    ensures !Replays(p, DoAll(p, s, [Refresh(a)] + later), x)
    ensures DoAll(p, s, [Refresh(a)] + later).admissions == s.admissions
  {
    var run := [Refresh(a)] + later;
    assert run[1..] == later;
    AppendKeepsIds(p.freshness, s.freshness, a);
    UnauthenticStays(p, Do(p, s, Refresh(a)), later);
  }

  /** A prerequisite of the same construction published after the issuance, but stamped at
      its very cutoff, makes the recorded fingerprint unreachable for good. */
  lemma {:induction false} StampAtCutoffBreaksReplay(p: Policy, s: System, a: Attempt<Validation>, later: seq<Event>, x: Admitted)
    requires Replays(p, s, x) && ValidationPublishes(p, s, a)
    requires ForMandatoryConcern(p, x.construction, a.content) && a.available.value == x.prerequisites.cutoff
    ensures !Replays(p, DoAll(p, s, [Validate(a)] + later), x)
  {
    RunReplaysExactly(p, s, [Validate(a)] + later, x);
  }
}
