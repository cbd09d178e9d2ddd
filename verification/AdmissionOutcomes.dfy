/** When an admission resolves its prerequisites, and which refusal it gives otherwise: the
    outcome in terms of the retained results alone. */
module AdmissionOutcomes {
  import opened Basics
  import opened Results
  import opened PublicationHistory
  import opened AsOfHistory
  import opened AdmissionReplay

  // ---- The validations of one concern ----

  ghost predicate HasValidation(history: Validations, record: ValidationRecord) {
    exists i :: 0 <= i < |history| && history[i].content.record == record
  }

  predicate OneContentPerId(history: Validations) {
    forall i, j :: 0 <= i < |history| && 0 <= j < |history|
      && history[i].content.record.id == history[j].content.record.id
      ==> history[i].content.record == history[j].content.record
  }

  predicate AllValidationsFit(history: Validations) {
    forall i :: 0 <= i < |history| ==> history[i].content.fit == Fits
  }

  predicate NoRepetition(records: seq<ValidationRecord>) {
    forall i, j :: 0 <= i < j < |records| ==> records[i] != records[j]
  }

  lemma {:induction false} HasValidationStep(history: Validations, record: ValidationRecord)
    requires history != []
    ensures HasValidation(history, record)
      <==> HasValidation(history[..|history| - 1], record) || history[|history| - 1].content.record == record
  {
    var front := history[..|history| - 1];
    if i :| 0 <= i < |front| && front[i].content.record == record {
      assert history[i] == front[i];
    }
    if i :| 0 <= i < |front| && history[i].content.record == record {
      assert front[i] == history[i];
    }
  }

  /** What was gathered is what is retained, once each. */
  lemma {:induction false} GatheredHolds(history: Validations)
    requires RecordsOf(history).Ok?
    ensures NoRepetition(RecordsOf(history).value)
    ensures forall r :: r in RecordsOf(history).value <==> HasValidation(history, r)
  {
    if history != [] {
      GatheredHolds(history[..|history| - 1]);
      forall r: ValidationRecord ensures r in RecordsOf(history).value <==> HasValidation(history, r) {
        HasValidationStep(history, r);
      }
    }
  }

  /** A record id of the last entry stands for another content before it. */
  predicate LastClashes(history: Validations)
    requires history != []
  {
    exists i :: 0 <= i < |history| - 1
      && history[i].content.record.id == history[|history| - 1].content.record.id
      && history[i].content.record != history[|history| - 1].content.record
  }

  lemma {:induction false} ClashesExactly(history: Validations)
    requires history != [] && RecordsOf(history[..|history| - 1]).Ok?
    ensures Clashes(RecordsOf(history[..|history| - 1]).value, history[|history| - 1].content.record) <==> LastClashes(history)
  {
    var front, last := history[..|history| - 1], history[|history| - 1].content.record;
    var records := RecordsOf(front).value;
    GatheredHolds(front);
    if k :| 0 <= k < |records| && records[k].id == last.id && records[k] != last {
      assert records[k] in records;
      var i :| 0 <= i < |front| && front[i].content.record == records[k];
      assert history[i] == front[i];
    }
    if i :| 0 <= i < |front| && history[i].content.record.id == last.id && history[i].content.record != last {
      assert front[i] == history[i] && HasValidation(front, history[i].content.record);
      var k :| 0 <= k < |records| && records[k] == history[i].content.record;
    }
  }

  /** Entry by entry: the first result that does not fit, or whose record id stands for
      another content before it, decides the refusal. */
  lemma {:induction false} GathersInOrder(history: Validations)
    ensures RecordsOf([]) == Ok([])
    ensures history != [] && RecordsOf(history[..|history| - 1]).Refused? ==>
      RecordsOf(history) == RecordsOf(history[..|history| - 1])
    ensures history != [] && RecordsOf(history[..|history| - 1]).Ok? ==>
      var before, last := RecordsOf(history[..|history| - 1]).value, history[|history| - 1].content;
      RecordsOf(history) ==
        match last.fit
        case WrongContext => Refused(PolicyMismatch)
        case Broken => Refused(HistoryConflict)
        case Fits =>
          if LastClashes(history) then Refused(HistoryConflict)
          else Ok(before + (if HasValidation(history[..|history| - 1], last.record) then [] else [last.record]))
  {
    if history != [] && RecordsOf(history[..|history| - 1]).Ok? {
      ClashesExactly(history);
      GatheredHolds(history[..|history| - 1]);
      var before := RecordsOf(history[..|history| - 1]).value;
      assert before + [] == before;
    }
  }

  /** Gathering succeeds exactly when every result fits and no id has two contents. */
  lemma {:induction false} GathersExactly(history: Validations)
    ensures RecordsOf(history).Ok? <==> AllValidationsFit(history) && OneContentPerId(history)
  {
    if history != [] {
      var front := history[..|history| - 1];
      GathersExactly(front);
      GathersInOrder(history);
      FrontAgrees(history);
    }
  }

  lemma {:induction false} FrontAgrees(history: Validations)
    requires history != []
    ensures OneContentPerId(history) <==> OneContentPerId(history[..|history| - 1]) && !LastClashes(history)
    ensures AllValidationsFit(history)
      <==> AllValidationsFit(history[..|history| - 1]) && history[|history| - 1].content.fit == Fits
  {
    var front := history[..|history| - 1];
    assert forall i :: 0 <= i < |front| ==> front[i] == history[i];
    if AllValidationsFit(front) && history[|history| - 1].content.fit == Fits {
      forall i | 0 <= i < |history| ensures history[i].content.fit == Fits {
        if i < |front| { assert front[i].content.fit == Fits; }
      }
    }
  }

  lemma {:induction false} EligibleAppend(a: seq<ValidationRecord>, b: seq<ValidationRecord>, cutoff: Instant)
    ensures EligibleRecords(a + b, cutoff) == EligibleRecords(a, cutoff) + EligibleRecords(b, cutoff)
    decreases |b|
  {
    if b == [] {
      assert a + b == a;
    } else {
      var front := b[..|b| - 1];
      EligibleAppend(a, front, cutoff);
      assert (a + b)[..|a + b| - 1] == a + front;
    }
  }

  /** Wherever a record stands, it is kept in its place exactly when it was recorded and took
      effect by the cutoff. */
  lemma {:induction false} EligibleExactly(before: seq<ValidationRecord>, record: ValidationRecord, after: seq<ValidationRecord>,
      cutoff: Instant)
    ensures EligibleRecords([], cutoff) == []
    ensures EligibleRecords(before + [record] + after, cutoff) == EligibleRecords(before, cutoff)
      + (if record.recorded <= cutoff && record.effective <= cutoff then [record] else [])
      + EligibleRecords(after, cutoff)
  {
    EligibleAppend(before + [record], after, cutoff);
    EligibleAppend(before, [record], cutoff);
    assert [record][..0] == [];
  }

  /** The records that the evaluator of a concern is given. */
  function Candidates(history: Validations, cutoff: Instant): seq<ValidationRecord> {
    match RecordsOf(history)
    case Ok(records) => EligibleRecords(records, cutoff)
    case Refused(_) => []
  }

  lemma {:induction false} EligibleAreMembers(records: seq<ValidationRecord>, cutoff: Instant)
    ensures forall r :: r in EligibleRecords(records, cutoff) <==> r in records && r.recorded <= cutoff && r.effective <= cutoff
  {
    if records != [] {
      var front, last := records[..|records| - 1], records[|records| - 1];
      EligibleAreMembers(front, cutoff);
      assert records == front + [last];
    }
  }

  /** Every retained record in effect by the cutoff is a candidate, and nothing else is. */
  lemma {:induction false} CandidatesExactly(history: Validations, cutoff: Instant, record: ValidationRecord)
    requires AllValidationsFit(history) && OneContentPerId(history)
    ensures record in Candidates(history, cutoff)
      <==> HasValidation(history, record) && record.recorded <= cutoff && record.effective <= cutoff
  {
    GathersExactly(history);
    GatheredHolds(history);
    EligibleAreMembers(RecordsOf(history).value, cutoff);
  }

  /** The evaluator finds a passing record and reports no failure. */
  ghost predicate Passes(resolve: Resolver, history: Validations, concern: int, cutoff: Instant, record: ValidationRecord) {
    && resolve(Candidates(history, cutoff), concern) == Resolution(Some(record), false)
    && record.disposition == Passed
  }

  function CarriesRecord(record: ValidationRecord): Relevance<Validation> {
    (e: Entry<Validation>) => e.content.record == record
  }

  lemma {:induction false} CarriersFound(history: Validations, record: ValidationRecord)
    ensures Select(history, WithRecord(record), None) != [] <==> HasValidation(history, record)
  {
    SelectNothing(history, WithRecord(record), None);
  }

  /** A concern is met by `record` exactly when every visible result fits, no id has two
      contents and the evaluator passes that record; its occurrences are all that carry it. */
  lemma {:induction false} ChoosesExactly(resolve: Resolver, history: Validations, concern: int, cutoff: Instant, chosen: Chosen)
    requires PicksEligible(resolve)
    ensures ChooseValidation(resolve, history, concern, cutoff) == Ok(chosen) <==>
      && AllValidationsFit(history) && OneContentPerId(history)
      && Passes(resolve, history, concern, cutoff, chosen.record)
      && chosen.occurrences == Select(history, CarriesRecord(chosen.record), None)
  {
    GathersExactly(history);
    if RecordsOf(history).Ok? {
      SameRelevance(history, WithRecord(chosen.record), CarriesRecord(chosen.record), None);
      var candidates := Candidates(history, cutoff);
      var resolution := resolve(candidates, concern);
      if resolution.winner.Some? {
        assert resolution.winner.value in candidates;
        CandidatesExactly(history, cutoff, resolution.winner.value);
        CarriersFound(history, resolution.winner.value);
      }
    }
  }

  /** The refusals of a concern whose results fit and agree. */
  lemma {:induction false} ConcernRefusals(resolve: Resolver, history: Validations, concern: int, cutoff: Instant)
    requires PicksEligible(resolve) && AllValidationsFit(history) && OneContentPerId(history)
    ensures var candidates, outcome := Candidates(history, cutoff), ChooseValidation(resolve, history, concern, cutoff);
      match resolve(candidates, concern)
      case Resolution(None, _) => outcome == Refused(if |candidates| == 0 then ValidationUnavailable else HistoryConflict)
      case Resolution(Some(winner), failed) =>
        && (winner.disposition == Rejected ==> outcome == Refused(ValidationRejected))
        && (winner.disposition == UnableToValidate ==> outcome == Refused(ValidationUnable))
        && (winner.disposition == Passed && failed ==> outcome == Refused(HistoryConflict))
        && (winner.disposition == Passed && !failed ==> outcome.Ok?)
  {
    GathersExactly(history);
    var candidates := Candidates(history, cutoff);
    var resolution := resolve(candidates, concern);
    if resolution.winner.Some? {
      assert resolution.winner.value in candidates;
      CandidatesExactly(history, cutoff, resolution.winner.value);
      CarriersFound(history, resolution.winner.value);
    }
  }

  // ---- The freshness ----

  function CarriesEvaluation(record: FreshnessRecord): Relevance<Freshness> {
    (e: Entry<Freshness>) => e.content.record == record
  }

  /** The last entry repeats the fingerprint of an earlier usable one with another content. */
  predicate LastFreshClashes(history: Freshnesses, cutoff: Instant)
    requires history != []
  {
    exists i :: 0 <= i < |history| - 1 && history[i].content.record.evaluated <= cutoff
      && history[i].content.record.fingerprint == history[|history| - 1].content.record.fingerprint
      && history[i].content.record != history[|history| - 1].content.record
  }

  lemma {:induction false} FreshClashesExactly(history: Freshnesses, cutoff: Instant)
    requires history != [] && FreshRecordsOf(history[..|history| - 1], cutoff).Ok?
    ensures FreshClash(FreshRecordsOf(history[..|history| - 1], cutoff).value, history[|history| - 1].content.record)
      <==> LastFreshClashes(history, cutoff)
  {
    var front, last := history[..|history| - 1], history[|history| - 1].content.record;
    var records := FreshRecordsOf(front, cutoff).value;
    FreshRecordsHold(front, cutoff);
    if k :| 0 <= k < |records| && records[k].fingerprint == last.fingerprint && records[k] != last {
      assert records[k] in records;
      var i :| 0 <= i < |front| && front[i].content.record == records[k];
      assert history[i] == front[i];
    }
    if LastFreshClashes(history, cutoff) {
      var i :| 0 <= i < |front| && history[i].content.record.evaluated <= cutoff
        && history[i].content.record.fingerprint == last.fingerprint && history[i].content.record != last;
      assert front[i] == history[i] && Evaluated(front, cutoff, history[i].content.record);
      var k :| 0 <= k < |records| && records[k] == history[i].content.record;
    }
  }

  /** Entry by entry, as for validations; evaluations after the cutoff are left aside. */
  lemma {:induction false} FreshGathersInOrder(history: Freshnesses, cutoff: Instant)
    ensures FreshRecordsOf([], cutoff) == Ok([])
    ensures history != [] && FreshRecordsOf(history[..|history| - 1], cutoff).Refused? ==>
      FreshRecordsOf(history, cutoff) == FreshRecordsOf(history[..|history| - 1], cutoff)
    ensures history != [] && FreshRecordsOf(history[..|history| - 1], cutoff).Ok? ==>
      var before, last := FreshRecordsOf(history[..|history| - 1], cutoff).value, history[|history| - 1].content;
      FreshRecordsOf(history, cutoff) ==
        match last.fit
        case WrongContext => Refused(PolicyMismatch)
        case Broken => Refused(HistoryConflict)
        case Fits =>
          if LastFreshClashes(history, cutoff) then Refused(HistoryConflict)
          else if last.record.evaluated > cutoff || HasRecord(history[..|history| - 1], last.record) then Ok(before)
          else Ok(before + [last.record])
  {
    if history != [] && FreshRecordsOf(history[..|history| - 1], cutoff).Ok? {
      FreshClashesExactly(history, cutoff);
      FreshRecordsHold(history[..|history| - 1], cutoff);
    }
  }

  lemma {:induction false} ConflictExactly(newYorkDate: Instant -> int, history: Freshnesses, cutoff: Instant)
    requires AllFit(history) && FingerprintsAgree(history)
    ensures ChooseFreshness(newYorkDate, history, cutoff) == Refused(HistoryConflict)
      <==> (exists r :: Evaluated(history, cutoff, r)) && !exists r :: UniqueLatest(history, cutoff, r)
  {
    NoConflictArises(history, cutoff);
    FreshRecordsHold(history, cutoff);
    var records := FreshRecordsOf(history, cutoff).value;
    if records == [] {
      assert forall r :: Evaluated(history, cutoff, r) <==> r in records;
    } else {
      assert records[0] in records && Evaluated(history, cutoff, records[0]);
      var latest := LatestFreshness(history, cutoff);
      if latest.Ok? {
        WinnerIsUniqueLatest(history, cutoff, latest.value);
        SelectNothing(history, WithFreshness(latest.value), None);
      } else if r :| UniqueLatest(history, cutoff, r) {
        WinnerIsUniqueLatest(history, cutoff, r);
      }
    }
  }

  /** Each refusal, and the one success, of the admission freshness, when the retained
      evaluations fit and their fingerprints agree. */
  lemma {:induction false} FreshnessExactly(newYorkDate: Instant -> int, history: Freshnesses, cutoff: Instant, record: FreshnessRecord)
    requires AllFit(history) && FingerprintsAgree(history)
    ensures ChooseFreshness(newYorkDate, history, cutoff) == Refused(FreshnessUnavailable)
      <==> forall r :: HasRecord(history, r) ==> r.evaluated > cutoff
    ensures ChooseFreshness(newYorkDate, history, cutoff) == Refused(HistoryConflict)
      <==> (exists r :: Evaluated(history, cutoff, r)) && !exists r :: UniqueLatest(history, cutoff, r)
    ensures UniqueLatest(history, cutoff, record) ==>
      ChooseFreshness(newYorkDate, history, cutoff) ==
        if !record.result then Refused(FreshnessFailed)
        else if newYorkDate(record.evaluated) != newYorkDate(cutoff) then Refused(TemporalPrerequisite)
        else Ok(ChosenFreshness(record, Select(history, CarriesEvaluation(record), None)))
  {
    NoConflictArises(history, cutoff);
    FreshRecordsHold(history, cutoff);
    var records := FreshRecordsOf(history, cutoff).value;
    if records != [] { assert records[0] in records && Evaluated(history, cutoff, records[0]); }
    assert records == [] <==> forall r :: HasRecord(history, r) ==> r.evaluated > cutoff by {
      if records == [] {
        forall r | HasRecord(history, r) ensures r.evaluated > cutoff {
          assert r !in records;
        }
      }
    }
    WinnerIsUniqueLatest(history, cutoff, record);
    ConflictExactly(newYorkDate, history, cutoff);
    if UniqueLatest(history, cutoff, record) {
      SameRelevance(history, WithFreshness(record), CarriesEvaluation(record), None);
      SelectNothing(history, WithFreshness(record), None);
    }
  }

  // ---- The whole resolution ----

  /** The results of one construction and concern that were available by the cutoff. */
  function VisibleValidations(c: Context, s: Stores, concern: int, cutoff: Instant): Validations {
    Select(s.validations.entries,
      (e: Entry<Validation>) => e.content.construction == c.construction && e.content.record.concern == concern, Some(cutoff))
  }

  function VisibleFreshness(c: Context, s: Stores, cutoff: Instant): Freshnesses {
    Select(s.freshness.entries,
      (e: Entry<Freshness>) => e.content.construction == c.construction && e.content.kind == AdmissionKind, Some(cutoff))
  }

  lemma {:induction false} VisibleAreSelected(c: Context, s: Stores, cutoff: Instant)
    ensures forall i :: 0 <= i < |c.concerns| ==>
      ConcernHistories(c, s.validations.entries, cutoff)[i] == VisibleValidations(c, s, c.concerns[i], cutoff)
    ensures FreshnessHistory(c, s.freshness.entries, cutoff) == VisibleFreshness(c, s, cutoff)
  {
    forall i | 0 <= i < |c.concerns|
      ensures ConcernHistories(c, s.validations.entries, cutoff)[i] == VisibleValidations(c, s, c.concerns[i], cutoff)
    {
      SameRelevance(s.validations.entries, ForConcern(c.construction, c.concerns[i]),
        (e: Entry<Validation>) => e.content.construction == c.construction && e.content.record.concern == c.concerns[i], Some(cutoff));
    }
    SameRelevance(s.freshness.entries, ForAdmission(c.construction),
      (e: Entry<Freshness>) => e.content.construction == c.construction && e.content.kind == AdmissionKind, Some(cutoff));
  }

  /** Both whole histories are in order, and no identity stands for two contents. */
  predicate HistoriesInOrder(s: Stores) {
    && Sound(s.validationSpace, s.validations) && OneContentPerId(s.validations.entries)
    && Sound(s.freshnessSpace, s.freshness) && FingerprintsAgree(s.freshness.entries)
  }

  lemma {:induction false} ValidationsAuthenticExactly(namespace: string, st: State<Validation>)
    ensures ValidationsAuthentic(namespace, st) <==> Sound(namespace, st) && OneContentPerId(st.entries)
  {
    var v := st.entries;
    if RecordsAgree(v, ValidationKey, ValidationContent) {
      forall i, j | 0 <= i < |v| && 0 <= j < |v| && v[i].content.record.id == v[j].content.record.id
        ensures v[i].content.record == v[j].content.record
      {
        var low, high := if i < j then i else j, if i < j then j else i;
        assert low < high ==> ValidationKey(v[low].content) == ValidationKey(v[high].content);
      }
    }
  }

  lemma {:induction false} FreshnessAuthenticExactly(namespace: string, st: State<Freshness>)
    ensures FreshnessAuthentic(namespace, st) <==> Sound(namespace, st) && FingerprintsAgree(st.entries)
  {
    var f := st.entries;
    if RecordsAgree(f, FreshnessKey, FreshnessContent) {
      forall i, j | 0 <= i < |f| && 0 <= j < |f| && f[i].content.record.fingerprint == f[j].content.record.fingerprint
        ensures f[i].content.record == f[j].content.record
      {
        var low, high := if i < j then i else j, if i < j then j else i;
        assert low < high ==> FreshnessKey(f[low].content) == FreshnessKey(f[high].content);
      }
    }
  }

  lemma {:induction false} AuthenticExactly(s: Stores)
    ensures Authentic(s) <==> HistoriesInOrder(s)
  {
    ValidationsAuthenticExactly(s.validationSpace, s.validations);
    FreshnessAuthenticExactly(s.freshnessSpace, s.freshness);
  }

  /** `chosen` meets one concern. */
  ghost predicate Meets(c: Context, s: Stores, concern: int, cutoff: Instant, chosen: Chosen) {
    var visible := VisibleValidations(c, s, concern, cutoff);
    && AllValidationsFit(visible) && Passes(c.resolve, visible, concern, cutoff, chosen.record)
    && chosen.occurrences == Select(visible, CarriesRecord(chosen.record), None)
  }

  /** `chosen` is the admission freshness. */
  ghost predicate IsFresh(c: Context, s: Stores, cutoff: Instant, chosen: ChosenFreshness) {
    var visible := VisibleFreshness(c, s, cutoff);
    && AllFit(visible) && UniqueLatest(visible, cutoff, chosen.record)
    && chosen.record.result && c.newYorkDate(chosen.record.evaluated) == c.newYorkDate(cutoff)
    && chosen.occurrences == Select(visible, CarriesEvaluation(chosen.record), None)
  }

  lemma {:induction false} VisibleAgree(c: Context, s: Stores, concern: int, cutoff: Instant)
    requires HistoriesInOrder(s)
    ensures OneContentPerId(VisibleValidations(c, s, concern, cutoff)) && FingerprintsAgree(VisibleFreshness(c, s, cutoff))
  {
    SelectionAgrees(s.validations.entries,
      (e: Entry<Validation>) => e.content.construction == c.construction && e.content.record.concern == concern, cutoff);
    FreshSelectionAgrees(s.freshness.entries,
      (e: Entry<Freshness>) => e.content.construction == c.construction && e.content.kind == AdmissionKind, cutoff);
  }

  lemma {:induction false} SelectionAgrees(entries: Validations, relevant: Relevance<Validation>, cutoff: Instant)
    requires OneContentPerId(entries)
    ensures OneContentPerId(Select(entries, relevant, Some(cutoff)))
  {
    var v := Select(entries, relevant, Some(cutoff));
    SelectHolds(entries, relevant, Some(cutoff));
    forall i, j | 0 <= i < |v| && 0 <= j < |v| && v[i].content.record.id == v[j].content.record.id
      ensures v[i].content.record == v[j].content.record
    {
      var k :| 0 <= k < |entries| && entries[k] == v[i];
      var l :| 0 <= l < |entries| && entries[l] == v[j];
      assert entries[k].content.record == entries[l].content.record;
    }
  }

  lemma {:induction false} FreshSelectionAgrees(entries: Freshnesses, relevant: Relevance<Freshness>, cutoff: Instant)
    requires FingerprintsAgree(entries)
    ensures FingerprintsAgree(Select(entries, relevant, Some(cutoff)))
  {
    var f := Select(entries, relevant, Some(cutoff));
    SelectHolds(entries, relevant, Some(cutoff));
    forall i, j | 0 <= i < |f| && 0 <= j < |f| && f[i].content.record.fingerprint == f[j].content.record.fingerprint
      ensures f[i].content.record == f[j].content.record
    {
      var k :| 0 <= k < |entries| && entries[k] == f[i];
      var l :| 0 <= l < |entries| && entries[l] == f[j];
      assert entries[k].content.record == entries[l].content.record;
    }
  }

  /** The answer for the concern at position `i`. */
  function ConcernOutcome(c: Context, s: Stores, cutoff: Instant, i: nat): Outcome<Chosen>
    requires i < |c.concerns|
  {
    ChooseValidation(c.resolve, VisibleValidations(c, s, c.concerns[i], cutoff), c.concerns[i], cutoff)
  }

  lemma {:induction false} ConcernExactly(c: Context, s: Stores, cutoff: Instant, i: nat, chosen: Chosen)
    requires HistoriesInOrder(s) && PicksEligible(c.resolve) && i < |c.concerns|
    ensures ConcernOutcome(c, s, cutoff, i) == Ok(chosen) <==> Meets(c, s, c.concerns[i], cutoff, chosen)
  {
    VisibleAgree(c, s, c.concerns[i], cutoff);
    ChoosesExactly(c.resolve, VisibleValidations(c, s, c.concerns[i], cutoff), c.concerns[i], cutoff, chosen);
  }

  ghost predicate AllMeet(c: Context, s: Stores, cutoff: Instant, chosen: seq<Chosen>) {
    |chosen| == |c.concerns| && forall i :: 0 <= i < |chosen| ==> Meets(c, s, c.concerns[i], cutoff, chosen[i])
  }

  function ChosenUpTo(c: Context, s: Stores, cutoff: Instant, n: nat): Outcome<seq<Chosen>>
    requires n <= |c.concerns|
  {
    ChooseAll(c, ConcernHistories(c, s.validations.entries, cutoff), cutoff, n)
  }

  lemma {:induction false} ConcernsStep(c: Context, s: Stores, cutoff: Instant, n: nat)
    requires n < |c.concerns|
    ensures ChosenUpTo(c, s, cutoff, n + 1) ==
      match ChosenUpTo(c, s, cutoff, n)
      case Refused(reason) => Refused(reason)
      case Ok(chosen) =>
        match ConcernOutcome(c, s, cutoff, n)
        case Refused(reason) => Refused(reason)
        case Ok(one) => Ok(chosen + [one])
  {
    VisibleAreSelected(c, s, cutoff);
  }

  predicate AreOutcomes(c: Context, s: Stores, cutoff: Instant, n: nat, chosen: seq<Chosen>)
    requires n <= |c.concerns|
  {
    |chosen| == n && forall i :: 0 <= i < n ==> ConcernOutcome(c, s, cutoff, i) == Ok(chosen[i])
  }

  lemma {:induction false} ChosenAreOutcomes(c: Context, s: Stores, cutoff: Instant, n: nat, chosen: seq<Chosen>)
    requires n <= |c.concerns|
    ensures ChosenUpTo(c, s, cutoff, n) == Ok(chosen) <==> AreOutcomes(c, s, cutoff, n, chosen)
  {
    if n == 0 {
      assert ChosenUpTo(c, s, cutoff, n) == Ok([]);
    } else {
      ConcernsStep(c, s, cutoff, n - 1);
      if chosen != [] {
        var front, last := chosen[..|chosen| - 1], chosen[|chosen| - 1];
        assert chosen == front + [last];
        ChosenAreOutcomes(c, s, cutoff, n - 1, front);
        OutcomesStep(c, s, cutoff, n, front, last);
      }
    }
  }

  lemma {:induction false} OutcomesStep(c: Context, s: Stores, cutoff: Instant, n: nat, front: seq<Chosen>, last: Chosen)
    requires 0 < n <= |c.concerns|
    ensures AreOutcomes(c, s, cutoff, n, front + [last])
      <==> AreOutcomes(c, s, cutoff, n - 1, front) && ConcernOutcome(c, s, cutoff, n - 1) == Ok(last)
  {
    var chosen := front + [last];
    assert forall i :: 0 <= i < |front| ==> chosen[i] == front[i];
  }

  lemma {:induction false} ConcernsExactly(c: Context, s: Stores, cutoff: Instant, chosen: seq<Chosen>)
    requires HistoriesInOrder(s) && PicksEligible(c.resolve)
    ensures ChosenUpTo(c, s, cutoff, |c.concerns|) == Ok(chosen) <==> AllMeet(c, s, cutoff, chosen)
  {
    ChosenAreOutcomes(c, s, cutoff, |c.concerns|, chosen);
    if |chosen| == |c.concerns| {
      forall i | 0 <= i < |chosen|
        ensures ConcernOutcome(c, s, cutoff, i) == Ok(chosen[i]) <==> Meets(c, s, c.concerns[i], cutoff, chosen[i])
      {
        ConcernExactly(c, s, cutoff, i, chosen[i]);
      }
    }
  }

  lemma {:induction false} FreshChosenExactly(c: Context, s: Stores, cutoff: Instant, chosen: ChosenFreshness)
    requires HistoriesInOrder(s)
    ensures ChooseFreshness(c.newYorkDate, FreshnessHistory(c, s.freshness.entries, cutoff), cutoff) == Ok(chosen)
      <==> IsFresh(c, s, cutoff, chosen)
  {
    var visible := VisibleFreshness(c, s, cutoff);
    VisibleAreSelected(c, s, cutoff);
    VisibleAgree(c, s, 0, cutoff);
    if AllFit(visible) {
      FreshnessExactly(c.newYorkDate, visible, cutoff, chosen.record);
      WinnerIsUniqueLatest(visible, cutoff, chosen.record);
    } else {
      MisfitIsRefused(visible, cutoff);
    }
  }

  lemma {:induction false} MisfitIsRefused(history: Freshnesses, cutoff: Instant)
    requires !AllFit(history)
    ensures FreshRecordsOf(history, cutoff).Refused?
  {
    var front := history[..|history| - 1];
    FreshGathersInOrder(history, cutoff);
    if history[|history| - 1].content.fit.Fits? {
      var i :| 0 <= i < |history| && !history[i].content.fit.Fits?;
      assert front[i] == history[i];
      MisfitIsRefused(front, cutoff);
    }
  }

  /** The prerequisites of an admission resolve to `p` exactly when both histories are in
      order, every mandatory concern is met by the choice for it, and the freshness is the
      unique latest evaluation, passing and of the day; and the fingerprint covers just what
      was visible. */
  lemma {:induction false} ResolvesExactly(c: Context, s: Stores, cutoff: Instant, p: Prerequisites)
    requires PicksEligible(c.resolve)
    ensures Resolve(c, s, cutoff) == Ok(p) <==>
      && HistoriesInOrder(s)
      && AllMeet(c, s, cutoff, p.chosen)
      && IsFresh(c, s, cutoff, p.freshness)
      && p.cutoff == cutoff
      && p.fingerprint == Sha256(c.construction, cutoff,
           seq(|c.concerns|, i requires 0 <= i < |c.concerns| => VisibleValidations(c, s, c.concerns[i], cutoff)),
           VisibleFreshness(c, s, cutoff))
  {
    AuthenticExactly(s);
    VisibleAreSelected(c, s, cutoff);
    assert ConcernHistories(c, s.validations.entries, cutoff)
      == seq(|c.concerns|, i requires 0 <= i < |c.concerns| => VisibleValidations(c, s, c.concerns[i], cutoff));
    if HistoriesInOrder(s) {
      ConcernsExactly(c, s, cutoff, p.chosen);
      FreshChosenExactly(c, s, cutoff, p.freshness);
    }
  }

  predicate MetBefore(c: Context, s: Stores, cutoff: Instant, n: nat)
    requires n <= |c.concerns|
  {
    forall i :: 0 <= i < n ==> ConcernOutcome(c, s, cutoff, i).Ok?
  }

  /** Otherwise the first of these that fails gives the refusal: the histories, the concerns
      in order, the freshness. */
  lemma {:induction false} RefusesInOrder(c: Context, s: Stores, cutoff: Instant, n: nat)
    requires n <= |c.concerns|
    ensures !HistoriesInOrder(s) ==> Resolve(c, s, cutoff) == Refused(HistoryConflict)
    ensures HistoriesInOrder(s) && MetBefore(c, s, cutoff, n) ==>
      if n < |c.concerns| then
        ConcernOutcome(c, s, cutoff, n).Refused? ==> Resolve(c, s, cutoff) == Refused(ConcernOutcome(c, s, cutoff, n).reason)
      else
        var freshness := ChooseFreshness(c.newYorkDate, VisibleFreshness(c, s, cutoff), cutoff);
        freshness.Refused? ==> Resolve(c, s, cutoff) == Refused(freshness.reason)
  {
    AuthenticExactly(s);
    if HistoriesInOrder(s) && MetBefore(c, s, cutoff, n) {
      RefusalFrom(c, s, cutoff);
      ChosenBefore(c, s, cutoff, n);
      if n < |c.concerns| && ConcernOutcome(c, s, cutoff, n).Refused? { ConcernRefuses(c, s, cutoff, n); }
    }
  }

  lemma {:induction false} RefusalFrom(c: Context, s: Stores, cutoff: Instant)
    requires HistoriesInOrder(s)
    ensures match ChosenUpTo(c, s, cutoff, |c.concerns|)
      case Refused(reason) => Resolve(c, s, cutoff) == Refused(reason)
      case Ok(_) =>
        match ChooseFreshness(c.newYorkDate, VisibleFreshness(c, s, cutoff), cutoff)
        case Refused(reason) => Resolve(c, s, cutoff) == Refused(reason)
        case Ok(_) => Resolve(c, s, cutoff).Ok?
  {
    AuthenticExactly(s);
    VisibleAreSelected(c, s, cutoff);
  }

  lemma {:induction false} ConcernRefuses(c: Context, s: Stores, cutoff: Instant, n: nat)
    requires n < |c.concerns| && ConcernOutcome(c, s, cutoff, n).Refused?
    requires ChosenUpTo(c, s, cutoff, n).Ok?
    ensures ChosenUpTo(c, s, cutoff, |c.concerns|)
      == Refused(ConcernOutcome(c, s, cutoff, n).reason)
  {
    ConcernsStep(c, s, cutoff, n);
    RefusalStays(c, ConcernHistories(c, s.validations.entries, cutoff), cutoff, n + 1);
  }

  lemma {:induction false} ChosenBefore(c: Context, s: Stores, cutoff: Instant, n: nat)
    requires n <= |c.concerns| && MetBefore(c, s, cutoff, n)
    ensures ChosenUpTo(c, s, cutoff, n).Ok?
  {
    if n > 0 {
      ChosenBefore(c, s, cutoff, n - 1);
      ConcernsStep(c, s, cutoff, n - 1);
      assert ConcernOutcome(c, s, cutoff, n - 1).Ok?;
    }
  }

  // ---- What the contracts of the resolution say ----

  /** Clause by clause: what a successful resolution holds. */
  lemma {:induction false} PrerequisitesHoldExactly(c: Context, s: Stores, cutoff: Instant, p: Prerequisites)
    ensures PrerequisitesHold(c, s, cutoff, p) <==>
      && |p.chosen| == |c.concerns|
      && (forall i :: 0 <= i < |c.concerns| ==>
            && p.chosen[i].record.disposition == Passed
            && p.chosen[i].record.recorded <= cutoff && p.chosen[i].record.effective <= cutoff
            && p.chosen[i].occurrences != []
            && p.chosen[i].occurrences
               == Select(VisibleValidations(c, s, c.concerns[i], cutoff), CarriesRecord(p.chosen[i].record), None))
      && p.freshness.record.result && c.newYorkDate(p.freshness.record.evaluated) == c.newYorkDate(cutoff)
      && UniqueLatest(VisibleFreshness(c, s, cutoff), cutoff, p.freshness.record)
      && p.freshness.occurrences != []
      && p.freshness.occurrences == Select(VisibleFreshness(c, s, cutoff), CarriesEvaluation(p.freshness.record), None)
  {
    VisibleAreSelected(c, s, cutoff);
    SameRelevance(VisibleFreshness(c, s, cutoff), WithFreshness(p.freshness.record), CarriesEvaluation(p.freshness.record), None);
    if |p.chosen| == |c.concerns| {
      forall i | 0 <= i < |c.concerns|
        ensures Select(Select(s.validations.entries, ForConcern(c.construction, c.concerns[i]), Some(cutoff)),
                       WithRecord(p.chosen[i].record), None)
             == Select(VisibleValidations(c, s, c.concerns[i], cutoff), CarriesRecord(p.chosen[i].record), None)
      {
        assert ConcernHistories(c, s.validations.entries, cutoff)[i] == VisibleValidations(c, s, c.concerns[i], cutoff);
        SameRelevance(VisibleValidations(c, s, c.concerns[i], cutoff), WithRecord(p.chosen[i].record),
          CarriesRecord(p.chosen[i].record), None);
      }
    }
  }

  /** The evaluator that takes the first record picks among those it is given. */
  lemma {:induction false} FirstPicksEligible()
    ensures PicksEligible((records: seq<ValidationRecord>, concern: int) =>
      Resolution(if records == [] then None else Some(records[0]), false))
  {
  }
}
