/** Prerequisite resolution of an admission, and re-running it at the cutoff of a
    retained admission (`_resolve_admission_prerequisites`). */
module AdmissionReplay {
  import opened Basics
  import opened Results
  import opened PublicationHistory
  import opened AsOfHistory

  datatype Disposition = Passed | Rejected | UnableToValidate

  datatype ValidationRecord = ValidationRecord(
    id: string, concern: int, recorded: Instant, effective: Instant, disposition: Disposition, content: int)

  datatype FreshnessRecord = FreshnessRecord(fingerprint: string, evaluated: Instant, result: bool, content: int)

  /** Outcome of checking one retained result against construction and policy. */
  datatype Fit = Fits | WrongContext | Broken

  datatype Validation = Validation(construction: string, record: ValidationRecord, fit: Fit)
  datatype FreshnessKind = AdmissionKind | TaskKind
  datatype Freshness = Freshness(construction: string, kind: FreshnessKind, record: FreshnessRecord, fit: Fit)

  type Validations = seq<Entry<Validation>>
  type Freshnesses = seq<Entry<Freshness>>

  datatype Refusal =
    | HistoryConflict | PolicyMismatch
    | ValidationUnavailable | ValidationRejected | ValidationUnable
    | FreshnessUnavailable | FreshnessFailed | TemporalPrerequisite

  type Outcome<+T> = Result<T, Refusal>

  /** The canonical evaluator of one concern: a winner or none, and whether it reports a failure. */
  datatype Resolution = Resolution(winner: Option<ValidationRecord>, failed: bool)
  type Resolver = (seq<ValidationRecord>, int) -> Resolution

  function ForConcern(construction: string, concern: int): Relevance<Validation> {
    (e: Entry<Validation>) => e.content.construction == construction && e.content.record.concern == concern
  }

  function ForAdmission(construction: string): Relevance<Freshness> {
    (e: Entry<Freshness>) => e.content.construction == construction && e.content.kind == AdmissionKind
  }

  // ---- Validation ----

  function FitRefusal(fit: Fit): Refusal
    requires !fit.Fits?
  {
    if fit.Broken? then HistoryConflict else PolicyMismatch
  }

  predicate Clashes(records: seq<ValidationRecord>, record: ValidationRecord) {
    exists k :: 0 <= k < |records| && records[k].id == record.id && records[k] != record
  }

  /** One more result: a record id with two contents conflicts, a known record is kept once. */
  function AddRecord(records: seq<ValidationRecord>, item: Validation): Outcome<seq<ValidationRecord>> {
    if !item.fit.Fits? then Refused(FitRefusal(item.fit))
    else if Clashes(records, item.record) then Refused(HistoryConflict)
    else if item.record in records then Ok(records)
    else Ok(records + [item.record])
  }

  /** Distinct records in order of first appearance. */
  function RecordsOf(history: Validations): Outcome<seq<ValidationRecord>> {
    if history == [] then Ok([])
    else match RecordsOf(history[..|history| - 1])
      case Refused(reason) => Refused(reason)
      case Ok(records) => AddRecord(records, history[|history| - 1].content)
  }

  /** A dictionary read in insertion order. */
  ghost predicate Mirrors(keys: seq<string>, byId: map<string, ValidationRecord>, records: seq<ValidationRecord>) {
    && |keys| == |records|
    && (forall k :: 0 <= k < |keys| ==> keys[k] == records[k].id && keys[k] in byId && byId[keys[k]] == records[k])
    && (forall key :: key in byId ==> exists k :: 0 <= k < |keys| && keys[k] == key)
  }

  lemma {:induction false} MirrorAdds(keys: seq<string>, byId: map<string, ValidationRecord>,
      records: seq<ValidationRecord>, item: Validation)
    requires Mirrors(keys, byId, records) && item.fit.Fits?
    ensures var key := item.record.id;
      if key in byId then
        && AddRecord(records, item) == (if byId[key] != item.record then Refused(HistoryConflict) else Ok(records))
        && (byId[key] == item.record ==> byId[key := item.record] == byId)
      else
        && AddRecord(records, item) == Ok(records + [item.record])
        && Mirrors(keys + [key], byId[key := item.record], records + [item.record])
  {
    var key := item.record.id;
    if key in byId {
      var k :| 0 <= k < |keys| && keys[k] == key;
      assert records[k].id == key;
    } else {
      var more := keys + [key];
      assert more[|keys|] == key;
      var updated := byId[key := item.record];
      forall j | j in updated ensures exists k :: 0 <= k < |more| && more[k] == j {
        if j != key {
          var k :| 0 <= k < |keys| && keys[k] == j;
          assert more[k] == j;
        }
      }
    }
  }

  /** The same with the dictionary the code fills. */
  method GatherRecords(history: Validations) returns (r: Outcome<seq<ValidationRecord>>)
    ensures r == RecordsOf(history)
  {
    var keys: seq<string> := [];
    var byId: map<string, ValidationRecord> := map[];
    ghost var records: seq<ValidationRecord> := [];
    for i := 0 to |history|
      invariant RecordsOf(history[..i]) == Ok(records)
      invariant Mirrors(keys, byId, records)
    {
      var item := history[i].content;
      RecordsStep(history, i);
      if !item.fit.Fits? {
        PrefixRefusal(history, i + 1);
        return Refused(FitRefusal(item.fit));
      }
      MirrorAdds(keys, byId, records, item);
      var key := item.record.id;
      if key in byId {
        if byId[key] != item.record {
          PrefixRefusal(history, i + 1);
          return Refused(HistoryConflict);
        }
      } else {
        keys := keys + [key];
        records := records + [item.record];
      }
      byId := byId[key := item.record];
    }
    assert history[..|history|] == history;
    r := Ok(seq(|keys|, k requires 0 <= k < |keys| => byId[keys[k]]));
    assert r.value == records;
  }

  lemma {:induction false} RecordsStep(history: Validations, i: nat)
    requires i < |history| && RecordsOf(history[..i]).Ok?
    ensures RecordsOf(history[..i + 1]) == AddRecord(RecordsOf(history[..i]).value, history[i].content)
  {
    assert history[..i + 1][..i] == history[..i];
  }

  lemma {:induction false} PrefixRefusal(history: Validations, n: nat)
    requires n <= |history| && RecordsOf(history[..n]).Refused?
    ensures RecordsOf(history) == RecordsOf(history[..n])
    decreases |history|
  {
    if n < |history| {
      assert history[..|history| - 1][..n] == history[..n];
      PrefixRefusal(history[..|history| - 1], n);
    } else {
      assert history[..n] == history;
    }
  }

  function EligibleRecords(records: seq<ValidationRecord>, cutoff: Instant): seq<ValidationRecord> {
    if records == [] then []
    else
      var last := records[|records| - 1];
      EligibleRecords(records[..|records| - 1], cutoff)
      + (if last.recorded <= cutoff && last.effective <= cutoff then [last] else [])
  }

  function Occurrences<C>(history: seq<Entry<C>>, selected: Entry<C> -> bool): seq<Entry<C>> {
    Select(history, selected, None)
  }

  function WithRecord(record: ValidationRecord): Relevance<Validation> {
    (e: Entry<Validation>) => e.content.record == record
  }

  datatype Chosen = Chosen(record: ValidationRecord, occurrences: Validations)

  function ChooseValidation(resolve: Resolver, history: Validations, concern: int, cutoff: Instant): Outcome<Chosen> {
    match RecordsOf(history)
    case Refused(reason) => Refused(reason)
    case Ok(records) =>
      var eligible := EligibleRecords(records, cutoff);
      match resolve(eligible, concern)
      case Resolution(None, _) => if eligible == [] then Refused(ValidationUnavailable) else Refused(HistoryConflict)
      case Resolution(Some(winner), failed) =>
        if failed || winner.disposition != Passed then
          match winner.disposition
          case Rejected => Refused(ValidationRejected)
          case UnableToValidate => Refused(ValidationUnable)
          case Passed => Refused(HistoryConflict)
        else
          var occurrences := Occurrences(history, WithRecord(winner));
          if occurrences == [] then Refused(HistoryConflict) else Ok(Chosen(winner, occurrences))
  }

  method ChooseOne(resolve: Resolver, history: Validations, concern: int, cutoff: Instant) returns (r: Outcome<Chosen>)
    ensures r == ChooseValidation(resolve, history, concern, cutoff)
    ensures PicksEligible(resolve) && r.Ok? ==> ChoiceHolds(history, cutoff, r.value)
  {
    ChoiceIsSound(resolve, history, concern, cutoff);
    var gathered := GatherRecords(history);
    if gathered.Refused? {
      return Refused(gathered.reason);
    }
    var eligible := EligibleRecords(gathered.value, cutoff);
    var resolution := resolve(eligible, concern);
    if resolution.winner.None? {
      return Refused(if eligible == [] then ValidationUnavailable else HistoryConflict);
    }
    var winner := resolution.winner.value;
    if resolution.failed || winner.disposition != Passed {
      return Refused(if winner.disposition == Rejected then ValidationRejected
                     else if winner.disposition == UnableToValidate then ValidationUnable else HistoryConflict);
    }
    var occurrences := Occurrences(history, WithRecord(winner));
    if occurrences == [] {
      return Refused(HistoryConflict);
    }
    r := Ok(Chosen(winner, occurrences));
  }

  // ---- Freshness ----

  predicate FreshClash(records: seq<FreshnessRecord>, record: FreshnessRecord) {
    exists k :: 0 <= k < |records| && records[k].fingerprint == record.fingerprint && records[k] != record
  }

  /** One more result: a fingerprint with two contents conflicts; evaluations after the
      cutoff are left aside. */
  function AddFresh(records: seq<FreshnessRecord>, item: Freshness, cutoff: Instant): Outcome<seq<FreshnessRecord>> {
    if !item.fit.Fits? then Refused(FitRefusal(item.fit))
    else if FreshClash(records, item.record) then Refused(HistoryConflict)
    else if item.record.evaluated > cutoff || item.record in records then Ok(records)
    else Ok(records + [item.record])
  }

  /** Records evaluated by the cutoff, distinct, in order of first appearance. */
  function FreshRecordsOf(history: Freshnesses, cutoff: Instant): Outcome<seq<FreshnessRecord>> {
    if history == [] then Ok([])
    else match FreshRecordsOf(history[..|history| - 1], cutoff)
      case Refused(reason) => Refused(reason)
      case Ok(records) => AddFresh(records, history[|history| - 1].content, cutoff)
  }

  ghost predicate FreshMirrors(keys: seq<string>, byFingerprint: map<string, FreshnessRecord>, records: seq<FreshnessRecord>) {
    && |keys| == |records|
    && (forall k :: 0 <= k < |keys| ==>
          keys[k] == records[k].fingerprint && keys[k] in byFingerprint && byFingerprint[keys[k]] == records[k])
    && (forall key :: key in byFingerprint ==> exists k :: 0 <= k < |keys| && keys[k] == key)
  }

  lemma {:induction false} FreshMirrorAdds(keys: seq<string>, byFingerprint: map<string, FreshnessRecord>,
      records: seq<FreshnessRecord>, item: Freshness, cutoff: Instant)
    requires FreshMirrors(keys, byFingerprint, records) && item.fit.Fits?
    ensures item.record.fingerprint in byFingerprint ==>
      AddFresh(records, item, cutoff)
      == if byFingerprint[item.record.fingerprint] != item.record then Refused(HistoryConflict) else Ok(records)
    ensures item.record.fingerprint !in byFingerprint && item.record.evaluated > cutoff ==>
      AddFresh(records, item, cutoff) == Ok(records)
    ensures item.record.fingerprint !in byFingerprint && item.record.evaluated <= cutoff ==>
      && AddFresh(records, item, cutoff) == Ok(records + [item.record])
      && FreshMirrors(keys + [item.record.fingerprint], byFingerprint[item.record.fingerprint := item.record],
                      records + [item.record])
  {
    var key := item.record.fingerprint;
    if key in byFingerprint {
      var k :| 0 <= k < |keys| && keys[k] == key;
      assert records[k].fingerprint == key;
    } else {
      var more, updated := keys + [key], byFingerprint[key := item.record];
      assert more[|keys|] == key;
      forall j | j in updated ensures exists k :: 0 <= k < |more| && more[k] == j {
        if j != key {
          var k :| 0 <= k < |keys| && keys[k] == j;
          assert more[k] == j;
        }
      }
    }
  }

  /** The dictionary of evaluations by fingerprint. */
  method GatherFresh(history: Freshnesses, cutoff: Instant) returns (r: Outcome<seq<FreshnessRecord>>)
    ensures r == FreshRecordsOf(history, cutoff)
  {
    var keys: seq<string> := [];
    var byFingerprint: map<string, FreshnessRecord> := map[];
    ghost var records: seq<FreshnessRecord> := [];
    for i := 0 to |history|
      invariant FreshRecordsOf(history[..i], cutoff) == Ok(records)
      invariant FreshMirrors(keys, byFingerprint, records)
    {
      var item := history[i].content;
      var key := item.record.fingerprint;
      FreshStep(history, i, cutoff);
      if !item.fit.Fits? {
        FreshRefusal(history, i + 1, cutoff);
        return Refused(FitRefusal(item.fit));
      }
      FreshMirrorAdds(keys, byFingerprint, records, item, cutoff);
      if key in byFingerprint && byFingerprint[key] != item.record {
        FreshRefusal(history, i + 1, cutoff);
        return Refused(HistoryConflict);
      }
      if item.record.evaluated <= cutoff {
        if key !in byFingerprint {
          keys := keys + [key];
          records := records + [item.record];
        }
        byFingerprint := byFingerprint[key := item.record];
      }
    }
    assert history[..|history|] == history;
    r := Ok(seq(|keys|, k requires 0 <= k < |keys| => byFingerprint[keys[k]]));
    assert r.value == records;
  }

  lemma {:induction false} FreshStep(history: Freshnesses, i: nat, cutoff: Instant)
    requires i < |history| && FreshRecordsOf(history[..i], cutoff).Ok?
    ensures FreshRecordsOf(history[..i + 1], cutoff)
      == AddFresh(FreshRecordsOf(history[..i], cutoff).value, history[i].content, cutoff)
  {
    assert history[..i + 1][..i] == history[..i];
  }

  lemma {:induction false} FreshRefusal(history: Freshnesses, n: nat, cutoff: Instant)
    requires n <= |history| && FreshRecordsOf(history[..n], cutoff).Refused?
    ensures FreshRecordsOf(history, cutoff) == FreshRecordsOf(history[..n], cutoff)
    decreases |history|
  {
    if n < |history| {
      assert history[..|history| - 1][..n] == history[..n];
      FreshRefusal(history[..|history| - 1], n, cutoff);
    } else {
      assert history[..n] == history;
    }
  }

  function Latest(records: seq<FreshnessRecord>): (instant: Instant)
    requires records != []
    ensures exists k :: 0 <= k < |records| && records[k].evaluated == instant
    ensures forall k :: 0 <= k < |records| ==> records[k].evaluated <= instant
  {
    if |records| == 1 then
      assert records[0].evaluated == records[0].evaluated;
      records[0].evaluated
    else
      var last, rest := records[|records| - 1], records[..|records| - 1];
      var before := Latest(rest);
      assert forall k :: 0 <= k < |rest| ==> rest[k] == records[k];
      if before < last.evaluated then last.evaluated else before
  }

  function AtInstant(records: seq<FreshnessRecord>, instant: Instant): seq<FreshnessRecord> {
    if records == [] then []
    else
      var last := records[|records| - 1];
      AtInstant(records[..|records| - 1], instant) + (if last.evaluated == instant then [last] else [])
  }

  /** The latest evaluation, when only one record holds it. */
  function LatestFreshness(history: Freshnesses, cutoff: Instant): Outcome<FreshnessRecord> {
    match FreshRecordsOf(history, cutoff)
    case Refused(reason) => Refused(reason)
    case Ok(records) =>
      if records == [] then Refused(FreshnessUnavailable)
      else
        var coPrecedent := AtInstant(records, Latest(records));
        if |coPrecedent| != 1 then Refused(HistoryConflict) else Ok(coPrecedent[0])
  }

  function WithFreshness(record: FreshnessRecord): Relevance<Freshness> {
    (e: Entry<Freshness>) => e.content.record == record
  }

  datatype ChosenFreshness = ChosenFreshness(record: FreshnessRecord, occurrences: Freshnesses)

  /** `newYorkDate` maps an instant to its civil day in New York. */
  function ChooseFreshness(newYorkDate: Instant -> int, history: Freshnesses, cutoff: Instant): Outcome<ChosenFreshness> {
    match LatestFreshness(history, cutoff)
    case Refused(reason) => Refused(reason)
    case Ok(record) =>
      if !record.result then Refused(FreshnessFailed)
      else if newYorkDate(record.evaluated) != newYorkDate(cutoff) then Refused(TemporalPrerequisite)
      else
        var occurrences := Occurrences(history, WithFreshness(record));
        if occurrences == [] then Refused(HistoryConflict) else Ok(ChosenFreshness(record, occurrences))
  }

  method ChooseLatest(newYorkDate: Instant -> int, history: Freshnesses, cutoff: Instant) returns (r: Outcome<ChosenFreshness>)
    ensures r == ChooseFreshness(newYorkDate, history, cutoff)
    ensures r.Ok? ==> LatestHolds(newYorkDate, history, cutoff, r.value)
  {
    LatestIsSound(newYorkDate, history, cutoff);
    var gathered := GatherFresh(history, cutoff);
    if gathered.Refused? {
      return Refused(gathered.reason);
    }
    if gathered.value == [] {
      return Refused(FreshnessUnavailable);
    }
    var coPrecedent := AtInstant(gathered.value, Latest(gathered.value));
    if |coPrecedent| != 1 {
      return Refused(HistoryConflict);
    }
    var selected := coPrecedent[0];
    if !selected.result {
      return Refused(FreshnessFailed);
    }
    if newYorkDate(selected.evaluated) != newYorkDate(cutoff) {
      return Refused(TemporalPrerequisite);
    }
    var occurrences := Occurrences(history, WithFreshness(selected));
    if occurrences == [] {
      return Refused(HistoryConflict);
    }
    r := Ok(ChosenFreshness(selected, occurrences));
  }

  // ---- The whole resolution ----

  /** What the history fingerprint covers; SHA-256 is modelled as injective. */
  datatype Digest = Sha256(construction: string, cutoff: Instant, validations: seq<Validations>, freshness: Freshnesses)

  datatype Prerequisites = Prerequisites(
    chosen: seq<Chosen>, freshness: ChosenFreshness, cutoff: Instant, fingerprint: Digest)

  datatype Context = Context(
    construction: string, concerns: seq<int>, resolve: Resolver, newYorkDate: Instant -> int)

  function ConcernHistories(c: Context, validations: Validations, cutoff: Instant): (histories: seq<Validations>)
    ensures |histories| == |c.concerns|
  {
    seq(|c.concerns|, i requires 0 <= i < |c.concerns| =>
      Select(validations, ForConcern(c.construction, c.concerns[i]), Some(cutoff)))
  }

  function FreshnessHistory(c: Context, freshness: Freshnesses, cutoff: Instant): Freshnesses {
    Select(freshness, ForAdmission(c.construction), Some(cutoff))
  }

  /** Every mandatory concern in turn; the first refusal ends it. */
  function ChooseAll(c: Context, histories: seq<Validations>, cutoff: Instant, n: nat): Outcome<seq<Chosen>>
    requires n <= |histories| == |c.concerns|
  {
    if n == 0 then Ok([])
    else match ChooseAll(c, histories, cutoff, n - 1)
      case Refused(reason) => Refused(reason)
      case Ok(before) =>
        match ChooseValidation(c.resolve, histories[n - 1], c.concerns[n - 1], cutoff)
        case Refused(reason) => Refused(reason)
        case Ok(chosen) => Ok(before + [chosen])
  }

  /** The resolution over entries that have been authenticated. */
  function ResolveEntries(c: Context, validations: Validations, freshness: Freshnesses, cutoff: Instant): Outcome<Prerequisites> {
    var histories, recent := ConcernHistories(c, validations, cutoff), FreshnessHistory(c, freshness, cutoff);
    match ChooseAll(c, histories, cutoff, |c.concerns|)
    case Refused(reason) => Refused(reason)
    case Ok(chosen) =>
      match ChooseFreshness(c.newYorkDate, recent, cutoff)
      case Refused(reason) => Refused(reason)
      case Ok(latest) => Ok(Prerequisites(chosen, latest, cutoff, Sha256(c.construction, cutoff, histories, recent)))
  }

  /** The two lifecycle histories with their namespaces. */
  datatype Stores = Stores(
    validationSpace: string, validations: State<Validation>, freshnessSpace: string, freshness: State<Freshness>)

  function ValidationKey(v: Validation): string { v.record.id }
  function ValidationContent(v: Validation): ValidationRecord { v.record }
  function FreshnessKey(f: Freshness): string { f.record.fingerprint }
  function FreshnessContent(f: Freshness): FreshnessRecord { f.record }

  predicate ValidationsAuthentic(namespace: string, st: State<Validation>) {
    Sound(namespace, st) && RecordsAgree(st.entries, ValidationKey, ValidationContent)
  }

  predicate FreshnessAuthentic(namespace: string, st: State<Freshness>) {
    Sound(namespace, st) && RecordsAgree(st.entries, FreshnessKey, FreshnessContent)
  }

  /** What the validators of both whole histories and the two completeness checks accept. */
  predicate Authentic(s: Stores) {
    ValidationsAuthentic(s.validationSpace, s.validations) && FreshnessAuthentic(s.freshnessSpace, s.freshness)
  }

  /** Both whole histories are validated before anything is selected from them. */
  function Resolve(c: Context, s: Stores, cutoff: Instant): Outcome<Prerequisites> {
    if !Authentic(s) then Refused(HistoryConflict)
    else ResolveEntries(c, s.validations.entries, s.freshness.entries, cutoff)
  }

  method CheckValidations(namespace: string, st: State<Validation>) returns (ok: bool)
    ensures ok <==> ValidationsAuthentic(namespace, st)
  {
    ValidatorsAgree(namespace, st);
    ok := ValidateRetained(namespace, st.entries);
    if ok {
      ok := ValidateRecords(st.entries, ValidationKey, ValidationContent);
    }
    ok := ok && Complete(st);
  }

  method CheckFreshness(namespace: string, st: State<Freshness>) returns (ok: bool)
    ensures ok <==> FreshnessAuthentic(namespace, st)
  {
    ValidatorsAgree(namespace, st);
    ok := ValidateRetained(namespace, st.entries);
    if ok {
      ok := ValidateRecords(st.entries, FreshnessKey, FreshnessContent);
    }
    ok := ok && Complete(st);
  }

  /** `_resolve_admission_prerequisites` */
  method ResolvePrerequisites(c: Context, s: Stores, cutoff: Instant) returns (r: Outcome<Prerequisites>)
    ensures r == Resolve(c, s, cutoff)
    ensures PicksEligible(c.resolve) && r.Ok? ==> Authentic(s) && PrerequisitesHold(c, s, cutoff, r.value)
  {
    PrerequisitesAreSound(c, s, cutoff);
    var valid := CheckValidations(s.validationSpace, s.validations);
    if !valid {
      return Refused(HistoryConflict);
    }
    valid := CheckFreshness(s.freshnessSpace, s.freshness);
    if !valid {
      return Refused(HistoryConflict);
    }
    var histories := ConcernHistories(c, s.validations.entries, cutoff);
    var recent := FreshnessHistory(c, s.freshness.entries, cutoff);
    var chosen := ChooseConcerns(c, histories, cutoff);
    if chosen.Refused? {
      return Refused(chosen.reason);
    }
    var latest := ChooseLatest(c.newYorkDate, recent, cutoff);
    if latest.Refused? {
      return Refused(latest.reason);
    }
    r := Ok(Prerequisites(chosen.value, latest.value, cutoff, Sha256(c.construction, cutoff, histories, recent)));
  }

  method ChooseConcerns(c: Context, histories: seq<Validations>, cutoff: Instant) returns (r: Outcome<seq<Chosen>>)
    requires |histories| == |c.concerns|
    ensures r == ChooseAll(c, histories, cutoff, |c.concerns|)
  {
    var chosen: seq<Chosen> := [];
    for i := 0 to |c.concerns|
      invariant ChooseAll(c, histories, cutoff, i) == Ok(chosen)
    {
      var one := ChooseOne(c.resolve, histories[i], c.concerns[i], cutoff);
      ChooseOneMore(c, histories, cutoff, i, chosen, one);
      if one.Refused? {
        return Refused(one.reason);
      }
      chosen := chosen + [one.value];
    }
    r := Ok(chosen);
  }

  lemma {:induction false} ChooseOneMore(c: Context, histories: seq<Validations>, cutoff: Instant, n: nat,
      before: seq<Chosen>, one: Outcome<Chosen>)
    requires n < |histories| == |c.concerns| && ChooseAll(c, histories, cutoff, n) == Ok(before)
    requires one == ChooseValidation(c.resolve, histories[n], c.concerns[n], cutoff)
    ensures one.Ok? ==> ChooseAll(c, histories, cutoff, n + 1) == Ok(before + [one.value])
    ensures one.Refused? ==> ChooseAll(c, histories, cutoff, |c.concerns|) == Refused(one.reason)
  {
    if one.Refused? { RefusalStays(c, histories, cutoff, n + 1); }
  }

  lemma {:induction false} RefusalStays(c: Context, histories: seq<Validations>, cutoff: Instant, n: nat)
    requires n <= |histories| == |c.concerns| && ChooseAll(c, histories, cutoff, n).Refused?
    ensures ChooseAll(c, histories, cutoff, |c.concerns|) == ChooseAll(c, histories, cutoff, n)
    decreases |c.concerns| - n
  {
    if n < |c.concerns| {
      RefusalStays(c, histories, cutoff, n + 1);
    }
  }

  // ---- The freshness winner ----

  /** No two retained evaluations share a fingerprint with different content. */
  predicate FingerprintsAgree(history: Freshnesses) {
    forall i, j :: 0 <= i < |history| && 0 <= j < |history|
      && history[i].content.record.fingerprint == history[j].content.record.fingerprint
      ==> history[i].content.record == history[j].content.record
  }

  predicate AllFit(history: Freshnesses) {
    forall i :: 0 <= i < |history| ==> history[i].content.fit.Fits?
  }

  ghost predicate HasRecord(history: Freshnesses, record: FreshnessRecord) {
    exists i :: 0 <= i < |history| && history[i].content.record == record
  }

  /** `record` is retained and was evaluated by the cutoff. */
  ghost predicate Evaluated(history: Freshnesses, cutoff: Instant, record: FreshnessRecord) {
    HasRecord(history, record) && record.evaluated <= cutoff
  }

  /** `record` is retained, evaluated by the cutoff, and later than every other such record. */
  ghost predicate UniqueLatest(history: Freshnesses, cutoff: Instant, record: FreshnessRecord) {
    && Evaluated(history, cutoff, record)
    && forall r :: Evaluated(history, cutoff, r) && r != record ==> r.evaluated < record.evaluated
  }

  predicate Distinct(records: seq<FreshnessRecord>) {
    forall i, j :: 0 <= i < j < |records| ==> records[i] != records[j]
  }

  lemma {:induction false} HasRecordStep(history: Freshnesses, record: FreshnessRecord)
    requires history != []
    ensures HasRecord(history, record)
      <==> HasRecord(history[..|history| - 1], record) || history[|history| - 1].content.record == record
  {
    var front := history[..|history| - 1];
    if i :| 0 <= i < |front| && front[i].content.record == record {
      assert history[i] == front[i];
    }
    if i :| 0 <= i < |front| && history[i].content.record == record {
      assert front[i] == history[i];
    }
  }

  /** Without a conflict the gathered records are the usable ones, once each. */
  lemma {:induction false} FreshRecordsHold(history: Freshnesses, cutoff: Instant)
    requires FreshRecordsOf(history, cutoff).Ok?
    ensures Distinct(FreshRecordsOf(history, cutoff).value)
    ensures forall r :: r in FreshRecordsOf(history, cutoff).value <==> Evaluated(history, cutoff, r)
  {
    if history != [] {
      FreshRecordsHold(history[..|history| - 1], cutoff);
      forall r: FreshnessRecord
        ensures r in FreshRecordsOf(history, cutoff).value <==> Evaluated(history, cutoff, r)
      {
        HasRecordStep(history, r);
      }
    }
  }

  lemma {:induction false} NoConflictArises(history: Freshnesses, cutoff: Instant)
    requires AllFit(history) && FingerprintsAgree(history)
    ensures FreshRecordsOf(history, cutoff).Ok?
  {
    if history != [] {
      var n := |history| - 1;
      var front := history[..n];
      NoConflictArises(front, cutoff);
      FreshRecordsHold(front, cutoff);
      var records := FreshRecordsOf(front, cutoff).value;
      forall k | 0 <= k < |records| && records[k].fingerprint == history[n].content.record.fingerprint
        ensures records[k] == history[n].content.record
      {
        assert records[k] in records && Evaluated(front, cutoff, records[k]);
        var i :| 0 <= i < |front| && front[i].content.record == records[k];
        assert history[i] == front[i];
      }
    }
  }

  lemma {:induction false} AtInstantHolds(records: seq<FreshnessRecord>, instant: Instant)
    requires Distinct(records)
    ensures Distinct(AtInstant(records, instant))
    ensures forall r :: r in AtInstant(records, instant) <==> r in records && r.evaluated == instant
  {
    if records != [] {
      var front := records[..|records| - 1];
      AtInstantHolds(front, instant);
      assert records == front + [records[|records| - 1]];
      assert records[|records| - 1] !in front;
    }
  }

  lemma {:induction false} OnlyMember(items: seq<FreshnessRecord>, r: FreshnessRecord)
    requires Distinct(items) && r in items
    ensures |items| == 1 <==> forall x :: x in items ==> x == r
  {
    var k :| 0 <= k < |items| && items[k] == r;
    if |items| > 1 {
      var j := if k == 0 then 1 else 0;
      assert items[j] in items && items[j] != r;
    }
  }

  /** The selected freshness is the unique latest evaluation; when the retained results fit
      and their fingerprints agree, one is selected exactly when there is such an evaluation. */
  lemma {:induction false} WinnerIsUniqueLatest(history: Freshnesses, cutoff: Instant, record: FreshnessRecord)
    ensures LatestFreshness(history, cutoff) == Ok(record) ==> UniqueLatest(history, cutoff, record)
    ensures AllFit(history) && FingerprintsAgree(history) && UniqueLatest(history, cutoff, record)
        ==> LatestFreshness(history, cutoff) == Ok(record)
  {
    if AllFit(history) && FingerprintsAgree(history) { NoConflictArises(history, cutoff); }
    if FreshRecordsOf(history, cutoff).Ok? {
      FreshRecordsHold(history, cutoff);
      var records := FreshRecordsOf(history, cutoff).value;
      if records == [] {
        assert record !in records;
      } else {
        AloneAtTop(records, record);
        assert UniqueLatest(history, cutoff, record)
          <==> record in records && forall r :: r in records && r != record ==> r.evaluated < record.evaluated;
      }
    }
  }

  /** A record is alone at the latest instant exactly when it is later than all others. */
  lemma {:induction false} AloneAtTop(records: seq<FreshnessRecord>, record: FreshnessRecord)
    requires Distinct(records) && records != []
    ensures var top := AtInstant(records, Latest(records));
      |top| == 1 && top[0] == record
      <==> record in records && forall r :: r in records && r != record ==> r.evaluated < record.evaluated
  {
    var latest := Latest(records);
    var top := AtInstant(records, latest);
    AtInstantHolds(records, latest);
    var k :| 0 <= k < |records| && records[k].evaluated == latest;
    assert records[k] in records && records[k] in top;
    OnlyMember(top, records[k]);
    if |top| == 1 && top[0] == record {
      assert top[0] in top;
      forall r | r in records && r != record ensures r.evaluated < record.evaluated {
        assert r !in top;
        var j :| 0 <= j < |records| && records[j] == r;
      }
    }
    if record in records && forall r :: r in records && r != record ==> r.evaluated < record.evaluated {
      var j :| 0 <= j < |records| && records[j] == record;
      assert record.evaluated == latest;
      assert forall x :: x in top ==> x == record;
      OnlyMember(top, record);
      assert top[0] in top;
    }
  }

  /** The order of the retained entries, and how often one is retained, plays no part. */
  lemma {:induction false} WinnerIgnoresOrder(a: Freshnesses, b: Freshnesses, cutoff: Instant)
    requires AllFit(a) && AllFit(b) && FingerprintsAgree(a) && FingerprintsAgree(b)
    requires forall r :: HasRecord(a, r) <==> HasRecord(b, r)
    ensures LatestFreshness(a, cutoff).Ok? <==> LatestFreshness(b, cutoff).Ok?
    ensures LatestFreshness(a, cutoff).Ok? ==> LatestFreshness(a, cutoff) == LatestFreshness(b, cutoff)
  {
    if LatestFreshness(a, cutoff).Ok? {
      LatestCarriesOver(a, b, cutoff, LatestFreshness(a, cutoff).value);
    } else if LatestFreshness(b, cutoff).Ok? {
      LatestCarriesOver(b, a, cutoff, LatestFreshness(b, cutoff).value);
    }
  }

  lemma {:induction false} LatestCarriesOver(a: Freshnesses, b: Freshnesses, cutoff: Instant, record: FreshnessRecord)
    requires AllFit(a) && AllFit(b) && FingerprintsAgree(a) && FingerprintsAgree(b)
    requires forall r :: HasRecord(a, r) <==> HasRecord(b, r)
    requires LatestFreshness(a, cutoff) == Ok(record)
    ensures LatestFreshness(b, cutoff) == Ok(record)
  {
    WinnerIsUniqueLatest(a, cutoff, record);
    assert forall r :: Evaluated(a, cutoff, r) <==> Evaluated(b, cutoff, r);
    WinnerIsUniqueLatest(b, cutoff, record);
  }

  // ---- What a resolution guarantees ----

  /** A resolver picks among the records it was given. */
  ghost predicate PicksEligible(resolve: Resolver) {
    forall records, concern :: resolve(records, concern).winner.Some? ==> resolve(records, concern).winner.value in records
  }

  /** `chosen` passed, took effect by the cutoff, and its occurrences are exactly the visible
      results of this construction and concern that carry it. */
  ghost predicate ValidationHolds(c: Context, validations: Validations, concern: int, cutoff: Instant, chosen: Chosen) {
    && chosen.record.disposition == Passed && chosen.record.recorded <= cutoff && chosen.record.effective <= cutoff
    && chosen.occurrences != []
    && chosen.occurrences
       == Select(Select(validations, ForConcern(c.construction, concern), Some(cutoff)), WithRecord(chosen.record), None)
  }

  lemma {:induction false} EligibleHolds(records: seq<ValidationRecord>, cutoff: Instant)
    ensures forall r :: r in EligibleRecords(records, cutoff) ==> r in records && r.recorded <= cutoff && r.effective <= cutoff
  {
    if records != [] { EligibleHolds(records[..|records| - 1], cutoff); }
  }

  /** The choice passed by the cutoff and carries all its occurrences in the history. */
  ghost predicate ChoiceHolds(history: Validations, cutoff: Instant, chosen: Chosen) {
    && chosen.record.disposition == Passed && chosen.record.recorded <= cutoff && chosen.record.effective <= cutoff
    && chosen.occurrences != [] && chosen.occurrences == Select(history, WithRecord(chosen.record), None)
  }

  lemma {:induction false} ChoicesHold(c: Context, histories: seq<Validations>, cutoff: Instant, n: nat)
    requires PicksEligible(c.resolve) && n <= |histories| == |c.concerns| && ChooseAll(c, histories, cutoff, n).Ok?
    ensures var chosen := ChooseAll(c, histories, cutoff, n).value;
      |chosen| == n && forall i :: 0 <= i < n ==> ChoiceHolds(histories[i], cutoff, chosen[i])
  {
    if n > 0 {
      ChoicesHold(c, histories, cutoff, n - 1);
      ChosenHolds(c.resolve, histories[n - 1], c.concerns[n - 1], cutoff);
    }
  }

  lemma {:induction false} ChosenValidationsHold(c: Context, validations: Validations, cutoff: Instant, n: nat)
    requires PicksEligible(c.resolve) && n <= |c.concerns|
    requires ChooseAll(c, ConcernHistories(c, validations, cutoff), cutoff, n).Ok?
    ensures |ChooseAll(c, ConcernHistories(c, validations, cutoff), cutoff, n).value| == n
    ensures forall i :: 0 <= i < n ==>
      ValidationHolds(c, validations, c.concerns[i], cutoff, ChooseAll(c, ConcernHistories(c, validations, cutoff), cutoff, n).value[i])
  {
    ChoicesHold(c, ConcernHistories(c, validations, cutoff), cutoff, n);
  }

  lemma {:induction false} ChosenHolds(resolve: Resolver, history: Validations, concern: int, cutoff: Instant)
    requires PicksEligible(resolve) && ChooseValidation(resolve, history, concern, cutoff).Ok?
    ensures ChoiceHolds(history, cutoff, ChooseValidation(resolve, history, concern, cutoff).value)
  {
    EligibleHolds(RecordsOf(history).value, cutoff);
  }

  /** For every mandatory concern a validation that passed by the cutoff, and as freshness
      the unique latest retained evaluation, which passed on the New York day of the cutoff;
      each with all its visible occurrences. */
  ghost predicate PrerequisitesHold(c: Context, s: Stores, cutoff: Instant, p: Prerequisites) {
    && |p.chosen| == |c.concerns|
    && (forall i :: 0 <= i < |c.concerns| ==> ValidationHolds(c, s.validations.entries, c.concerns[i], cutoff, p.chosen[i]))
    && LatestHolds(c.newYorkDate, FreshnessHistory(c, s.freshness.entries, cutoff), cutoff, p.freshness)
  }

  lemma {:induction false} PrerequisitesAreSound(c: Context, s: Stores, cutoff: Instant)
    ensures PicksEligible(c.resolve) && Resolve(c, s, cutoff).Ok? ==>
              Authentic(s) && PrerequisitesHold(c, s, cutoff, Resolve(c, s, cutoff).value)
  {
    if PicksEligible(c.resolve) && Resolve(c, s, cutoff).Ok? { ResolvedPrerequisitesHold(c, s, cutoff); }
  }

  /** A resolution that succeeds authenticated both histories and selected exactly that. */
  lemma {:induction false} ResolvedPrerequisitesHold(c: Context, s: Stores, cutoff: Instant)
    requires PicksEligible(c.resolve) && Resolve(c, s, cutoff).Ok?
    ensures Authentic(s) && PrerequisitesHold(c, s, cutoff, Resolve(c, s, cutoff).value)
  {
    ChosenValidationsHold(c, s.validations.entries, cutoff, |c.concerns|);
    LatestIsSound(c.newYorkDate, FreshnessHistory(c, s.freshness.entries, cutoff), cutoff);
  }

  lemma {:induction false} ChoiceIsSound(resolve: Resolver, history: Validations, concern: int, cutoff: Instant)
    ensures PicksEligible(resolve) && ChooseValidation(resolve, history, concern, cutoff).Ok?
        ==> ChoiceHolds(history, cutoff, ChooseValidation(resolve, history, concern, cutoff).value)
  {
    if PicksEligible(resolve) && ChooseValidation(resolve, history, concern, cutoff).Ok? {
      ChosenHolds(resolve, history, concern, cutoff);
    }
  }

  /** The unique latest evaluation; it passed, on the New York day of the cutoff, and comes
      with all its occurrences. */
  ghost predicate LatestHolds(newYorkDate: Instant -> int, history: Freshnesses, cutoff: Instant, latest: ChosenFreshness) {
    && UniqueLatest(history, cutoff, latest.record)
    && latest.record.result && newYorkDate(latest.record.evaluated) == newYorkDate(cutoff)
    && latest.occurrences != [] && latest.occurrences == Select(history, WithFreshness(latest.record), None)
  }

  lemma {:induction false} LatestIsSound(newYorkDate: Instant -> int, history: Freshnesses, cutoff: Instant)
    ensures ChooseFreshness(newYorkDate, history, cutoff).Ok?
        ==> LatestHolds(newYorkDate, history, cutoff, ChooseFreshness(newYorkDate, history, cutoff).value)
  {
    if LatestFreshness(history, cutoff).Ok? {
      WinnerIsUniqueLatest(history, cutoff, LatestFreshness(history, cutoff).value);
    }
  }

  // ---- Replay ----

  /** No later entry of a mandatory concern or of the admission freshness is stamped at or
      before the cutoff. */
  ghost predicate Undisturbed(c: Context, validations: Validations, later: Validations,
      freshness: Freshnesses, laterFreshness: Freshnesses, cutoff: Instant)
  {
    && (forall i :: 0 <= i < |c.concerns| ==>
          NoLateArrival(validations, later, ForConcern(c.construction, c.concerns[i]), cutoff))
    && NoLateArrival(freshness, laterFreshness, ForAdmission(c.construction), cutoff)
  }

  function HistoryFingerprint(c: Context, validations: Validations, freshness: Freshnesses, cutoff: Instant): Digest {
    Sha256(c.construction, cutoff, ConcernHistories(c, validations, cutoff), FreshnessHistory(c, freshness, cutoff))
  }

  lemma {:induction false} SelectionsReplayExactly(c: Context, validations: Validations, later: Validations,
      freshness: Freshnesses, laterFreshness: Freshnesses, cutoff: Instant)
    requires validations <= later && freshness <= laterFreshness
    ensures HistoryFingerprint(c, later, laterFreshness, cutoff) == HistoryFingerprint(c, validations, freshness, cutoff)
      <==> Undisturbed(c, validations, later, freshness, laterFreshness, cutoff)
  {
    var first, second := ConcernHistories(c, validations, cutoff), ConcernHistories(c, later, cutoff);
    SameSelectionExactly(freshness, laterFreshness, ForAdmission(c.construction), cutoff);
    forall i | 0 <= i < |c.concerns|
      ensures first[i] == second[i] <==> NoLateArrival(validations, later, ForConcern(c.construction, c.concerns[i]), cutoff)
    {
      SameSelectionExactly(validations, later, ForConcern(c.construction, c.concerns[i]), cutoff);
    }
  }

  /** The fingerprint that a resolution finds; none when it refuses the histories. */
  function FingerprintOf(c: Context, s: Stores, cutoff: Instant): Option<Digest> {
    if Authentic(s) then Some(HistoryFingerprint(c, s.validations.entries, s.freshness.entries, cutoff)) else None
  }

  predicate Later(s: Stores, t: Stores) {
    s.validations.entries <= t.validations.entries && s.freshness.entries <= t.freshness.entries
  }

  /** The history fingerprint of a retained admission is found again exactly while the
      histories authenticate and it is undisturbed. */
  lemma {:induction false} FingerprintReplaysExactly(c: Context, s: Stores, t: Stores, cutoff: Instant)
    requires Later(s, t) && Authentic(s)
    ensures FingerprintOf(c, t, cutoff) == FingerprintOf(c, s, cutoff) <==>
      Authentic(t) && Undisturbed(c, s.validations.entries, t.validations.entries, s.freshness.entries, t.freshness.entries, cutoff)
  {
    SelectionsReplayExactly(c, s.validations.entries, t.validations.entries, s.freshness.entries, t.freshness.entries, cutoff);
  }

  /** Re-running an undisturbed resolution selects the same validations and freshness, with
      the same occurrences, or refuses for the same reason; later histories that do not
      authenticate are refused whatever the cutoff. */
  lemma {:induction false} ReplaySelectsTheSame(c: Context, s: Stores, t: Stores, cutoff: Instant)
    requires Later(s, t) && Authentic(s)
    requires Undisturbed(c, s.validations.entries, t.validations.entries, s.freshness.entries, t.freshness.entries, cutoff)
    ensures Resolve(c, t, cutoff) == if Authentic(t) then Resolve(c, s, cutoff) else Refused(HistoryConflict)
  {
    SelectionsReplayExactly(c, s.validations.entries, t.validations.entries, s.freshness.entries, t.freshness.entries, cutoff);
  }
}
