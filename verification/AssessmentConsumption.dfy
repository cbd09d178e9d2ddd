/** Consuming the complete assessment inventory (`_consume_assessments` in
    `polygon_completed_daily_production_assessment.py`): what the interpretation
    publisher returns is not trusted, and yet only committed pairs come out. */
module AssessmentConsumption {
  import opened Basics
  import opened Results
  import opened PublicationHistory
  import opened ObjectGraph
  import opened CopyIsolation

  datatype Selector = Selector(artifact: Artifact, namespace: string, sequence: int, executionId: string, fingerprint: string)

  datatype Finding = Finding(artifact: Artifact, body: int)
  datatype Judgement = Judgement(source: Selector, body: int)

  type Interpretation = Entry<Finding>
  type Assessment = Entry<Judgement>

  datatype Refusal = HistoryInvalid | SourceMismatch | OccurrenceUnavailable

  /** The canonical encodings and fingerprints of the two kinds of result. */
  datatype Codec = Codec(
    assessment: Assessment -> string, interpretation: Interpretation -> string,
    assessmentPrint: Assessment -> string, interpretationPrint: Interpretation -> string)

  /** Equal encodings are encodings of equal results. */
  ghost predicate FaithfulCodec(c: Codec) {
    && (forall s, t :: c.interpretation(s) == c.interpretation(t) ==> s == t)
    && (forall a, b :: c.assessment(a) == c.assessment(b) ==> a == b)
  }

  function InterpretationSelector(c: Codec, s: Interpretation): Selector {
    Selector(s.content.artifact, s.namespace, s.sequence, s.executionId, c.interpretationPrint(s))
  }

  function AssessmentSelector(c: Codec, a: Assessment): Selector {
    Selector(a.content.source.artifact, a.namespace, a.sequence, a.executionId, c.assessmentPrint(a))
  }

  /** The two pinned histories. Each commitment keeps the encodings of its entries. */
  datatype Commitments = Commitments(
    namespace: string, assessments: State<Judgement>, sourceNamespace: string, interpretations: State<Finding>)

  ghost predicate SoundCommitments(k: Commitments) {
    Sound(k.namespace, k.assessments) && Sound(k.sourceNamespace, k.interpretations)
  }

  function AssessmentFacts(c: Codec, k: Commitments): (facts: seq<string>)
    ensures |facts| == |k.assessments.entries|
    ensures forall i :: 0 <= i < |facts| ==> facts[i] == c.assessment(k.assessments.entries[i])
  {
    seq(|k.assessments.entries|, i requires 0 <= i < |k.assessments.entries| => c.assessment(k.assessments.entries[i]))
  }

  function InterpretationFacts(c: Codec, k: Commitments): (facts: seq<string>)
    ensures |facts| == |k.interpretations.entries|
    ensures forall i :: 0 <= i < |facts| ==> facts[i] == c.interpretation(k.interpretations.entries[i])
  {
    seq(|k.interpretations.entries|, i requires 0 <= i < |k.interpretations.entries| =>
      c.interpretation(k.interpretations.entries[i]))
  }

  /** `_check_assessment_pair`: the assessment names this interpretation, available at its start. */
  predicate Corresponds(c: Codec, a: Assessment, s: Interpretation) {
    a.content.source == InterpretationSelector(c, s) && s.available <= a.started
  }

  /** Detached values with the stored facts they were rebuilt from. */
  datatype Pair = Pair(assessment: Assessment, interpretation: Interpretation, assessmentFact: string, interpretationFact: string)

  function PairOf(c: Codec, a: Assessment, s: Interpretation): Pair {
    Pair(a, s, c.assessment(a), c.interpretation(s))
  }

  // ---- The publisher's own lookup ----

  /** What a lookup in a sound history finds: the occurrence with exactly these selectors,
      at its own sequence, or nothing. */
  predicate LooksUp(c: Codec, k: Commitments, request: Selector, r: Result<Interpretation, Refusal>) {
    && (r.Ok? <==>
          exists i :: 0 <= i < |k.interpretations.entries| && InterpretationSelector(c, k.interpretations.entries[i]) == request)
    && (r.Ok? ==>
          && 1 <= request.sequence <= |k.interpretations.entries|
          && r.value == k.interpretations.entries[request.sequence - 1]
          && InterpretationSelector(c, r.value) == request)
  }

  /** `_authenticate_interpretation_occurrence`, its authentication of upstream support
      left to the transaction model. */
  method Authenticate(c: Codec, k: Commitments, request: Selector) returns (r: Result<Interpretation, Refusal>)
    ensures Sound(k.sourceNamespace, k.interpretations) ==> LooksUp(c, k, request, r)
    ensures !Sound(k.sourceNamespace, k.interpretations) ==> r == Refused(HistoryInvalid)
  {
    var entries := k.interpretations.entries;
    var sound := ValidateOccurrences(k.sourceNamespace, k.interpretations);
    if !sound {
      return Refused(HistoryInvalid);
    }
    var matches: seq<int> := [];
    for i := 0 to |entries|
      invariant |matches| <= 1
      invariant |matches| == 1 ==> 0 <= matches[0] < i && InterpretationSelector(c, entries[matches[0]]) == request
      invariant |matches| == 0 ==> forall j :: 0 <= j < i ==> InterpretationSelector(c, entries[j]) != request
    {
      if InterpretationSelector(c, entries[i]) == request {
        assert entries[i].sequence == i + 1;
        assert forall m :: 0 <= m < i ==> entries[m].sequence == m + 1;
        matches := matches + [i];
      }
    }
    if |matches| != 1 {
      return Refused(OccurrenceUnavailable);
    }
    r := Ok(entries[matches[0]]);
  }

  // ---- Aliasing ----

  predicate Meets(a: set<Id>, b: set<Id>) {
    exists x :: x in a && x in b
  }

  predicate PairwiseDisjoint(graphs: seq<set<Id>>) {
    forall i, j :: 0 <= i < j < |graphs| ==> !Meets(graphs[i], graphs[j])
  }

  ghost function Graphs(h: Heap, roots: seq<Id>): (graphs: seq<set<Id>>)
    ensures |graphs| == |roots| && forall i :: 0 <= i < |roots| ==> graphs[i] == TrackedReach(h, true, roots[i])
  {
    seq(|roots|, i requires 0 <= i < |roots| => TrackedReach(h, true, roots[i]))
  }

  ghost predicate PairwiseIsolated(h: Heap, roots: seq<Id>) {
    forall i, j :: 0 <= i < |roots| && 0 <= j < |roots| && i != j ==> Isolated(h, roots[i], roots[j])
  }

  /** No result that passes can be altered through another, in either direction. */
  lemma {:induction false} DisjointResultsAreIsolated(h: Heap, roots: seq<Id>)
    requires Closed(h) && (forall i :: 0 <= i < |roots| ==> roots[i] in h) && PairwiseDisjoint(Graphs(h, roots))
    ensures PairwiseIsolated(h, roots)
    ensures forall i, j :: 0 <= i < |roots| && 0 <= j < |roots| && i != j ==> Isolated(h, roots[i], roots[j])
  {
    forall i, j | 0 <= i < |roots| && 0 <= j < |roots| && i != j ensures Isolated(h, roots[i], roots[j]) {
      var g := Graphs(h, roots);
      assert if i < j then !Meets(g[i], g[j]) else !Meets(g[j], g[i]);
      DisjointIdsIsolate(h, roots[i], roots[j]);
    }
  }

  ghost predicate Union(graphs: seq<set<Id>>, n: nat, seen: set<Id>)
    requires n <= |graphs|
  {
    forall x :: x in seen <==> exists k :: 0 <= k < n && x in graphs[k]
  }

  predicate Apart(graphs: seq<set<Id>>, n: nat)
    requires n < |graphs|
  {
    forall k :: 0 <= k < n ==> !Meets(graphs[k], graphs[n])
  }

  lemma {:induction false} UnionShowsAliases(graphs: seq<set<Id>>, n: nat, seen: set<Id>)
    requires n < |graphs| && Union(graphs, n, seen)
    ensures Meets(seen, graphs[n]) <==> !Apart(graphs, n)
    ensures Union(graphs, n + 1, seen + graphs[n])
  {
    if Meets(seen, graphs[n]) {
      var x :| x in seen && x in graphs[n];
      var k :| 0 <= k < n && x in graphs[k];
      assert Meets(graphs[k], graphs[n]);
    }
    if !Apart(graphs, n) {
      var k :| 0 <= k < n && Meets(graphs[k], graphs[n]);
      var x :| x in graphs[k] && x in graphs[n];
      assert x in seen;
    }
  }

  /** One more graph against all the earlier ones. */
  method AddGraph(graph: set<Id>, seen: set<Id>, ghost graphs: seq<set<Id>>, ghost n: nat) returns (ok: bool, grown: set<Id>)
    requires n < |graphs| && graphs[n] == graph && Union(graphs, n, seen)
    ensures ok <==> Apart(graphs, n)
    ensures Union(graphs, n + 1, grown)
  {
    UnionShowsAliases(graphs, n, seen);
    ok, grown := !Meets(seen, graph), seen + graph;
  }

  lemma {:induction false} AliasIsNotDisjoint(graphs: seq<set<Id>>, n: nat)
    requires n < |graphs| && !Apart(graphs, n)
    ensures !PairwiseDisjoint(graphs)
  {
  }

  lemma {:induction false} ApartIsDisjoint(graphs: seq<set<Id>>)
    requires forall k :: 0 <= k < |graphs| ==> Apart(graphs, k)
    ensures PairwiseDisjoint(graphs)
  {
    forall i, j | 0 <= i < j < |graphs| ensures !Meets(graphs[i], graphs[j]) {
      assert Apart(graphs, j);
    }
  }

  /** One growing set finds every alias between any two graphs. */
  method CheckAliases(graphs: seq<set<Id>>) returns (ok: bool)
    ensures ok <==> PairwiseDisjoint(graphs)
  {
    var seen: set<Id> := {};
    for i := 0 to |graphs|
      invariant Union(graphs, i, seen)
      invariant forall k :: 0 <= k < i ==> Apart(graphs, k)
    {
      ok, seen := AddGraph(graphs[i], seen, graphs, i);
      if !ok {
        AliasIsNotDisjoint(graphs, i);
        return;
      }
    }
    ApartIsDisjoint(graphs);
    ok := true;
  }

  /** The identity walks of all results, in order. */
  method WalkAll(h: Heap, roots: seq<Id>, ghost rank: map<Id, nat>) returns (graphs: seq<set<Id>>)
    requires Closed(h) && Ranked(h, true, rank) && forall i :: 0 <= i < |roots| ==> roots[i] in h
    ensures graphs == Graphs(h, roots)
  {
    graphs := [];
    for i := 0 to |roots|
      invariant |graphs| == i
      invariant forall k :: 0 <= k < i ==> graphs[k] == TrackedReach(h, true, roots[k])
    {
      var graph := GraphIds(h, true, roots[i], rank);
      graphs := graphs + [graph];
    }
  }

  // ---- Consumption ----

  /** What came back for one committed assessment: its source on the first pass and when
      sealing, whatever a callback made of it, what the two results of the pair hold when
      their graphs are walked, and those results on the heap. */
  datatype Answer = Answer(
    first: Result<Interpretation, Refusal>, sealed: Result<Interpretation, Refusal>,
    walkedAssessment: Assessment, walkedInterpretation: Interpretation,
    assessmentRoot: Id, interpretationRoot: Id)

  /** The rebuilt results in the order in which they are walked. */
  function Roots(answers: seq<Answer>): (roots: seq<Id>)
    ensures forall a :: a in answers ==> a.assessmentRoot in roots && a.interpretationRoot in roots
    ensures |roots| == 2 * |answers|
  {
    if answers == [] then []
    else
      var last := answers[|answers| - 1];
      Roots(answers[..|answers| - 1]) + [last.assessmentRoot, last.interpretationRoot]
  }

  /** The four occurrence scalars that the seal compares. */
  predicate SameOccurrence(c: Codec, s: Interpretation, t: Interpretation) {
    && s.namespace == t.namespace && s.sequence == t.sequence && s.executionId == t.executionId
    && c.interpretationPrint(s) == c.interpretationPrint(t)
  }

  /** Field by field: the seal found the occurrence that was walked. */
  predicate Repeats(c: Codec, answer: Answer)
    requires answer.sealed.Ok?
  {
    var s, t := answer.sealed.value, answer.walkedInterpretation;
    && s.executionId == t.executionId && s.sequence == t.sequence && s.namespace == t.namespace
    && c.interpretationPrint(s) == c.interpretationPrint(t)
  }

  predicate Resolves(c: Codec, k: Commitments, a: Assessment, answer: Answer) {
    && answer.first.Ok? && c.interpretation(answer.first.value) in InterpretationFacts(c, k)
    && Corresponds(c, a, answer.first.value)
  }

  predicate Reseals(c: Codec, answer: Answer) {
    answer.sealed.Ok? && SameOccurrence(c, answer.sealed.value, answer.walkedInterpretation)
  }

  predicate AllResolve(c: Codec, k: Commitments, answers: seq<Answer>) {
    && |answers| == |k.assessments.entries|
    && forall i :: 0 <= i < |answers| ==> Resolves(c, k, k.assessments.entries[i], answers[i])
  }

  function AnsweredPairs(c: Codec, k: Commitments, answers: seq<Answer>): (pairs: seq<Pair>)
    requires AllResolve(c, k, answers)
    ensures |pairs| == |answers|
    ensures forall i :: 0 <= i < |answers| ==> pairs[i] == PairOf(c, k.assessments.entries[i], answers[i].first.value)
  {
    seq(|answers|, i requires 0 <= i < |answers| => PairOf(c, k.assessments.entries[i], answers[i].first.value))
  }

  /** The results of a pair still encode to its facts. */
  predicate StillEncodes(c: Codec, a: Assessment, s: Interpretation, p: Pair) {
    c.assessment(a) == p.assessmentFact && c.interpretation(s) == p.interpretationFact
  }

  /** The expected pairs carry the facts of the resolved ones and encode to them. */
  predicate AsExpected(c: Codec, expected: seq<Pair>, pairs: seq<Pair>) {
    && |expected| == |pairs|
    && forall i :: 0 <= i < |pairs| ==>
         && expected[i].assessmentFact == pairs[i].assessmentFact
         && expected[i].interpretationFact == pairs[i].interpretationFact
         && StillEncodes(c, expected[i].assessment, expected[i].interpretation, expected[i])
  }

  predicate WalkedIntact(c: Codec, answers: seq<Answer>, pairs: seq<Pair>) {
    && |answers| == |pairs|
    && forall i :: 0 <= i < |pairs| ==> StillEncodes(c, answers[i].walkedAssessment, answers[i].walkedInterpretation, pairs[i])
  }

  /** The pairs whose assessment carries the requested selectors. */
  function Chosen(c: Codec, pairs: seq<Pair>, request: Option<Selector>): (chosen: seq<Pair>)
    ensures forall p :: p in chosen <==> p in pairs && (request.None? || AssessmentSelector(c, p.assessment) == request.value)
  {
    if pairs == [] then []
    else
      var last := pairs[|pairs| - 1];
      Chosen(c, pairs[..|pairs| - 1], request)
      + (if request.None? || AssessmentSelector(c, last.assessment) == request.value then [last] else [])
  }

  /** Every source answered on the first pass, committed, then corresponding; the
      authority fields are rechecked after each answer. */
  method ResolveSources(c: Codec, k: Commitments, answers: seq<Answer>, roots: map<string, Id>, checks: seq<map<string, Id>>)
      returns (r: Result<seq<Pair>, Refusal>)
    requires |answers| == |k.assessments.entries| == |checks|
    ensures r.Ok? <==> AllResolve(c, k, answers) && forall i :: 0 <= i < |checks| ==> Holds(roots, checks[i])
    ensures r.Ok? ==> r.value == AnsweredPairs(c, k, answers)
  {
    var facts := InterpretationFacts(c, k);
    var pairs: seq<Pair> := [];
    for i := 0 to |answers|
      invariant |pairs| == i
      invariant forall j :: 0 <= j < i ==> Holds(roots, checks[j])
      invariant forall j :: 0 <= j < i ==>
        && answers[j].first.Ok? && c.interpretation(answers[j].first.value) in facts
        && pairs[j] == PairOf(c, k.assessments.entries[j], answers[j].first.value)
    {
      if answers[i].first.Refused? {
        return Refused(answers[i].first.reason);
      }
      if !Holds(roots, checks[i]) {
        return Refused(HistoryInvalid);
      }
      if c.interpretation(answers[i].first.value) !in facts {
        return Refused(SourceMismatch);
      }
      pairs := pairs + [PairOf(c, k.assessments.entries[i], answers[i].first.value)];
    }
    for i := 0 to |pairs|
      invariant forall j :: 0 <= j < i ==> Corresponds(c, k.assessments.entries[j], answers[j].first.value)
    {
      if !Corresponds(c, pairs[i].assessment, pairs[i].interpretation) {
        return Refused(SourceMismatch);
      }
    }
    r := Ok(pairs);
  }

  /** The second authentication of every source, after all preparation. */
  method SealSources(c: Codec, answers: seq<Answer>) returns (refusal: Option<Refusal>)
    ensures refusal.None? <==> forall i :: 0 <= i < |answers| ==> Reseals(c, answers[i])
    ensures refusal.None? <==> forall i :: 0 <= i < |answers| ==> answers[i].sealed.Ok? && Repeats(c, answers[i])
  {
    for i := 0 to |answers|
      invariant forall j :: 0 <= j < i ==> Reseals(c, answers[j])
    {
      if answers[i].sealed.Refused? {
        return Some(answers[i].sealed.reason);
      }
      if !SameOccurrence(c, answers[i].sealed.value, answers[i].walkedInterpretation) {
        return Some(SourceMismatch);
      }
    }
    refusal := None;
  }

  /** The authority fields as they are read at each recheck. */
  datatype Checks = Checks(
    entered: map<string, Id>, rebuilt: map<string, Id>, answered: seq<map<string, Id>>,
    compared: map<string, Id>, prepared: map<string, Id>, sealed: map<string, Id>)

  predicate HoldUntilAnswered(roots: map<string, Id>, checks: Checks) {
    && Holds(roots, checks.entered) && Holds(roots, checks.rebuilt)
    && forall i :: 0 <= i < |checks.answered| ==> Holds(roots, checks.answered[i])
  }

  predicate AllHold(roots: map<string, Id>, checks: Checks) {
    && HoldUntilAnswered(roots, checks)
    && Holds(roots, checks.compared) && Holds(roots, checks.prepared) && Holds(roots, checks.sealed)
  }

  /** The whole inventory is sound, resolved and as expected. */
  predicate Resolvable(c: Codec, k: Commitments, answers: seq<Answer>, expected: Option<seq<Pair>>) {
    && Sound(k.namespace, k.assessments) && AllResolve(c, k, answers)
    && (expected.Some? ==> AsExpected(c, expected.value, AnsweredPairs(c, k, answers)))
  }

  predicate AllReseal(c: Codec, answers: seq<Answer>) {
    forall i :: 0 <= i < |answers| ==> Reseals(c, answers[i])
  }

  ghost predicate Consumable(c: Codec, k: Commitments, h: Heap, answers: seq<Answer>, request: Option<Selector>,
                             expected: Option<seq<Pair>>) {
    && Resolvable(c, k, answers, expected)
    && WalkedIntact(c, answers, AnsweredPairs(c, k, answers))
    && PairwiseDisjoint(Graphs(h, Roots(answers)))
    && AllReseal(c, answers)
    && (request.Some? ==> |Chosen(c, AnsweredPairs(c, k, answers), request)| == 1)
  }

  /** The seal; a selection that was missing is reported only after it. */
  method SealSelection(c: Codec, answers: seq<Answer>, selected: seq<Pair>, request: Option<Selector>,
                       roots: map<string, Id>, fields: map<string, Id>)
      returns (r: Result<seq<Pair>, Refusal>)
    ensures r.Ok? <==> AllReseal(c, answers) && Holds(roots, fields) && (request.Some? ==> |selected| == 1)
    ensures r.Ok? ==> r.value == selected
  {
    var refusal := SealSources(c, answers);
    if refusal.Some? {
      return Refused(refusal.value);
    }
    if !Holds(roots, fields) {
      return Refused(HistoryInvalid);
    }
    if request.Some? && |selected| != 1 {
      return Refused(OccurrenceUnavailable);
    }
    r := Ok(selected);
  }

  /** Everything up to the comparison with the expected facts. */
  method ResolveInventory(c: Codec, k: Commitments, answers: seq<Answer>, expected: Option<seq<Pair>>,
                          roots: map<string, Id>, checks: Checks)
      returns (r: Result<seq<Pair>, Refusal>)
    requires |answers| == |k.assessments.entries| == |checks.answered|
    ensures r.Ok? <==>
      && HoldUntilAnswered(roots, checks)
      && Resolvable(c, k, answers, expected)
    ensures r.Ok? ==> r.value == AnsweredPairs(c, k, answers)
  {
    if !Holds(roots, checks.entered) {
      return Refused(HistoryInvalid);
    }
    var sound := ValidateOccurrences(k.namespace, k.assessments);
    if !sound || !Holds(roots, checks.rebuilt) {
      return Refused(HistoryInvalid);
    }
    r := ResolveSources(c, k, answers, roots, checks.answered);
    if r.Refused? {
      return;
    }
    var pairs := r.value;
    if expected.Some? && |expected.value| != |pairs| {
      return Refused(HistoryInvalid);
    }
    if expected.Some? {
      var agrees := CheckExpected(c, expected.value, pairs);
      if !agrees {
        return Refused(SourceMismatch);
      }
    }
  }

  method CheckExpected(c: Codec, expected: seq<Pair>, pairs: seq<Pair>) returns (ok: bool)
    requires |expected| == |pairs|
    ensures ok <==> AsExpected(c, expected, pairs)
  {
    for i := 0 to |pairs|
      invariant AsExpected(c, expected[..i], pairs[..i])
    {
      var p := expected[i];
      if p.assessmentFact != pairs[i].assessmentFact || p.interpretationFact != pairs[i].interpretationFact
         || !StillEncodes(c, p.assessment, p.interpretation, p)
      {
        return false;
      }
    }
    assert expected[..|pairs|] == expected && pairs[..|pairs|] == pairs;
    ok := true;
  }

  /** Before a pair is walked its results are encoded once more. */
  method CheckWalked(c: Codec, answers: seq<Answer>, pairs: seq<Pair>) returns (ok: bool)
    requires |answers| == |pairs|
    ensures ok <==> WalkedIntact(c, answers, pairs)
  {
    for i := 0 to |pairs|
      invariant WalkedIntact(c, answers[..i], pairs[..i])
    {
      if !StillEncodes(c, answers[i].walkedAssessment, answers[i].walkedInterpretation, pairs[i]) {
        return false;
      }
    }
    assert answers[..|pairs|] == answers && pairs[..|pairs|] == pairs;
    ok := true;
  }

  /** `_consume_assessments` under the held chain of locks. */
  method Consume(c: Codec, k: Commitments, h: Heap, answers: seq<Answer>, request: Option<Selector>,
                 expected: Option<seq<Pair>>, roots: map<string, Id>, checks: Checks, ghost rank: map<Id, nat>)
      returns (r: Result<seq<Pair>, Refusal>)
    requires |answers| == |k.assessments.entries| == |checks.answered|
    requires Closed(h) && Ranked(h, true, rank)
    requires forall i :: 0 <= i < |Roots(answers)| ==> Roots(answers)[i] in h
    ensures r.Ok? <==> AllHold(roots, checks) && Consumable(c, k, h, answers, request, expected)
    ensures r.Ok? ==> r.value == Chosen(c, AnsweredPairs(c, k, answers), request)
    ensures r.Ok? ==> PairwiseIsolated(h, Roots(answers))
    ensures r.Ok? ==> forall i, j :: 0 <= i < |Roots(answers)| && 0 <= j < |Roots(answers)| && i != j ==>
      Isolated(h, Roots(answers)[i], Roots(answers)[j])
  {
    var resolved := ResolveInventory(c, k, answers, expected, roots, checks);
    if resolved.Refused? {
      return Refused(resolved.reason);
    }
    var pairs := resolved.value;
    var selected := Chosen(c, pairs, request);
    var intact := CheckWalked(c, answers, pairs);
    if !intact {
      return Refused(SourceMismatch);
    }
    var graphs := WalkAll(h, Roots(answers), rank);
    var distinct := CheckAliases(graphs);
    if !distinct || !Holds(roots, checks.compared) || !Holds(roots, checks.prepared) {
      return Refused(HistoryInvalid);
    }
    DisjointResultsAreIsolated(h, Roots(answers));
    r := SealSelection(c, answers, selected, request, roots, checks.sealed);
  }

  // ---- What comes out is committed ----

  /** Every committed assessment names a committed interpretation, available at its start. */
  predicate SourcesCommitted(c: Codec, k: Commitments) {
    forall i :: 0 <= i < |k.assessments.entries| ==> SourceCommitted(c, k, k.assessments.entries[i])
  }

  predicate SourceCommitted(c: Codec, k: Commitments, a: Assessment) {
    && 1 <= a.content.source.sequence <= |k.interpretations.entries|
    && Corresponds(c, a, k.interpretations.entries[a.content.source.sequence - 1])
  }

  function SourceOf(c: Codec, k: Commitments, a: Assessment): Interpretation
    requires SourceCommitted(c, k, a)
  {
    k.interpretations.entries[a.content.source.sequence - 1]
  }

  /** The complete inventory, read off the two commitments. */
  function CommittedPairs(c: Codec, k: Commitments): (pairs: seq<Pair>)
    requires SourcesCommitted(c, k)
    ensures |pairs| == |k.assessments.entries|
    ensures forall i :: 0 <= i < |pairs| ==>
      pairs[i] == PairOf(c, k.assessments.entries[i], SourceOf(c, k, k.assessments.entries[i]))
  {
    seq(|k.assessments.entries|, i requires 0 <= i < |k.assessments.entries| =>
      PairOf(c, k.assessments.entries[i], SourceOf(c, k, k.assessments.entries[i])))
  }

  /** A value that encodes to a committed fact is the entry at its own sequence. */
  lemma {:induction false} FactFixesEntry(c: Codec, k: Commitments, s: Interpretation)
    requires FaithfulCodec(c) && Sound(k.sourceNamespace, k.interpretations)
    requires c.interpretation(s) in InterpretationFacts(c, k)
    ensures 1 <= s.sequence <= |k.interpretations.entries| && s == k.interpretations.entries[s.sequence - 1]
  {
    var i :| 0 <= i < |InterpretationFacts(c, k)| && InterpretationFacts(c, k)[i] == c.interpretation(s);
    assert k.interpretations.entries[i] == s && s.sequence == i + 1;
  }

  /** Whatever the publisher or a callback answered, the pairs of a successful consumption
      are those of the commitments. */
  lemma {:induction false} ConsumedPairsAreCommitted(c: Codec, k: Commitments, answers: seq<Answer>)
    requires FaithfulCodec(c) && SoundCommitments(k) && AllResolve(c, k, answers)
    ensures SourcesCommitted(c, k) && AnsweredPairs(c, k, answers) == CommittedPairs(c, k)
  {
    forall i | 0 <= i < |answers|
      ensures SourceCommitted(c, k, k.assessments.entries[i])
      ensures answers[i].first.value == SourceOf(c, k, k.assessments.entries[i])
    {
      assert Resolves(c, k, k.assessments.entries[i], answers[i]);
      FactFixesEntry(c, k, answers[i].first.value);
    }
  }

  /** The results of every pair as they are walked, and the pairs that a revalidation
      expects, are the committed ones. */
  lemma {:induction false} RereadPairsAreCommitted(c: Codec, k: Commitments, answers: seq<Answer>, expected: seq<Pair>)
    requires FaithfulCodec(c) && SoundCommitments(k) && AllResolve(c, k, answers)
    ensures SourcesCommitted(c, k)
    ensures WalkedIntact(c, answers, AnsweredPairs(c, k, answers)) <==>
      forall i :: 0 <= i < |answers| ==>
        PairOf(c, answers[i].walkedAssessment, answers[i].walkedInterpretation) == CommittedPairs(c, k)[i]
    ensures AsExpected(c, expected, AnsweredPairs(c, k, answers)) <==> expected == CommittedPairs(c, k)
  {
    ConsumedPairsAreCommitted(c, k, answers);
    var pairs := CommittedPairs(c, k);
    forall i, a, s | 0 <= i < |pairs|
      ensures StillEncodes(c, a, s, pairs[i]) <==> PairOf(c, a, s) == pairs[i]
    {
      EncodingFixesPair(c, k, i, a, s);
    }
    if AsExpected(c, expected, pairs) {
      forall i | 0 <= i < |pairs| ensures expected[i] == pairs[i] {
        assert StillEncodes(c, expected[i].assessment, expected[i].interpretation, pairs[i]);
      }
      assert expected == pairs;
    }
  }

  lemma {:induction false} EncodingFixesPair(c: Codec, k: Commitments, i: nat, a: Assessment, s: Interpretation)
    requires FaithfulCodec(c) && SourcesCommitted(c, k) && i < |CommittedPairs(c, k)|
    ensures StillEncodes(c, a, s, CommittedPairs(c, k)[i]) <==> PairOf(c, a, s) == CommittedPairs(c, k)[i]
  {
    var p := CommittedPairs(c, k)[i];
    assert p == PairOf(c, k.assessments.entries[i], SourceOf(c, k, k.assessments.entries[i]));
  }

  /** What the original publisher answers: its own lookup, twice; and nobody writes into the
      results. */
  predicate Honest(c: Codec, k: Commitments, answers: seq<Answer>) {
    && |answers| == |k.assessments.entries|
    && forall i :: 0 <= i < |answers| ==> IsHonest(c, k, k.assessments.entries[i], answers[i])
  }

  /** With the original publisher the sources resolve exactly when they are committed, so
      consumption is complete as well: it refuses no intact inventory. */
  lemma {:induction false} HonestAnswersResolveExactly(c: Codec, k: Commitments, answers: seq<Answer>)
    requires FaithfulCodec(c) && SoundCommitments(k) && Honest(c, k, answers)
    ensures AllResolve(c, k, answers) <==> SourcesCommitted(c, k)
    ensures AllResolve(c, k, answers) ==> AllReseal(c, answers) && WalkedIntact(c, answers, AnsweredPairs(c, k, answers))
  {
    if SourcesCommitted(c, k) {
      forall i | 0 <= i < |answers| ensures Resolves(c, k, k.assessments.entries[i], answers[i]) {
        var a := k.assessments.entries[i];
        assert SourceCommitted(c, k, a);
        assert LooksUp(c, k, a.content.source, answers[i].first);
        assert InterpretationFacts(c, k)[a.content.source.sequence - 1] == c.interpretation(SourceOf(c, k, a));
      }
    }
    if AllResolve(c, k, answers) {
      ConsumedPairsAreCommitted(c, k, answers);
      forall i | 0 <= i < |answers| ensures Reseals(c, answers[i]) {
        assert Resolves(c, k, k.assessments.entries[i], answers[i]);
      }
    }
  }

  /** A named assessment is found exactly when it is committed, and never twice: a sound
      history has one entry per sequence. */
  lemma {:induction false} NamedIsCommitted(c: Codec, k: Commitments, request: Selector)
    requires SoundCommitments(k) && SourcesCommitted(c, k)
    ensures |Chosen(c, CommittedPairs(c, k), Some(request))| <= 1
    ensures |Chosen(c, CommittedPairs(c, k), Some(request))| == 1
       <==> exists i :: 0 <= i < |k.assessments.entries| && AssessmentSelector(c, k.assessments.entries[i]) == request
  {
    var pairs := CommittedPairs(c, k);
    forall i, j | 0 <= i < j < |pairs|
      ensures AssessmentSelector(c, pairs[i].assessment) != AssessmentSelector(c, pairs[j].assessment)
    {
      assert pairs[i].assessment == k.assessments.entries[i] && pairs[j].assessment == k.assessments.entries[j];
      assert k.assessments.entries[i].sequence != k.assessments.entries[j].sequence;
    }
    ChosenCount(c, pairs, request);
    if i :| 0 <= i < |k.assessments.entries| && AssessmentSelector(c, k.assessments.entries[i]) == request {
      assert AssessmentSelector(c, pairs[i].assessment) == request;
    }
  }

  lemma {:induction false} ChosenCount(c: Codec, pairs: seq<Pair>, request: Selector)
    requires forall i, j :: 0 <= i < j < |pairs| ==>
      AssessmentSelector(c, pairs[i].assessment) != AssessmentSelector(c, pairs[j].assessment)
    ensures |Chosen(c, pairs, Some(request))| <= 1
    ensures |Chosen(c, pairs, Some(request))| == 1
       <==> exists i :: 0 <= i < |pairs| && AssessmentSelector(c, pairs[i].assessment) == request
  {
    if pairs != [] {
      var n := |pairs| - 1;
      var front := pairs[..n];
      ChosenCount(c, front, request);
      assert forall i :: 0 <= i < n ==> front[i] == pairs[i];
      if AssessmentSelector(c, pairs[n].assessment) == request {
        assert forall i :: 0 <= i < |front| ==> AssessmentSelector(c, front[i].assessment) != request;
      }
    }
  }

  // ---- Consumption in terms of the two commitments ----

  /** Field by field: `s` is the source that `a` names, available when it started. */
  predicate IsSourceOf(c: Codec, a: Assessment, s: Interpretation) {
    && a.content.source.artifact == s.content.artifact && a.content.source.executionId == s.executionId
    && a.content.source.namespace == s.namespace && a.content.source.sequence == s.sequence
    && a.content.source.fingerprint == c.interpretationPrint(s) && s.available <= a.started
  }

  predicate HasSource(c: Codec, k: Commitments, a: Assessment) {
    exists j :: 0 <= j < |k.interpretations.entries| && IsSourceOf(c, a, k.interpretations.entries[j])
  }

  lemma {:induction false} SourceCommittedExactly(c: Codec, k: Commitments, a: Assessment)
    requires Sound(k.sourceNamespace, k.interpretations)
    ensures SourceCommitted(c, k, a) <==> HasSource(c, k, a)
    ensures SourceCommitted(c, k, a) ==> IsSourceOf(c, a, k.interpretations.entries[a.content.source.sequence - 1])
  {
    if j :| 0 <= j < |k.interpretations.entries| && IsSourceOf(c, a, k.interpretations.entries[j]) {
      assert k.interpretations.entries[j].sequence == j + 1;
    }
  }

  /** Field by field: the assessment that a request names. */
  predicate IsNamed(c: Codec, a: Assessment, request: Selector) {
    && request.artifact == a.content.source.artifact && request.executionId == a.executionId
    && request.namespace == a.namespace && request.sequence == a.sequence && request.fingerprint == c.assessmentPrint(a)
  }

  lemma {:induction false} ChosenExactly(c: Codec, pairs: seq<Pair>, request: Selector)
    ensures Chosen(c, pairs, None) == pairs
    ensures forall p :: p in Chosen(c, pairs, Some(request)) <==> p in pairs && IsNamed(c, p.assessment, request)
  {
    if pairs != [] { ChosenExactly(c, pairs[..|pairs| - 1], request); }
  }

  /** The canonical encodings and the two histories are as they should be, and every answer is
      the original publisher's. */
  ghost predicate AllHonest(c: Codec, k: Commitments, answers: seq<Answer>) {
    && (forall s, t :: c.interpretation(s) == c.interpretation(t) ==> s == t)
    && (forall a, b :: c.assessment(a) == c.assessment(b) ==> a == b)
    && Sound(k.namespace, k.assessments) && Sound(k.sourceNamespace, k.interpretations)
    && |answers| == |k.assessments.entries|
    && forall i :: 0 <= i < |answers| ==> IsHonest(c, k, k.assessments.entries[i], answers[i])
  }

  lemma {:induction false} SourcesExactly(c: Codec, k: Commitments)
    requires Sound(k.sourceNamespace, k.interpretations)
    ensures SourcesCommitted(c, k) <==> forall i :: 0 <= i < |k.assessments.entries| ==> HasSource(c, k, k.assessments.entries[i])
  {
    forall i | 0 <= i < |k.assessments.entries|
      ensures SourceCommitted(c, k, k.assessments.entries[i]) <==> HasSource(c, k, k.assessments.entries[i])
    {
      SourceCommittedExactly(c, k, k.assessments.entries[i]);
    }
  }

  lemma {:induction false} NamedExactly(c: Codec, k: Commitments, request: Selector)
    requires SoundCommitments(k) && SourcesCommitted(c, k)
    ensures |Chosen(c, CommittedPairs(c, k), Some(request))| == 1
      <==> exists i :: 0 <= i < |k.assessments.entries| && IsNamed(c, k.assessments.entries[i], request)
  {
    NamedIsCommitted(c, k, request);
    forall i | 0 <= i < |k.assessments.entries|
      ensures AssessmentSelector(c, k.assessments.entries[i]) == request <==> IsNamed(c, k.assessments.entries[i], request)
    {
    }
  }

  /** With the original publisher and no interference, consumption succeeds exactly when
      every committed assessment has its committed source, the rebuilt results share nothing
      and a requested assessment is committed. */
  lemma {:induction false} ConsumesExactly(c: Codec, k: Commitments, h: Heap, answers: seq<Answer>, request: Option<Selector>)
    requires AllHonest(c, k, answers)
    ensures Consumable(c, k, h, answers, request, None) <==>
      && (forall i :: 0 <= i < |answers| ==> HasSource(c, k, k.assessments.entries[i]))
      && PairwiseDisjoint(Graphs(h, Roots(answers)))
      && (request.Some? ==> exists i :: 0 <= i < |answers| && IsNamed(c, k.assessments.entries[i], request.value))
  {
    HonestAnswersResolveExactly(c, k, answers);
    SourcesExactly(c, k);
    if AllResolve(c, k, answers) {
      ConsumedPairsAreCommitted(c, k, answers);
      if request.Some? { NamedExactly(c, k, request.value); }
    }
  }

  /** Each pair is then an assessment with its source. */
  lemma {:induction false} ConsumedPairsExactly(c: Codec, k: Commitments, answers: seq<Answer>, i: nat)
    requires AllHonest(c, k, answers) && AllResolve(c, k, answers) && i < |answers|
    ensures var a, pair := k.assessments.entries[i], AnsweredPairs(c, k, answers)[i];
      IsSourceOf(c, a, pair.interpretation)
      && pair == Pair(a, pair.interpretation, c.assessment(a), c.interpretation(pair.interpretation))
  {
    ConsumedPairsAreCommitted(c, k, answers);
    assert SourceCommitted(c, k, k.assessments.entries[i]);
    SourceCommittedExactly(c, k, k.assessments.entries[i]);
  }

  /** One answer of the original publisher: its lookup, repeated, and nobody writes into it. */
  predicate IsHonest(c: Codec, k: Commitments, a: Assessment, answer: Answer) {
    && LooksUp(c, k, a.content.source, answer.first) && answer.sealed == answer.first && answer.walkedAssessment == a
    && (answer.first.Ok? ==> answer.walkedInterpretation == answer.first.value)
  }

  /** Publications of either kind leave a complete inventory complete and its earlier pairs
      as they were. */
  lemma {:induction false} InventoryOnlyGrows(c: Codec, k: Commitments, l: Commitments)
    requires SourcesCommitted(c, k) && SourcesCommitted(c, l)
    requires Extends(k.assessments, l.assessments) && Extends(k.interpretations, l.interpretations)
    ensures CommittedPairs(c, k) <= CommittedPairs(c, l)
  {
    var p, q := CommittedPairs(c, k), CommittedPairs(c, l);
    forall i | 0 <= i < |p| ensures p[i] == q[i] {
      assert k.assessments.entries[i] == l.assessments.entries[i];
    }
    assert p == q[..|p|];
  }
}
