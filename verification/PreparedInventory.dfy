/** Sealing a prepared assessment inventory (`_seal_prepared_assessment_inventory`): the
    working data was prepared earlier in the transaction, and callbacks may change it
    until and while it is sealed. */
module PreparedInventory {
  import opened Basics
  import opened Results
  import opened PublicationHistory
  import opened ObjectGraph
  import opened AssessmentConsumption
  import T = InterpretationTransaction
  import N = TransactionNest
  import S = TransactionSafety

  /** The working data as it reads at one moment. */
  datatype Inventory = Inventory(pairs: seq<Pair>, facts: seq<(string, string)>, selectors: seq<Selector>, sources: seq<Selector>)

  predicate SameLengths(v: Inventory) {
    |v.pairs| == |v.facts| == |v.selectors| == |v.sources|
  }

  /** `_check_prepared_assessment_facts` for one position. Encoding validates, and a
      sequence is positive. */
  predicate PairIntact(c: Codec, v: Inventory, i: nat)
    requires SameLengths(v) && i < |v.pairs|
  {
    var p := v.pairs[i];
    && (p.assessmentFact, p.interpretationFact) == v.facts[i]
    && p.assessment.sequence > 0 && c.assessment(p.assessment) == p.assessmentFact
    && p.interpretation.sequence > 0 && c.interpretation(p.interpretation) == p.interpretationFact
    && AssessmentSelector(c, p.assessment) == v.selectors[i] && p.assessment.content.source == v.sources[i]
  }

  predicate FactsIntact(c: Codec, v: Inventory) {
    SameLengths(v) && forall i :: 0 <= i < |v.pairs| ==> PairIntact(c, v, i)
  }

  predicate PairsCorrespond(c: Codec, v: Inventory) {
    forall i :: 0 <= i < |v.pairs| ==> Corresponds(c, v.pairs[i].assessment, v.pairs[i].interpretation)
  }

  /** `_check_prepared_assessment_facts` */
  method CheckFacts(c: Codec, v: Inventory) returns (ok: bool)
    ensures ok <==> FactsIntact(c, v)
  {
    if !SameLengths(v) {
      return false;
    }
    for i := 0 to |v.pairs|
      invariant forall j :: 0 <= j < i ==> PairIntact(c, v, j)
    {
      if !PairIntact(c, v, i) {
        return false;
      }
    }
    ok := true;
  }

  /** Subscription as the source does it: a negative index counts from the end. */
  function At(facts: seq<string>, index: int): Option<string> {
    if 0 <= index < |facts| then Some(facts[index])
    else if -|facts| <= index < 0 then Some(facts[|facts| + index])
    else None
  }

  /** One position of the loop: the source selector that is requested, the interpretation
      that the prepared upstream inventory selects for it, and the pair's own interpretation,
      each as it reads at that moment. */
  datatype Binding = Binding(request: Selector, selected: Option<Interpretation>, source: Interpretation)

  predicate Binds(c: Codec, k: Commitments, b: Binding, fact: string) {
    && b.selected.Some? && InterpretationSelector(c, b.selected.value) == b.request
    && c.interpretation(b.selected.value) == fact
    && b.source.namespace == k.sourceNamespace
    && b.source.sequence <= |k.interpretations.entries|
    && At(InterpretationFacts(c, k), b.source.sequence - 1) == Some(fact)
  }

  /** What the seal reads, in order. Between any two of these callbacks may run: `first` at
      the first complete check, `facts` when the commitment is compared and the loop
      begins, one binding per position, `last` at the second complete check, and at the
      end what the selected objects hold after the upstream seal. */
  datatype Reads = Reads(
    first: Inventory, facts: seq<(string, string)>, bindings: seq<Binding>, last: Inventory,
    upstream: T.Phase, sealed: seq<Interpretation>)

  predicate FirstFactsCommitted(c: Codec, k: Commitments, facts: seq<(string, string)>) {
    && |facts| == |k.assessments.entries|
    && forall i :: 0 <= i < |facts| ==> facts[i].0 == AssessmentFacts(c, k)[i]
  }

  predicate AllBind(c: Codec, k: Commitments, facts: seq<(string, string)>, bindings: seq<Binding>) {
    && |bindings| == |facts|
    && forall i :: 0 <= i < |facts| ==> Binds(c, k, bindings[i], facts[i].1)
  }

  predicate SealedAlike(c: Codec, bindings: seq<Binding>, sealed: seq<Interpretation>) {
    && |sealed| == |bindings|
    && forall i :: 0 <= i < |sealed| ==> SameOccurrence(c, sealed[i], bindings[i].source)
  }

  predicate Seals(c: Codec, k: Commitments, r: Reads) {
    && Sound(k.namespace, k.assessments)
    && FactsIntact(c, r.first) && PairsCorrespond(c, r.first)
    && FirstFactsCommitted(c, k, r.facts) && AllBind(c, k, r.facts, r.bindings)
    && FactsIntact(c, r.last)
    && r.upstream == T.Phase.Sealed && SealedAlike(c, r.bindings, r.sealed)
  }

  /** The authority fields as read at each recheck of the seal. */
  datatype Checks = Checks(entered: map<string, Id>, bound: map<string, Id>, sealed: map<string, Id>)

  /** The upstream transaction after all that happened to it, its seal included, has this
      phase. */
  ghost predicate Ran(w: N.World, events: seq<N.Event>, upstream: T.Phase) {
    N.Fresh(w) && N.Run(w, events).txn.Some? && N.Run(w, events).txn.value.phase == upstream
  }

  /** `_seal_prepared_assessment_inventory`. The upstream phase is that of an arbitrary run
      of the transaction, callbacks at every point. */
  method SealPrepared(c: Codec, k: Commitments, r: Reads, roots: map<string, Id>, checks: Checks,
                      ghost w: N.World, ghost events: seq<N.Event>)
      returns (refusal: Option<Refusal>)
    requires |r.bindings| == |r.facts| && |r.sealed| == |r.bindings|
    requires Ran(w, events, r.upstream)
    ensures refusal.None? <==>
      Seals(c, k, r) && Holds(roots, checks.entered) && Holds(roots, checks.bound) && Holds(roots, checks.sealed)
    ensures refusal.None? ==> N.Agreed(N.Run(w, events).txn.value, N.Run(w, events).passes, 3)
  {
    if !Holds(roots, checks.entered) {
      return Some(HistoryInvalid);
    }
    var sound := ValidateOccurrences(k.namespace, k.assessments);
    if !sound {
      return Some(HistoryInvalid);
    }
    var intact := CheckFacts(c, r.first);
    if !intact || !PairsCorrespond(c, r.first) {
      return Some(SourceMismatch);
    }
    if !FirstFactsCommitted(c, k, r.facts) {
      return Some(HistoryInvalid);
    }
    for i := 0 to |r.facts|
      invariant forall j :: 0 <= j < i ==> Binds(c, k, r.bindings[j], r.facts[j].1)
    {
      if !Binds(c, k, r.bindings[i], r.facts[i].1) {
        return Some(SourceMismatch);
      }
    }
    if !Holds(roots, checks.bound) {
      return Some(HistoryInvalid);
    }
    intact := CheckFacts(c, r.last);
    if !intact {
      return Some(SourceMismatch);
    }
    if r.upstream != T.Phase.Sealed {
      return Some(HistoryInvalid);
    }
    S.SealedMeansThreeAgreeingPasses(w, events);
    for i := 0 to |r.sealed|
      invariant forall j :: 0 <= j < i ==> SameOccurrence(c, r.sealed[j], r.bindings[j].source)
    {
      if !SameOccurrence(c, r.sealed[i], r.bindings[i].source) {
        return Some(SourceMismatch);
      }
    }
    refusal := if Holds(roots, checks.sealed) then None else Some(HistoryInvalid);
  }

  // ---- One position, and a seal that nothing disturbs ----

  /** Field by field: pair, facts and selectors of one position agree. */
  lemma {:induction false} IntactExactly(c: Codec, v: Inventory, i: nat)
    requires SameLengths(v) && i < |v.pairs|
    ensures PairIntact(c, v, i) <==>
      && var p := v.pairs[i];
         1 <= p.assessment.sequence && 1 <= p.interpretation.sequence
         && v.facts[i] == (c.assessment(p.assessment), c.interpretation(p.interpretation))
         && p.assessmentFact == v.facts[i].0 && p.interpretationFact == v.facts[i].1
         && v.sources[i] == p.assessment.content.source
         && IsNamed(c, p.assessment, v.selectors[i])
  {
  }

  /** The fact at a subscript, counted from either end. */
  lemma {:induction false} AtExactly(facts: seq<string>, index: int, fact: string)
    ensures At(facts, index) == Some(fact) <==>
      exists k :: 0 <= k < |facts| && facts[k] == fact && (index == k || index == k - |facts|)
  {
    var k := if index < 0 then index + |facts| else index;
    if 0 <= k < |facts| && At(facts, index) == Some(fact) { assert facts[k] == fact; }
  }

  /** Field by field: the selected interpretation is the requested occurrence, encodes to the
      fact, and the fact is committed at the sequence of the pair's own interpretation. */
  lemma {:induction false} BindsExactly(c: Codec, k: Commitments, b: Binding, fact: string)
    ensures Binds(c, k, b, fact) <==>
      && b.selected.Some?
      && var s, n := b.selected.value, |k.interpretations.entries|;
         && b.request == Selector(s.content.artifact, s.namespace, s.sequence, s.executionId, c.interpretationPrint(s))
         && c.interpretation(s) == fact
         && b.source.namespace == k.sourceNamespace && b.source.sequence <= n
         && exists i :: 0 <= i < n && c.interpretation(k.interpretations.entries[i]) == fact
              && (b.source.sequence == i + 1 || b.source.sequence == i + 1 - n)
  {
    var facts := InterpretationFacts(c, k);
    AtExactly(facts, b.source.sequence - 1, fact);
    if j :| 0 <= j < |facts| && facts[j] == fact && (b.source.sequence - 1 == j || b.source.sequence - 1 == j - |facts|) {
      assert c.interpretation(k.interpretations.entries[j]) == fact;
    }
    forall j | 0 <= j < |facts| && c.interpretation(k.interpretations.entries[j]) == fact ensures facts[j] == fact {
    }
  }

  /** The working data as preparation leaves it, read off the two commitments. */
  function Untouched(c: Codec, k: Commitments): (v: Inventory)
    requires SourcesCommitted(c, k)
    ensures SameLengths(v) && |v.pairs| == |k.assessments.entries|
    ensures forall i :: 0 <= i < |v.pairs| ==>
      && v.pairs[i] == PairOf(c, k.assessments.entries[i], SourceOf(c, k, k.assessments.entries[i]))
      && v.facts[i] == (v.pairs[i].assessmentFact, v.pairs[i].interpretationFact)
      && v.selectors[i] == AssessmentSelector(c, k.assessments.entries[i])
      && v.sources[i] == k.assessments.entries[i].content.source
  {
    var pairs, n := CommittedPairs(c, k), |k.assessments.entries|;
    Inventory(pairs,
      seq(n, i requires 0 <= i < n => (pairs[i].assessmentFact, pairs[i].interpretationFact)),
      seq(n, i requires 0 <= i < n => AssessmentSelector(c, k.assessments.entries[i])),
      seq(n, i requires 0 <= i < n => k.assessments.entries[i].content.source))
  }

  /** Every reading finds the working data as it was left, and each selection the committed
      interpretation that it asks for. */
  predicate Undisturbed(c: Codec, k: Commitments, r: Reads)
    requires SourcesCommitted(c, k)
  {
    && r.first == Untouched(c, k) && r.facts == r.first.facts && r.last == r.first
    && |r.bindings| == |r.sealed| == |k.assessments.entries|
    && forall i :: 0 <= i < |r.bindings| ==>
         && var s := SourceOf(c, k, k.assessments.entries[i]);
            r.bindings[i] == Binding(k.assessments.entries[i].content.source, Some(s), s) && r.sealed[i] == s
  }

  /** Then the seal succeeds exactly when the upstream transaction is sealed. */
  lemma {:induction false} UndisturbedSeals(c: Codec, k: Commitments, r: Reads)
    requires Sound(k.namespace, k.assessments) && Sound(k.sourceNamespace, k.interpretations) && SourcesCommitted(c, k)
    requires Undisturbed(c, k, r)
    ensures Seals(c, k, r) <==> r.upstream == T.Phase.Sealed
  {
    var v := r.first;
    forall i | 0 <= i < |v.pairs|
      ensures PairIntact(c, v, i) && Corresponds(c, v.pairs[i].assessment, v.pairs[i].interpretation)
      ensures Binds(c, k, r.bindings[i], r.facts[i].1) && SameOccurrence(c, r.sealed[i], r.bindings[i].source)
      ensures r.facts[i].0 == AssessmentFacts(c, k)[i]
    {
      UndisturbedPosition(c, k, r, i);
    }
  }

  lemma {:induction false} UndisturbedPosition(c: Codec, k: Commitments, r: Reads, i: nat)
    requires Sound(k.namespace, k.assessments) && Sound(k.sourceNamespace, k.interpretations) && SourcesCommitted(c, k)
    requires Undisturbed(c, k, r) && i < |k.assessments.entries|
    ensures var v := r.first;
      && PairIntact(c, v, i) && Corresponds(c, v.pairs[i].assessment, v.pairs[i].interpretation)
      && Binds(c, k, r.bindings[i], r.facts[i].1) && SameOccurrence(c, r.sealed[i], r.bindings[i].source)
      && r.facts[i].0 == AssessmentFacts(c, k)[i]
  {
    var a := k.assessments.entries[i];
    var s := SourceOf(c, k, a);
    assert SourceCommitted(c, k, a);
    assert s.sequence == a.content.source.sequence && s.namespace == k.sourceNamespace;
    assert InterpretationFacts(c, k)[s.sequence - 1] == c.interpretation(s);
  }

  // ---- What a sealed inventory is ----

  /** The working data is the committed inventory: every committed assessment with the
      committed interpretation that it names. */
  ghost predicate IsCommitted(c: Codec, k: Commitments, v: Inventory) {
    SourcesCommitted(c, k) && v.pairs == CommittedPairs(c, k)
  }

  lemma {:induction false} FactsFixPairs(c: Codec, v: Inventory, w: Inventory)
    requires FaithfulCodec(c) && FactsIntact(c, v) && FactsIntact(c, w) && v.facts == w.facts
    ensures v == w
  {
    forall i | 0 <= i < |v.pairs|
      ensures v.pairs[i] == w.pairs[i] && v.selectors[i] == w.selectors[i] && v.sources[i] == w.sources[i]
    {
      assert PairIntact(c, v, i) && PairIntact(c, w, i);
    }
    assert v.pairs == w.pairs && v.selectors == w.selectors && v.sources == w.sources;
  }

  /** Every interpretation that the loop selected is the committed one that its request
      names, and so is the pair's own. */
  lemma {:induction false} BoundAreCommitted(c: Codec, k: Commitments, r: Reads, i: nat)
    requires FaithfulCodec(c) && SoundCommitments(k) && Seals(c, k, r) && i < |r.bindings|
    ensures var b, entries := r.bindings[i], k.interpretations.entries;
      && 1 <= b.request.sequence <= |entries| && b.selected == Some(entries[b.request.sequence - 1])
      && InterpretationSelector(c, b.selected.value) == b.request
  {
    var b := r.bindings[i];
    assert Binds(c, k, b, r.facts[i].1);
    assert r.facts[i].1 in InterpretationFacts(c, k);
    FactFixesEntry(c, k, b.selected.value);
  }

  predicate SecondFactsCommitted(c: Codec, k: Commitments, facts: seq<(string, string)>) {
    forall i :: 0 <= i < |facts| ==> facts[i].1 in InterpretationFacts(c, k)
  }

  /** Working data that agrees with its own facts is the committed inventory exactly when
      those facts are committed, all of them, and its pairs correspond. */
  lemma {:induction false} IntactIsCommittedExactly(c: Codec, k: Commitments, v: Inventory)
    requires FaithfulCodec(c) && SoundCommitments(k) && FactsIntact(c, v)
    ensures IsCommitted(c, k, v) <==>
      FirstFactsCommitted(c, k, v.facts) && SecondFactsCommitted(c, k, v.facts) && PairsCorrespond(c, v)
  {
    if FirstFactsCommitted(c, k, v.facts) && SecondFactsCommitted(c, k, v.facts) && PairsCorrespond(c, v) {
      CommittedFactsFixPairs(c, k, v);
    }
    if IsCommitted(c, k, v) {
      forall i | 0 <= i < |v.facts|
        ensures v.facts[i].0 == AssessmentFacts(c, k)[i] && v.facts[i].1 in InterpretationFacts(c, k)
        ensures Corresponds(c, v.pairs[i].assessment, v.pairs[i].interpretation)
      {
        var a := k.assessments.entries[i];
        assert PairIntact(c, v, i) && SourceCommitted(c, k, a);
        assert v.pairs[i] == PairOf(c, a, SourceOf(c, k, a));
        assert InterpretationFacts(c, k)[a.content.source.sequence - 1] == v.facts[i].1;
      }
    }
  }

  lemma {:induction false} CommittedFactsFixPairs(c: Codec, k: Commitments, v: Inventory)
    requires FaithfulCodec(c) && SoundCommitments(k) && FactsIntact(c, v)
    requires FirstFactsCommitted(c, k, v.facts) && SecondFactsCommitted(c, k, v.facts) && PairsCorrespond(c, v)
    ensures IsCommitted(c, k, v)
  {
    forall i | 0 <= i < |v.pairs|
      ensures SourceCommitted(c, k, k.assessments.entries[i])
      ensures v.pairs[i] == PairOf(c, k.assessments.entries[i], SourceOf(c, k, k.assessments.entries[i]))
    {
      assert PairIntact(c, v, i) && v.facts[i].0 == AssessmentFacts(c, k)[i];
      assert c.assessment(v.pairs[i].assessment) == c.assessment(k.assessments.entries[i]);
      FactFixesEntry(c, k, v.pairs[i].interpretation);
    }
    assert v.pairs == CommittedPairs(c, k);
  }

  /** Whatever callbacks changed between preparation and seal, and whatever they changed or
      changed back during it: what a seal leaves is the committed inventory exactly when the
      facts that its second complete check read are committed and the pairs correspond then. */
  lemma {:induction false} SealedIsCommittedExactly(c: Codec, k: Commitments, r: Reads)
    requires FaithfulCodec(c) && SoundCommitments(k) && Seals(c, k, r)
    ensures IsCommitted(c, k, r.last) <==>
      FirstFactsCommitted(c, k, r.last.facts) && SecondFactsCommitted(c, k, r.last.facts) && PairsCorrespond(c, r.last)
  {
    IntactIsCommittedExactly(c, k, r.last);
  }

  /** What the first complete check saw is the committed inventory, provided that its
      facts were still there when the commitment was compared. */
  lemma {:induction false} FirstIsCommitted(c: Codec, k: Commitments, r: Reads)
    requires FaithfulCodec(c) && SoundCommitments(k) && Seals(c, k, r) && r.first.facts == r.facts
    ensures IsCommitted(c, k, r.first)
  {
    forall i | 0 <= i < |r.facts| ensures r.facts[i].1 in InterpretationFacts(c, k) {
      assert Binds(c, k, r.bindings[i], r.facts[i].1);
    }
    CommittedFactsFixPairs(c, k, r.first);
  }

  /** If the facts of the first check were still there at the comparison: the seal leaves the
      committed inventory exactly when they are there at the second check too. */
  lemma {:induction false} KeptFactsAreCommittedExactly(c: Codec, k: Commitments, r: Reads)
    requires FaithfulCodec(c) && SoundCommitments(k) && Seals(c, k, r) && r.first.facts == r.facts
    ensures IsCommitted(c, k, r.last) <==> r.last.facts == r.facts
  {
    FirstIsCommitted(c, k, r);
    if r.last.facts == r.facts {
      FactsFixPairs(c, r.first, r.last);
    }
    if IsCommitted(c, k, r.last) {
      forall i | 0 <= i < |r.last.facts| ensures r.last.facts[i] == r.first.facts[i] {
        assert PairIntact(c, r.last, i) && PairIntact(c, r.first, i);
      }
    }
  }

  /** Two inventories that seal against the same commitments with their facts in place are
      the same. */
  lemma {:induction false} SealFixesInventory(c: Codec, k: Commitments, r: Reads, s: Reads)
    requires FaithfulCodec(c) && SoundCommitments(k) && Seals(c, k, r) && Seals(c, k, s)
    requires r.first.facts == r.facts == r.last.facts && s.first.facts == s.facts == s.last.facts
    ensures r.last == s.last
  {
    KeptFactsAreCommittedExactly(c, k, r);
    KeptFactsAreCommittedExactly(c, k, s);
    forall i | 0 <= i < |r.last.facts| ensures r.last.facts[i] == s.last.facts[i] {
      assert PairIntact(c, r.last, i) && PairIntact(c, s.last, i);
    }
    FactsFixPairs(c, r.last, s.last);
  }

  /** One pair that was never committed, with facts and selectors to match. */
  function Swapped(c: Codec, b: Assessment, s: Interpretation): Inventory {
    var p := PairOf(c, b, s);
    Inventory([p], [(p.assessmentFact, p.interpretationFact)], [AssessmentSelector(c, b)], [b.content.source])
  }

  lemma {:induction false} SwappedIsIntact(c: Codec, k: Commitments, b: Assessment, s: Interpretation)
    requires b.sequence > 0 && s.sequence > 0
    ensures FactsIntact(c, Swapped(c, b, s))
    ensures |k.assessments.entries| == 1 && b != k.assessments.entries[0] ==> !IsCommitted(c, k, Swapped(c, b, s))
  {
    var v := Swapped(c, b, s);
    assert PairIntact(c, v, 0);
    assert v.pairs[0].assessment == b;
  }

  /** The second check compares the working data with its own facts only: replaced together
      after the comparison with the commitment, an uncommitted assessment passes. */
  lemma {:induction false} ReplacedFactsPass(c: Codec, k: Commitments, r: Reads, b: Assessment)
    requires FaithfulCodec(c) && SoundCommitments(k) && Seals(c, k, r) && r.first.facts == r.facts
    requires |r.first.pairs| == 1 && b.sequence > 0 && b != k.assessments.entries[0]
    ensures var swapped := Swapped(c, b, r.first.pairs[0].interpretation);
      Seals(c, k, r.(last := swapped)) && !IsCommitted(c, k, swapped)
  {
    assert PairIntact(c, r.first, 0);
    SwappedIsIntact(c, k, b, r.first.pairs[0].interpretation);
  }

  /** So does one that is there at both complete checks, with the committed facts put in
      place only for the comparison: equal facts at both checks say nothing. */
  lemma {:induction false} ChangedBackPasses(c: Codec, k: Commitments, r: Reads, b: Assessment)
    requires FaithfulCodec(c) && SoundCommitments(k) && Seals(c, k, r)
    requires |r.first.pairs| == 1 == |r.facts| && b.sequence > 0 && b != k.assessments.entries[0]
    requires Corresponds(c, b, r.first.pairs[0].interpretation)
    ensures var swapped := Swapped(c, b, r.first.pairs[0].interpretation);
      var changed := r.(first := swapped, last := swapped);
      Seals(c, k, changed) && changed.first.facts == changed.last.facts && !IsCommitted(c, k, changed.last)
  {
    assert PairIntact(c, r.first, 0);
    SwappedIsIntact(c, k, b, r.first.pairs[0].interpretation);
  }
}
