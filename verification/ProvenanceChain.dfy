/** The seven publishing stages from construction to strategy: each occurrence
    names one retained occurrence of the stage before it. */
module ProvenanceChain {
  import opened Basics

  datatype Stage = Construction | Qualification | Bridge | Technical | Interpretation | Assessment | Strategy

  function Depth(s: Stage): nat {
    match s
    case Construction => 0
    case Qualification => 1
    case Bridge => 2
    case Technical => 3
    case Interpretation => 4
    case Assessment => 5
    case Strategy => 6
  }

  function Upstream(s: Stage): Stage
    requires s != Construction
    ensures Depth(Upstream(s)) == Depth(s) - 1
  {
    match s
    case Qualification => Construction
    case Bridge => Qualification
    case Technical => Bridge
    case Interpretation => Technical
    case Assessment => Interpretation
    case Strategy => Assessment
  }

  /** The fingerprint covers the whole payload; SHA-256 is modelled as injective. */
  datatype Digest = Sha256(payload: Occurrence)

  datatype Selector = Selector(artifact: string, namespace: string, sequence: int, executionId: string, fingerprint: Digest)

  datatype Source = Root | From(selector: Selector, sourceAvailable: Instant)

  /** `limit` is the instant by which the source had to be available: the knowledge cutoff of
      a qualification, elsewhere the start. */
  datatype Occurrence = Occurrence(
    stage: Stage, namespace: string, sequence: int, executionId: string, artifact: string,
    started: Instant, limit: Instant, completed: Instant, available: Instant, source: Source, content: int)

  function SelectorOf(o: Occurrence): Selector {
    Selector(o.artifact, o.namespace, o.sequence, o.executionId, Sha256(o))
  }

  /** The seven histories. */
  type Chain = c: map<Stage, seq<Occurrence>> | forall s: Stage :: s in c
    witness (map s: Stage | true :: [])

  const EMPTY_CHAIN: Chain := map s: Stage | true :: []

  /** Which fields of a request the consuming stage compares. */
  predicate Names(consumer: Stage, request: Selector, o: Occurrence) {
    match consumer
    case Construction => false
    case Qualification => o.executionId == request.executionId && o.artifact == request.artifact
    case Bridge =>
      o.executionId == request.executionId && Sha256(o) == request.fingerprint && o.artifact == request.artifact
    case _ => SelectorOf(o) == request
  }

  /** The source tuple comprehension: retained, named and available by the limit. */
  function Matching(consumer: Stage, entries: seq<Occurrence>, request: Selector, limit: Instant): seq<Occurrence> {
    if entries == [] then []
    else Matching(consumer, entries[..|entries| - 1], request, limit)
         + (var o := entries[|entries| - 1];
            if Names(consumer, request, o) && o.available <= limit then [o] else [])
  }

  predicate DistinctIds(entries: seq<Occurrence>) {
    forall i, j :: 0 <= i < j < |entries| ==> entries[i].executionId != entries[j].executionId
  }

  /** Resolving a source: the upstream history is validated as a whole, then the one match is
      taken, and its own source is resolved in turn as of its own limit, down to the
      construction. */
  function Resolve(c: Chain, consumer: Stage, request: Selector, limit: Instant): Option<Occurrence>
    requires consumer != Construction
    decreases Depth(consumer)
  {
    var up := Upstream(consumer);
    var found := Matching(consumer, c[up], request, limit);
    if !DistinctIds(c[up]) || |found| != 1 then None
    else if up == Construction then Some(found[0])
    else match found[0].source
      case Root => None
      case From(selector, _) =>
        match Resolve(c, up, selector, found[0].limit)
        case None => None
        case Some(source) => if SelectorOf(source) == selector then Some(found[0]) else None
  }

  /** One execution: the request, its clock samples and its fresh identity. */
  datatype Execution = Execution(
    stage: Stage, request: Selector, artifact: string, namespace: string, executionId: string,
    started: Instant, limit: Instant, completed: Instant, available: Instant, content: int)

  predicate ChecksIds(s: Stage) {
    s.Technical? || s.Interpretation? || s.Assessment? || s.Strategy?
  }

  predicate InTime(c: Chain, x: Execution)
  {
    var entries := c[x.stage];
    && x.started <= x.completed <= x.available
    && (entries != [] ==> entries[|entries| - 1].available <= x.available)
    && x.limit <= x.completed
    && (!x.stage.Qualification? ==> x.limit == x.started)
    && (ChecksIds(x.stage) ==> forall i :: 0 <= i < |entries| ==> entries[i].executionId != x.executionId)
  }

  /** The own history is validated before anything is added to it. */
  predicate Commits(c: Chain, x: Execution)
  {
    && InTime(c, x) && DistinctIds(c[x.stage])
    && (x.stage != Construction ==> Resolve(c, x.stage, x.request, x.limit).Some?)
  }

  function ResultOf(c: Chain, x: Execution): Occurrence
    requires Commits(c, x)
  {
    var sequence := |c[x.stage]| + 1;
    if x.stage == Construction
    then Occurrence(x.stage, x.namespace, sequence, x.executionId, x.artifact,
                    x.started, x.limit, x.completed, x.available, Root, x.content)
    else
      var o := Resolve(c, x.stage, x.request, x.limit).value;
      Occurrence(x.stage, x.namespace, sequence, x.executionId, o.artifact,
                 x.started, x.limit, x.completed, x.available, From(SelectorOf(o), o.available), x.content)
  }

  function Perform(c: Chain, x: Execution): Chain
  {
    if Commits(c, x) then c[x.stage := c[x.stage] + [ResultOf(c, x)]] else c
  }

  function PerformAll(c: Chain, run: seq<Execution>): Chain
    decreases |run|
  {
    if run == [] then c else PerformAll(Perform(c, run[0]), run[1..])
  }

  // ---- The invariant ----

  predicate Linked(c: Chain, s: Stage, o: Occurrence)
  {
    && o.stage == s
    && o.started <= o.completed <= o.available && o.limit <= o.completed
    && (s == Construction ==> o.source == Root)
    && (s != Construction ==>
          && o.source.From?
          && 1 <= o.source.selector.sequence <= |c[Upstream(s)]|
          && (var from := c[Upstream(s)][o.source.selector.sequence - 1];
              && SelectorOf(from) == o.source.selector
              && from.available == o.source.sourceAvailable
              && from.artifact == o.artifact
              && from.available <= o.limit))
  }

  ghost predicate Consistent(c: Chain) {
    && (forall s: Stage, i :: 0 <= i < |c[s]| ==> c[s][i].sequence == i + 1 && Linked(c, s, c[s][i]))
    && (forall s: Stage, i, j :: 0 <= i < j < |c[s]| ==> c[s][i].available <= c[s][j].available)
    && (forall s: Stage :: ChecksIds(s) ==> DistinctIds(c[s]))
  }

  predicate Matches(consumer: Stage, request: Selector, limit: Instant, o: Occurrence) {
    Names(consumer, request, o) && o.available <= limit
  }

  /** `found` lists the matches of `entries`, which stand at `positions`, once each and in
      their order. */
  ghost predicate Picks(consumer: Stage, request: Selector, limit: Instant, entries: seq<Occurrence>,
      found: seq<Occurrence>, positions: seq<int>)
  {
    && |positions| == |found|
    && (forall m :: 0 <= m < |positions| ==> 0 <= positions[m] < |entries| && found[m] == entries[positions[m]])
    && (forall m, n :: 0 <= m < n < |positions| ==> positions[m] < positions[n])
    && (forall k :: 0 <= k < |entries| ==> (k in positions <==> Matches(consumer, request, limit, entries[k])))
  }

  lemma {:induction false} PicksOneMore(consumer: Stage, request: Selector, limit: Instant, entries: seq<Occurrence>, o: Occurrence,
      found: seq<Occurrence>, positions: seq<int>)
    requires Picks(consumer, request, limit, entries, found, positions)
    ensures Matches(consumer, request, limit, o) ==>
              Picks(consumer, request, limit, entries + [o], found + [o], positions + [|entries|])
    ensures !Matches(consumer, request, limit, o) ==> Picks(consumer, request, limit, entries + [o], found, positions)
  {
    var n, all, more := |entries|, entries + [o], positions + [|entries|];
    assert n !in positions;
    forall k | 0 <= k < |all| ensures k in more <==> k in positions || k == n {
      if k == n { assert more[|positions|] == n; }
    }
  }

  /** The comprehension yields the retained, named and available occurrences, no other, none
      twice, and in their order. */
  lemma {:induction false} MatchingIsRetained(consumer: Stage, entries: seq<Occurrence>, request: Selector, limit: Instant)
      returns (positions: seq<int>)
    ensures Picks(consumer, request, limit, entries, Matching(consumer, entries, request, limit), positions)
    decreases |entries|
  {
    if entries == [] {
      positions := [];
    } else {
      var front, last := entries[..|entries| - 1], entries[|entries| - 1];
      positions := MatchingIsRetained(consumer, front, request, limit);
      PicksOneMore(consumer, request, limit, front, last, Matching(consumer, front, request, limit), positions);
      assert entries == front + [last];
      assert Matching(consumer, front, request, limit) + [] == Matching(consumer, front, request, limit);
      if Matches(consumer, request, limit, last) { positions := positions + [|front|]; }
    }
  }

  /** The one match is a retained occurrence at its own sequence. */
  lemma {:induction false} SourceIsRetained(c: Chain, consumer: Stage, request: Selector, limit: Instant)
    requires Consistent(c) && consumer != Construction && Resolve(c, consumer, request, limit).Some?
    ensures var o, entries := Resolve(c, consumer, request, limit).value, c[Upstream(consumer)];
      && 1 <= o.sequence <= |entries| && entries[o.sequence - 1] == o
      && Names(consumer, request, o) && o.available <= limit
  {
    var entries := c[Upstream(consumer)];
    var positions := MatchingIsRetained(consumer, entries, request, limit);
    assert positions[0] in positions;
    assert entries[positions[0]].sequence == positions[0] + 1;
  }

  lemma {:induction false} LinkSurvives(c: Chain, c': Chain, s: Stage, o: Occurrence)
    requires Linked(c, s, o) && forall u: Stage :: c[u] <= c'[u]
    ensures Linked(c', s, o)
  {
    if s != Construction {
      var up := Upstream(s);
      assert c[up] <= c'[up];
    }
  }

  lemma {:induction false} AppendKeepsConsistent(c: Chain, s: Stage, o: Occurrence, c': Chain)
    requires Consistent(c) && Linked(c, s, o) && o.sequence == |c[s]| + 1
    requires forall i :: 0 <= i < |c[s]| ==> c[s][i].available <= o.available
    requires ChecksIds(s) ==> forall i :: 0 <= i < |c[s]| ==> c[s][i].executionId != o.executionId
    requires c'[s] == c[s] + [o] && forall u: Stage :: u != s ==> c'[u] == c[u]
    ensures Consistent(c')
    ensures forall u: Stage :: c[u] <= c'[u]
  {
    AppendKeepsLinks(c, s, o, c');
    AppendKeepsOrder(c, s, o, c');
    AppendKeepsIds(c, s, o, c');
  }

  lemma {:induction false} AppendKeepsIds(c: Chain, s: Stage, o: Occurrence, c': Chain)
    requires forall u: Stage :: ChecksIds(u) ==> DistinctIds(c[u])
    requires ChecksIds(s) ==> forall i :: 0 <= i < |c[s]| ==> c[s][i].executionId != o.executionId
    requires c'[s] == c[s] + [o] && forall u: Stage :: u != s ==> c'[u] == c[u]
    ensures forall u: Stage :: ChecksIds(u) ==> DistinctIds(c'[u])
  {
    forall u: Stage | ChecksIds(u) ensures DistinctIds(c'[u]) {
      assert DistinctIds(c[u]);
    }
  }

  lemma {:induction false} AppendKeepsLinks(c: Chain, s: Stage, o: Occurrence, c': Chain)
    requires forall u: Stage, i :: 0 <= i < |c[u]| ==> c[u][i].sequence == i + 1 && Linked(c, u, c[u][i])
    requires Linked(c, s, o) && o.sequence == |c[s]| + 1
    requires c'[s] == c[s] + [o] && forall u: Stage :: u != s ==> c'[u] == c[u]
    ensures forall u: Stage :: c[u] <= c'[u]
    ensures forall u: Stage, i :: 0 <= i < |c'[u]| ==> c'[u][i].sequence == i + 1 && Linked(c', u, c'[u][i])
  {
    assert forall u: Stage :: c[u] <= c'[u];
    forall u: Stage, i: int | 0 <= i < |c'[u]| ensures c'[u][i].sequence == i + 1 && Linked(c', u, c'[u][i]) {
      EntryStaysLinked(c, s, o, c', u, i);
    }
  }

  lemma {:induction false} EntryStaysLinked(c: Chain, s: Stage, o: Occurrence, c': Chain, u: Stage, i: nat)
    requires forall i :: 0 <= i < |c[u]| ==> c[u][i].sequence == i + 1 && Linked(c, u, c[u][i])
    requires Linked(c, s, o) && o.sequence == |c[s]| + 1 && forall u: Stage :: c[u] <= c'[u]
    requires c'[s] == c[s] + [o] && (u != s ==> c'[u] == c[u]) && i < |c'[u]|
    ensures c'[u][i].sequence == i + 1 && Linked(c', u, c'[u][i])
  {
    if i < |c[u]| {
      LinkSurvives(c, c', u, c[u][i]);
    } else {
      LinkSurvives(c, c', s, o);
    }
  }

  lemma {:induction false} AppendKeepsOrder(c: Chain, s: Stage, o: Occurrence, c': Chain)
    requires forall u: Stage, i, j :: 0 <= i < j < |c[u]| ==> c[u][i].available <= c[u][j].available
    requires forall i :: 0 <= i < |c[s]| ==> c[s][i].available <= o.available
    requires c'[s] == c[s] + [o] && forall u: Stage :: u != s ==> c'[u] == c[u]
    ensures forall u: Stage, i, j :: 0 <= i < j < |c'[u]| ==> c'[u][i].available <= c'[u][j].available
  {
    forall u: Stage, i, j | 0 <= i < j < |c'[u]| ensures c'[u][i].available <= c'[u][j].available {
      assert c'[u][i] == c[u][i];
      assert j < |c[u]| ==> c'[u][j] == c[u][j];
    }
  }

  lemma {:induction false} StepKeepsConsistent(c: Chain, x: Execution)
    requires Consistent(c)
    ensures Consistent(Perform(c, x))
    ensures forall s: Stage :: c[s] <= Perform(c, x)[s]
  {
    if Commits(c, x) {
      var o, entries := ResultOf(c, x), c[x.stage];
      ResultIsLinked(c, x);
      forall i | 0 <= i < |entries| ensures entries[i].available <= o.available {
        if i < |entries| - 1 { assert entries[i].available <= entries[|entries| - 1].available; }
      }
      AppendKeepsConsistent(c, x.stage, o, Perform(c, x));
    }
  }

  lemma {:induction false} ResultIsLinked(c: Chain, x: Execution)
    requires Consistent(c) && Commits(c, x)
    ensures Linked(c, x.stage, ResultOf(c, x))
  {
    if x.stage != Construction { SourceIsRetained(c, x.stage, x.request, x.limit); }
  }

  lemma {:induction false} RunKeepsConsistent(c: Chain, run: seq<Execution>)
    requires Consistent(c)
    ensures Consistent(PerformAll(c, run))
    ensures forall s: Stage :: c[s] <= PerformAll(c, run)[s]
    decreases |run|
  {
    if run != [] {
      StepKeepsConsistent(c, run[0]);
      RunKeepsConsistent(Perform(c, run[0]), run[1..]);
    }
  }

  lemma {:induction false} ReachableIsConsistent(run: seq<Execution>)
    ensures Consistent(PerformAll(EMPTY_CHAIN, run))
  {
    RunKeepsConsistent(EMPTY_CHAIN, run);
  }

  // ---- Provenance closure ----

  /** Follow the named sequences upstream, the occurrence itself first. */
  function Lineage(c: Chain, o: Occurrence): seq<Occurrence>
    decreases Depth(o.stage)
  {
    if o.stage == Construction || !o.source.From? then [o]
    else
      var k := o.source.selector.sequence;
      var entries := c[Upstream(o.stage)];
      if 1 <= k <= |entries| && entries[k - 1].stage == Upstream(o.stage) then [o] + Lineage(c, entries[k - 1]) else [o]
  }

  /** The lineage that the fingerprints commit to, read without any history. */
  function Committed(o: Occurrence): seq<Occurrence> {
    match o.source
    case Root => [o]
    case From(selector, _) => [o] + Committed(selector.fingerprint.payload)
  }

  /** `o` is the one retained occurrence of its history that the selector names. */
  ghost predicate ExactlyOne(c: Chain, s: Stage, selector: Selector, o: Occurrence)
  {
    && 1 <= selector.sequence <= |c[s]|
    && c[s][selector.sequence - 1] == o
    && forall j :: 0 <= j < |c[s]| && SelectorOf(c[s][j]) == selector ==> j == selector.sequence - 1
  }

  ghost predicate ClosedLineage(c: Chain, line: seq<Occurrence>)
  {
    && (forall i :: 0 <= i < |line| - 1 ==>
          && line[i].source.From?
          && line[i].stage != Construction && Upstream(line[i].stage) == line[i + 1].stage
          && ExactlyOne(c, line[i + 1].stage, line[i].source.selector, line[i + 1])
          && line[i + 1].artifact == line[i].artifact)
    && (forall i, j :: 0 <= i < j < |line| ==> line[j].available <= line[i].available)
  }

  lemma {:induction false} LineageIsClosed(c: Chain, o: Occurrence)
    requires Consistent(c) && o in c[o.stage]
    ensures |Lineage(c, o)| == Depth(o.stage) + 1
    ensures Lineage(c, o)[0] == o && Lineage(c, o)[Depth(o.stage)].stage == Construction
    ensures ClosedLineage(c, Lineage(c, o))
    ensures Lineage(c, o) == Committed(o)
    decreases Depth(o.stage)
  {
    if o.stage == Construction {
      RetainedIsLinked(c, o);
    } else {
      var from := SourceOf(c, o);
      LineageIsClosed(c, from);
      ClosedPrepend(c, o, Lineage(c, from));
    }
  }

  lemma {:induction false} RetainedStage(c: Chain, s: Stage, o: Occurrence)
    requires (forall i :: 0 <= i < |c[s]| ==> Linked(c, s, c[s][i])) && o in c[s]
    ensures o.stage == s
  {
  }

  lemma {:induction false} RetainedIsLinked(c: Chain, o: Occurrence)
    requires Consistent(c) && o in c[o.stage]
    ensures Linked(c, o.stage, o)
  {
    var i :| 0 <= i < |c[o.stage]| && c[o.stage][i] == o;
  }

  /** One step upstream: the retained source, and how lineage and commitment unfold. */
  lemma {:induction false} SourceOf(c: Chain, o: Occurrence) returns (from: Occurrence)
    requires Consistent(c) && o in c[o.stage] && o.stage != Construction
    ensures o.source.From? && from.stage == Upstream(o.stage) && from in c[from.stage]
    ensures ExactlyOne(c, from.stage, o.source.selector, from)
    ensures from.artifact == o.artifact && from.available <= o.available
    ensures Lineage(c, o) == [o] + Lineage(c, from) && Committed(o) == [o] + Committed(from)
  {
    RetainedIsLinked(c, o);
    var up := Upstream(o.stage);
    from := c[up][o.source.selector.sequence - 1];
    assert Linked(c, up, from);
    assert SelectorOf(from) == o.source.selector;
  }

  lemma {:induction false} ClosedPrepend(c: Chain, o: Occurrence, rest: seq<Occurrence>)
    requires ClosedLineage(c, rest) && rest != [] && o.source.From? && o.stage != Construction
    requires Upstream(o.stage) == rest[0].stage && ExactlyOne(c, rest[0].stage, o.source.selector, rest[0])
    requires rest[0].artifact == o.artifact && rest[0].available <= o.available
    ensures ClosedLineage(c, [o] + rest)
  {
    var line := [o] + rest;
    forall a, b | 0 <= a < b < |line| ensures line[b].available <= line[a].available {
      assert line[b] == rest[b - 1];
      assert a > 0 ==> line[a] == rest[a - 1];
      assert b - 1 > 0 ==> rest[b - 1].available <= rest[0].available;
    }
    forall a | 0 <= a < |line| - 1
      ensures && line[a].source.From? && line[a].stage != Construction && Upstream(line[a].stage) == line[a + 1].stage
              && ExactlyOne(c, line[a + 1].stage, line[a].source.selector, line[a + 1])
              && line[a + 1].artifact == line[a].artifact
    {
      assert line[a + 1] == rest[a];
      if a > 0 { assert line[a] == rest[a - 1] && rest[a] == rest[a - 1 + 1]; }
    }
  }

  /** In every reachable state every committed strategy leads, through exactly one
      occurrence of each stage at its named sequence, to one construction, and
      availability never decreases from that construction to the strategy. What it
      leads to is what its own fingerprint commits to. */
  lemma {:induction false} StrategyProvenance(run: seq<Execution>, o: Occurrence)
    requires o in PerformAll(EMPTY_CHAIN, run)[Strategy]
    ensures var c := PerformAll(EMPTY_CHAIN, run);
      && |Lineage(c, o)| == 7
      && Lineage(c, o)[6].stage == Construction
      && ClosedLineage(c, Lineage(c, o))
      && Lineage(c, o) == Committed(o)
  {
    ReachableIsConsistent(run);
    RetainedProvenance(PerformAll(EMPTY_CHAIN, run), o);
  }

  lemma {:induction false} RetainedProvenance(c: Chain, o: Occurrence)
    requires Consistent(c) && o in c[Strategy]
    ensures |Lineage(c, o)| == 7 && Lineage(c, o)[6].stage == Construction
    ensures ClosedLineage(c, Lineage(c, o)) && Lineage(c, o) == Committed(o)
  {
    RetainedStage(c, Strategy, o);
    LineageIsClosed(c, o);
  }

  /** Later publications never disturb a retained lineage. */
  lemma {:induction false} LineageIsStable(run: seq<Execution>, later: seq<Execution>, o: Occurrence)
    requires o in PerformAll(EMPTY_CHAIN, run)[o.stage]
    ensures Lineage(PerformAll(PerformAll(EMPTY_CHAIN, run), later), o) == Lineage(PerformAll(EMPTY_CHAIN, run), o)
  {
    var c := PerformAll(EMPTY_CHAIN, run);
    ReachableIsConsistent(run);
    RunKeepsConsistent(c, later);
    assert c[o.stage] <= PerformAll(c, later)[o.stage];
    LineageIsClosed(c, o);
    LineageIsClosed(PerformAll(c, later), o);
  }

  /** Equal strategy fingerprints mean equal provenance down to the construction,
      even between two separate systems. */
  lemma {:induction false} EqualFingerprintsShareProvenance(run: seq<Execution>, run': seq<Execution>, o: Occurrence, o': Occurrence)
    requires o in PerformAll(EMPTY_CHAIN, run)[Strategy] && o' in PerformAll(EMPTY_CHAIN, run')[Strategy]
    requires Sha256(o) == Sha256(o')
    ensures Lineage(PerformAll(EMPTY_CHAIN, run), o) == Lineage(PerformAll(EMPTY_CHAIN, run'), o')
  {
    StrategyProvenance(run, o);
    StrategyProvenance(run', o');
  }

  // ---- Re-authentication ----

  /** The only match, whatever else is retained, exactly when nothing else matches. */
  lemma {:induction false} OnlyMatchExactly(consumer: Stage, entries: seq<Occurrence>, request: Selector, limit: Instant, k: nat)
    requires k < |entries| && Matches(consumer, request, limit, entries[k])
    ensures Matching(consumer, entries, request, limit) == [entries[k]]
       <==> forall j :: 0 <= j < |entries| && j != k ==> !Matches(consumer, request, limit, entries[j])
  {
    var positions := MatchingIsRetained(consumer, entries, request, limit);
    assert k in positions;
    assert |positions| > 1 ==> positions[0] < positions[1];
    if j :| 0 <= j < |entries| && j != k && Matches(consumer, request, limit, entries[j]) {
      assert j in positions;
    } else {
      forall m | 0 <= m < |positions| ensures positions[m] == k {
        assert positions[m] in positions;
      }
    }
  }

  /** No history above `s` repeats an execution id. Technical, interpretation, assessment and
      strategy compare a new id with the retained ones, so only the other three can. */
  predicate DistinctUpstream(c: Chain, s: Stage) {
    forall u: Stage :: Depth(u) < Depth(s) && !ChecksIds(u) ==> DistinctIds(c[u])
  }

  lemma {:induction false} DistinctOneUp(c: Chain, s: Stage)
    requires s != Construction && (forall u: Stage :: ChecksIds(u) ==> DistinctIds(c[u]))
    ensures DistinctUpstream(c, s) <==> DistinctIds(c[Upstream(s)]) && DistinctUpstream(c, Upstream(s))
  {
  }

  lemma {:induction false} OnlyMatch(consumer: Stage, entries: seq<Occurrence>, request: Selector, limit: Instant, k: nat)
    requires DistinctIds(entries) && k < |entries| && Matches(consumer, request, limit, entries[k])
    ensures Matching(consumer, entries, request, limit) == [entries[k]]
  {
    forall j | 0 <= j < |entries| && j != k ensures !Matches(consumer, request, limit, entries[j]) {
      assert if j < k then entries[j].executionId != entries[k].executionId else entries[k].executionId != entries[j].executionId;
    }
    OnlyMatchExactly(consumer, entries, request, limit, k);
  }

  /** A retained occurrence that the request names in time is what resolves, exactly when no
      history above the consumer repeats an id; otherwise nothing resolves. */
  lemma {:induction false} ResolvesExactly(c: Chain, s: Stage, request: Selector, limit: Instant, k: nat)
    requires Consistent(c) && s != Construction
    requires k < |c[Upstream(s)]| && Matches(s, request, limit, c[Upstream(s)][k])
    ensures Resolve(c, s, request, limit) == if DistinctUpstream(c, s) then Some(c[Upstream(s)][k]) else None
    decreases Depth(s)
  {
    var up := Upstream(s);
    DistinctOneUp(c, s);
    if !DistinctIds(c[up]) {
      assert Resolve(c, s, request, limit).None?;
    } else {
      var o := c[up][k];
      OnlyMatch(s, c[up], request, limit, k);
      if up == Construction {
        assert DistinctUpstream(c, up);
      } else {
        var n := SourcePosition(c, up, o, k);
        ResolvesExactly(c, up, o.source.selector, o.limit, n);
        ResolvesOneUp(c, s, request, limit, o);
      }
    }
  }

  lemma {:induction false} SourcePosition(c: Chain, s: Stage, o: Occurrence, k: nat) returns (n: nat)
    requires Consistent(c) && s != Construction && k < |c[s]| && c[s][k] == o
    ensures Linked(c, s, o) && n == o.source.selector.sequence - 1
    ensures Matches(s, o.source.selector, o.limit, c[Upstream(s)][n])
  {
    assert Linked(c, s, c[s][k]);
    ItsSourceMatches(c, s, o);
    n := o.source.selector.sequence - 1;
  }

  lemma {:induction false} ResolvesOneUp(c: Chain, s: Stage, request: Selector, limit: Instant, o: Occurrence)
    requires s != Construction && Upstream(s) != Construction && DistinctIds(c[Upstream(s)])
    requires Matching(s, c[Upstream(s)], request, limit) == [o] && Linked(c, Upstream(s), o)
    requires var up := Upstream(s); var source := Resolve(c, up, o.source.selector, o.limit);
      source.Some? ==> source.value == c[Upstream(up)][o.source.selector.sequence - 1]
    ensures Resolve(c, s, request, limit)
      == if Resolve(c, Upstream(s), o.source.selector, o.limit).Some? then Some(o) else None
  {
  }

  /** The retained source of an occurrence matches its own selector. */
  lemma {:induction false} ItsSourceMatches(c: Chain, s: Stage, o: Occurrence)
    requires s != Construction && Linked(c, s, o)
    ensures Matches(s, o.source.selector, o.limit, c[Upstream(s)][o.source.selector.sequence - 1])
  {
  }

  /** The retained source of `o`, as its selector names it. */
  function SourceAt(c: Chain, o: Occurrence): Occurrence
    requires o.stage != Construction && Linked(c, o.stage, o)
  {
    c[Upstream(o.stage)][o.source.selector.sequence - 1]
  }

  lemma {:induction false} SourceResolvesAgain(c: Chain, o: Occurrence, limit: Instant)
    requires Consistent(c) && o.stage != Construction && Linked(c, o.stage, o) && o.source.sourceAvailable <= limit
    ensures Resolve(c, o.stage, o.source.selector, limit) == if DistinctUpstream(c, o.stage) then Some(SourceAt(c, o)) else None
  {
    ItsSourceMatches(c, o.stage, o);
    ResolvesExactly(c, o.stage, o.source.selector, limit, o.source.selector.sequence - 1);
  }

  /** Every later use of an occurrence resolves its whole chain of sources again, each as of
      its own limit. That finds the recorded source exactly when no history above it has
      retained one id twice, whenever and for whatever artifact. */
  lemma {:induction false} RetainedSourceReauthenticates(run: seq<Execution>, o: Occurrence)
    requires o in PerformAll(EMPTY_CHAIN, run)[o.stage] && o.stage != Construction
    ensures Linked(PerformAll(EMPTY_CHAIN, run), o.stage, o)
    ensures var c := PerformAll(EMPTY_CHAIN, run);
      Resolve(c, o.stage, o.source.selector, o.limit) == if DistinctUpstream(c, o.stage) then Some(SourceAt(c, o)) else None
  {
    var c := PerformAll(EMPTY_CHAIN, run);
    ReachableIsConsistent(run);
    RetainedIsLinked(c, o);
    SourceResolvesAgain(c, o, o.limit);
  }

  /** A qualification compares execution id and artifact only, but every snapshot validates
      the whole construction history. At any cutoff from its source on, that source is found
      again exactly when no construction id is repeated. */
  lemma {:induction false} QualificationReauthenticatesExactly(run: seq<Execution>, o: Occurrence, cutoff: Instant)
    requires o in PerformAll(EMPTY_CHAIN, run)[Qualification] && o.stage == Qualification
    requires o.source.From? && o.source.sourceAvailable <= cutoff
    ensures Linked(PerformAll(EMPTY_CHAIN, run), Qualification, o)
    ensures var c := PerformAll(EMPTY_CHAIN, run);
      Resolve(c, Qualification, o.source.selector, cutoff) == if DistinctIds(c[Construction]) then Some(SourceAt(c, o)) else None
  {
    var c := PerformAll(EMPTY_CHAIN, run);
    ReachableIsConsistent(run);
    RetainedIsLinked(c, o);
    SourceResolvesAgain(c, o, cutoff);
    OnlyConstructionsAbove(c);
  }

  lemma {:induction false} OnlyConstructionsAbove(c: Chain)
    ensures DistinctUpstream(c, Qualification) <==> DistinctIds(c[Construction])
  {
    assert forall u: Stage :: Depth(u) < Depth(Qualification) <==> u == Construction;
  }

  /** Once an id is repeated in the history of one stage, that stage and everything below it
      never commits again. */
  lemma {:induction false} RepeatedIdStopsTheChain(c: Chain, run: seq<Execution>, u: Stage, s: Stage)
    requires !DistinctIds(c[u]) && Depth(u) <= Depth(s)
    ensures PerformAll(c, run)[s] == c[s]
    decreases |run|
  {
    if run != [] {
      var t := Perform(c, run[0]);
      if Depth(u) <= Depth(run[0].stage) { RepeatedIdIsRefused(c, run[0], u); }
      RepeatedIdStopsTheChain(t, run[1..], u, s);
    }
  }

  lemma {:induction false} RepeatedIdIsRefused(c: Chain, x: Execution, u: Stage)
    requires !DistinctIds(c[u]) && Depth(u) <= Depth(x.stage)
    ensures !Commits(c, x)
  {
    if u != x.stage { NothingBelowResolves(c, x.stage, x.request, x.limit, u); }
  }

  lemma {:induction false} NothingBelowResolves(c: Chain, s: Stage, request: Selector, limit: Instant, u: Stage)
    requires !DistinctIds(c[u]) && Depth(u) < Depth(s)
    ensures Resolve(c, s, request, limit).None?
    decreases Depth(s)
  {
    var up := Upstream(s);
    var found := Matching(s, c[up], request, limit);
    if u != up && |found| == 1 && found[0].source.From? {
      NothingBelowResolves(c, up, found[0].source.selector, found[0].limit, u);
    }
  }
}
