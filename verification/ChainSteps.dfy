/** What one execution adds to the chain, condition by condition, and a run in which every
    stage commits. */
module ChainSteps {
  import opened Basics
  import opened ProvenanceChain

  const ID_COMPARING: set<Stage> := {Technical, Interpretation, Assessment, Strategy}

  /** Clocks, the last retained availability, the stage's own ids and, where the stage
      compares them, the new id. */
  predicate MayExtend(c: Chain, x: Execution) {
    && x.started <= x.completed <= x.available
    && x.limit <= x.completed && (x.stage != Qualification ==> x.limit == x.started)
    && (forall i :: 0 <= i < |c[x.stage]| ==> c[x.stage][i].available <= x.available)
    && (forall i, j :: 0 <= i < j < |c[x.stage]| ==> c[x.stage][i].executionId != c[x.stage][j].executionId)
    && (x.stage in ID_COMPARING ==> forall i :: 0 <= i < |c[x.stage]| ==> c[x.stage][i].executionId != x.executionId)
  }

  /** The request names `o`, which was available by the limit: a qualification compares id
      and artifact, a bridge the fingerprint too, later stages also namespace and sequence. */
  predicate Asks(x: Execution, o: Occurrence) {
    && o.executionId == x.request.executionId && o.artifact == x.request.artifact
    && (x.stage != Qualification ==> x.request.fingerprint == Sha256(o))
    && (x.stage in ID_COMPARING ==> x.request.namespace == o.namespace && x.request.sequence == o.sequence)
    && o.available <= x.limit
  }

  /** No history above the stage has retained an id twice. */
  predicate IdsDistinctAbove(c: Chain, s: Stage) {
    forall u: Stage :: Depth(u) < Depth(s) ==>
      forall i, j :: 0 <= i < j < |c[u]| ==> c[u][i].executionId != c[u][j].executionId
  }

  /** What is appended: the execution's own identity, clocks and content, the next sequence,
      and artifact and selector of the source. */
  function Appended(c: Chain, x: Execution, artifact: string, source: Source): Chain {
    c[x.stage := c[x.stage] + [Occurrence(x.stage, x.namespace, |c[x.stage]| + 1, x.executionId, artifact,
      x.started, x.limit, x.completed, x.available, source, x.content)]]
  }

  function SourceFrom(o: Occurrence): Source {
    From(Selector(o.artifact, o.namespace, o.sequence, o.executionId, Sha256(o)), o.available)
  }

  lemma {:induction false} ExtendsInTime(c: Chain, x: Execution)
    requires Consistent(c)
    ensures MayExtend(c, x) <==> InTime(c, x) && DistinctIds(c[x.stage])
  {
    LastIsLatest(c[x.stage], x.available);
  }

  lemma {:induction false} LastIsLatest(entries: seq<Occurrence>, instant: Instant)
    requires forall i, j :: 0 <= i < j < |entries| ==> entries[i].available <= entries[j].available
    ensures (forall i :: 0 <= i < |entries| ==> entries[i].available <= instant)
       <==> (entries != [] ==> entries[|entries| - 1].available <= instant)
  {
    if entries != [] && entries[|entries| - 1].available <= instant {
      forall i | 0 <= i < |entries| ensures entries[i].available <= instant {
        assert i < |entries| - 1 ==> entries[i].available <= entries[|entries| - 1].available;
      }
    }
  }

  lemma {:induction false} AsksExactly(x: Execution, o: Occurrence)
    requires x.stage != Construction
    ensures Asks(x, o) <==> Matches(x.stage, x.request, x.limit, o)
  {
  }

  /** A construction is appended exactly when it may extend its history. */
  lemma {:induction false} ConstructionPerformsExactly(c: Chain, x: Execution)
    requires Consistent(c) && x.stage == Construction
    ensures Perform(c, x) == if MayExtend(c, x) then Appended(c, x, x.artifact, Root) else c
  {
    ExtendsInTime(c, x);
  }

  /** On every reachable chain, an execution whose request names a retained occurrence in time
      appends exactly its own occurrence with that source when it may extend its history and
      no history above repeats an id; in every other case nothing changes. */
  lemma {:induction false} StagePerformsExactly(c: Chain, x: Execution, k: nat)
    requires Consistent(c) && x.stage != Construction
    requires k < |c[Upstream(x.stage)]| && Asks(x, c[Upstream(x.stage)][k])
    ensures var o := c[Upstream(x.stage)][k];
      Perform(c, x) == if MayExtend(c, x) && IdsDistinctAbove(c, x.stage) then Appended(c, x, o.artifact, SourceFrom(o)) else c
  {
    CommitsExactly(c, x, k);
    if Commits(c, x) { ResultExactly(c, x, c[Upstream(x.stage)][k]); }
  }

  lemma {:induction false} CommitsExactly(c: Chain, x: Execution, k: nat)
    requires Consistent(c) && x.stage != Construction
    requires k < |c[Upstream(x.stage)]| && Asks(x, c[Upstream(x.stage)][k])
    ensures Commits(c, x) <==> MayExtend(c, x) && IdsDistinctAbove(c, x.stage)
    ensures Commits(c, x) ==> Resolve(c, x.stage, x.request, x.limit) == Some(c[Upstream(x.stage)][k])
  {
    ExtendsInTime(c, x);
    AsksExactly(x, c[Upstream(x.stage)][k]);
    ResolvesExactly(c, x.stage, x.request, x.limit, k);
    AboveExactly(c, x.stage);
  }

  lemma {:induction false} ResultExactly(c: Chain, x: Execution, o: Occurrence)
    requires x.stage != Construction && Commits(c, x) && Resolve(c, x.stage, x.request, x.limit) == Some(o)
    ensures Perform(c, x) == Appended(c, x, o.artifact, SourceFrom(o))
  {
  }

  lemma {:induction false} AboveExactly(c: Chain, s: Stage)
    requires Consistent(c)
    ensures IdsDistinctAbove(c, s) <==> DistinctUpstream(c, s)
  {
  }

  lemma {:induction false} UnnamedPerformsNothing(c: Chain, x: Execution)
    requires Consistent(c) && x.stage != Construction
    requires forall k :: 0 <= k < |c[Upstream(x.stage)]| ==> !Asks(x, c[Upstream(x.stage)][k])
    ensures Perform(c, x) == c
  {
    if Resolve(c, x.stage, x.request, x.limit).Some? { var k := SomethingIsAsked(c, x); }
  }

  lemma {:induction false} SomethingIsAsked(c: Chain, x: Execution) returns (k: nat)
    requires Consistent(c) && x.stage != Construction && Resolve(c, x.stage, x.request, x.limit).Some?
    ensures k < |c[Upstream(x.stage)]| && Asks(x, c[Upstream(x.stage)][k])
  {
    k := ResolvedPosition(c, x.stage, x.request, x.limit);
    AsksExactly(x, c[Upstream(x.stage)][k]);
  }

  lemma {:induction false} ResolvedPosition(c: Chain, s: Stage, request: Selector, limit: Instant) returns (k: nat)
    requires s != Construction && Resolve(c, s, request, limit).Some?
    ensures k < |c[Upstream(s)]| && Matches(s, request, limit, c[Upstream(s)][k])
  {
    var entries := c[Upstream(s)];
    var positions := MatchingIsRetained(s, entries, request, limit);
    assert |positions| == 1;
    k := positions[0];
    assert k in positions;
  }

  // ---- A run in which every stage commits ----

  function StageAt(n: nat): Stage
    requires n < 7
    ensures Depth(StageAt(n)) == n
  {
    if n == 0 then Construction else if n == 1 then Qualification else if n == 2 then Bridge
    else if n == 3 then Technical else if n == 4 then Interpretation else if n == 5 then Assessment else Strategy
  }

  /** The stages above `n` have committed once, at instant 0. */
  ghost predicate CommittedOnce(c: Chain, n: nat) {
    && Consistent(c)
    && (forall s: Stage :: |c[s]| == if Depth(s) < n then 1 else 0)
    && (forall s: Stage, i :: 0 <= i < |c[s]| ==> c[s][i].available == 0)
  }

  function Plain(s: Stage, request: Selector): Execution {
    Execution(s, request, "artifact", "", "id", 0, 0, 0, 0, 0)
  }

  const NO_REQUEST := Selector("", "", 0, "", Sha256(Occurrence(Construction, "", 0, "", "", 0, 0, 0, 0, Root, 0)))

  lemma {:induction false} OneMoreStage(c: Chain, n: nat) returns (x: Execution)
    requires n < 7 && CommittedOnce(c, n)
    ensures CommittedOnce(Perform(c, x), n + 1)
  {
    var s := StageAt(n);
    if n == 0 {
      x := Plain(s, NO_REQUEST);
      ConstructionPerformsExactly(c, x);
      AppendedOnce(c, n, x, x.artifact, Root);
    } else {
      assert Depth(Upstream(s)) == n - 1;
      var o := c[Upstream(s)][0];
      x := Plain(s, SelectorOf(o));
      FirstMayExtend(c, n, x);
      StagePerformsExactly(c, x, 0);
      AppendedOnce(c, n, x, o.artifact, SourceFrom(o));
    }
    StepKeepsConsistent(c, x);
  }

  lemma {:induction false} FirstMayExtend(c: Chain, n: nat, x: Execution)
    requires n < 7 && CommittedOnce(c, n) && x == Plain(StageAt(n), x.request)
    ensures MayExtend(c, x) && IdsDistinctAbove(c, x.stage)
  {
    assert c[x.stage] == [];
  }

  lemma {:induction false} AppendedOnce(c: Chain, n: nat, x: Execution, artifact: string, source: Source)
    requires n < 7 && CommittedOnce(c, n) && x == Plain(StageAt(n), x.request)
    ensures var d := Appended(c, x, artifact, source);
      && (forall s: Stage :: |d[s]| == if Depth(s) < n + 1 then 1 else 0)
      && (forall s: Stage, i :: 0 <= i < |d[s]| ==> d[s][i].available == 0)
  {
    assert forall u: Stage :: Depth(u) == n <==> u == x.stage;
  }

  lemma {:induction false} StagesCommit(n: nat) returns (run: seq<Execution>)
    requires n <= 7
    ensures |run| == n && CommittedOnce(PerformAll(EMPTY_CHAIN, run), n)
  {
    if n == 0 {
      run := [];
      EmptyIsConsistent();
    } else {
      var before := StagesCommit(n - 1);
      var x := OneMoreStage(PerformAll(EMPTY_CHAIN, before), n - 1);
      run := before + [x];
      PerformOneMore(EMPTY_CHAIN, before, x);
    }
  }

  lemma {:induction false} EmptyIsConsistent()
    ensures CommittedOnce(EMPTY_CHAIN, 0)
  {
  }

  lemma {:induction false} PerformOneMore(c: Chain, run: seq<Execution>, x: Execution)
    ensures PerformAll(c, run + [x]) == Perform(PerformAll(c, run), x)
    decreases |run|
  {
    if run == [] {
      assert run + [x] == [x] && [x][1..] == [];
    } else {
      assert (run + [x])[1..] == run[1..] + [x];
      PerformOneMore(Perform(c, run[0]), run[1..], x);
    }
  }

  /** Seven executions, one a stage, each asking for what the one before retained, leave one
      committed occurrence in every history, the Strategy's included. */
  lemma {:induction false} EveryStageCommits() returns (run: seq<Execution>)
    ensures |run| == 7 && forall s: Stage :: |PerformAll(EMPTY_CHAIN, run)[s]| == 1
  {
    run := StagesCommit(7);
    assert forall s: Stage :: Depth(s) < 7;
  }
}
