/** The eleven history locks and the operations that hold them, over any number
    of threads. */
module LockOrder {
  import opened Basics

  datatype Lock =
    | ConstructionLock | ValidationLock | FreshnessLock | AdmissionLock | ValidityLock
    | QualificationLock | BridgeLock | TechnicalLock | InterpretationLock | AssessmentLock | StrategyLock

  function Rank(l: Lock): nat {
    match l
    case ConstructionLock => 0
    case ValidationLock => 1
    case FreshnessLock => 2
    case AdmissionLock => 3
    case ValidityLock => 4
    case QualificationLock => 5
    case BridgeLock => 6
    case TechnicalLock => 7
    case InterpretationLock => 8
    case AssessmentLock => 9
    case StrategyLock => 10
  }

  /** Locking structure of one operation: work that may raise, and `with` blocks. */
  datatype Code = Work | Hold(locks: seq<Lock>, body: seq<Code>)

  datatype Operation =
    | ConstructionExecute | ConstructionHistory
    | ValidationExecute(concerns: nat) | ValidationHistory
    | FreshnessExecute | FreshnessHistory
    | IssueAdmission | AdmissionHistory
    | IssueInitialActive | ValidityHistory
    | ResolveRetainedMaterial | Qualify(replaysTask: bool) | QualificationHistory
    | BridgeExecute | BridgeHistory
    | TechnicalOperation | InterpretationOperation | AssessmentOperation | StrategyOperation

  const INPUT_LOCKS: seq<Lock> := [ConstructionLock, ValidationLock, FreshnessLock, AdmissionLock, ValidityLock]
  const TECHNICAL_LOCKS: seq<Lock> := INPUT_LOCKS + [QualificationLock, BridgeLock, TechnicalLock]
  const STRATEGY_LOCKS: seq<Lock> := TECHNICAL_LOCKS + [InterpretationLock, AssessmentLock, StrategyLock]

  function TaskFreshness(): seq<Code> {
    [Work, Hold([ConstructionLock], [Work]), Work, Hold([FreshnessLock], [Work])]
  }

  function Repeat(block: Code, times: nat): seq<Code> {
    if times == 0 then [] else [block] + Repeat(block, times - 1)
  }

  function Program(op: Operation): seq<Code> {
    match op
    case ConstructionExecute => [Work, Hold([ConstructionLock], [Work])]
    case ConstructionHistory => [Hold([ConstructionLock], [Work]), Work]
    case ValidationExecute(concerns) =>
      [Hold([ConstructionLock], [Work]), Work] + Repeat(Hold([ValidationLock], [Work]), concerns)
    case ValidationHistory => [Hold([ValidationLock], [Work]), Work]
    case FreshnessExecute => TaskFreshness()
    case FreshnessHistory => [Hold([FreshnessLock], [Work]), Work]
    case IssueAdmission =>
      [Hold([ConstructionLock, ValidationLock, FreshnessLock],
            [Work, Hold([AdmissionLock], [Work]), Work, Hold([AdmissionLock], [Work])])]
    case AdmissionHistory => [Hold([AdmissionLock], [Work]), Work]
    case IssueInitialActive => [Hold([ConstructionLock, AdmissionLock, ValidityLock], [Work])]
    case ValidityHistory => [Hold([ValidityLock], [Work])]
    case ResolveRetainedMaterial => [Work, Hold(INPUT_LOCKS, [Work])]
    case Qualify(replaysTask) =>
      [Work, Hold(INPUT_LOCKS, [Work])] + (if replaysTask then [] else TaskFreshness())
      + [Hold(INPUT_LOCKS + [QualificationLock], [Work])]
    case QualificationHistory => [Hold([QualificationLock], [Work])]
    case BridgeExecute => [Work, Hold(INPUT_LOCKS + [QualificationLock, BridgeLock], [Work])]
    case BridgeHistory => [Hold([BridgeLock], [Work])]
    case TechnicalOperation => [Work, Hold(TECHNICAL_LOCKS, [Work])]
    case InterpretationOperation => [Work, Hold(TECHNICAL_LOCKS + [InterpretationLock], [Work])]
    case AssessmentOperation => [Work, Hold(TECHNICAL_LOCKS + [InterpretationLock, AssessmentLock], [Work])]
    case StrategyOperation => [Work, Hold(STRATEGY_LOCKS, [Work])]
  }

  // ---- Elementary steps of a thread ----

  datatype Instr = Acquire(lock: Lock) | Release(lock: Lock) | Compute

  function Acquires(locks: seq<Lock>): seq<Instr> {
    if locks == [] then [] else [Acquire(locks[0])] + Acquires(locks[1..])
  }

  /** Exit callbacks run in reverse order of entry. */
  function Unwind(held: seq<Lock>): seq<Instr> {
    if held == [] then [] else [Release(held[|held| - 1])] + Unwind(held[..|held| - 1])
  }

  function Flatten(codes: seq<Code>): seq<Instr> {
    if codes == [] then []
    else (match codes[0]
          case Work => [Compute]
          case Hold(locks, body) => Acquires(locks) + Flatten(body) + Unwind(locks))
         + Flatten(codes[1..])
  }

  predicate Ascending(locks: seq<Lock>, floor: int) {
    && (forall i :: 0 <= i < |locks| ==> Rank(locks[i]) > floor)
    && (forall i, j :: 0 <= i < j < |locks| ==> Rank(locks[i]) < Rank(locks[j]))
  }

  function Top(locks: seq<Lock>, floor: int): int {
    if locks == [] then floor else Rank(locks[|locks| - 1])
  }

  /** Every block takes locks of ascending rank, above all locks held around it. */
  predicate RankOrdered(codes: seq<Code>, floor: int) {
    codes == [] ||
    ((match codes[0]
      case Work => true
      case Hold(locks, body) => Ascending(locks, floor) && RankOrdered(body, Top(locks, floor)))
     && RankOrdered(codes[1..], floor))
  }

  lemma {:induction false} RepeatIsRankOrdered(block: Code, times: nat, floor: int)
    requires RankOrdered([block], floor)
    ensures RankOrdered(Repeat(block, times), floor)
  {
    if times > 0 {
      RepeatIsRankOrdered(block, times - 1, floor);
      assert Repeat(block, times)[1..] == Repeat(block, times - 1);
    }
  }

  lemma {:induction false} RankOrderedAppend(a: seq<Code>, b: seq<Code>, floor: int)
    requires RankOrdered(a, floor) && RankOrdered(b, floor)
    ensures RankOrdered(a + b, floor)
  {
    if a == [] {
      assert a + b == b;
    } else {
      RankOrderedAppend(a[1..], b, floor);
      assert (a + b)[1..] == a[1..] + b;
    }
  }

  // ---- The discipline of one thread ----

  datatype Thread = Thread(todo: seq<Instr>, held: seq<Lock>)

  /** The rest of a thread's work: it acquires above everything held, releases the
      most recent lock, and ends holding nothing. */
  predicate Disciplined(todo: seq<Instr>, held: seq<Lock>) {
    if todo == [] then held == []
    else match todo[0]
      case Acquire(l) => Top(held, -1) < Rank(l) && Disciplined(todo[1..], held + [l])
      case Release(l) => held != [] && held[|held| - 1] == l && Disciplined(todo[1..], held[..|held| - 1])
      case Compute => Disciplined(todo[1..], held)
  }

  lemma {:induction false} AcquiresAreDisciplined(locks: seq<Lock>, rest: seq<Instr>, held: seq<Lock>, floor: int)
    requires Ascending(locks, floor) && Top(held, -1) <= floor
    requires Disciplined(rest, held + locks)
    ensures Disciplined(Acquires(locks) + rest, held)
    decreases |locks|
  {
    if locks == [] {
      assert held + locks == held && Acquires(locks) + rest == rest;
    } else {
      AcquireFirst(locks, rest, held);
      AcquiresAreDisciplined(locks[1..], rest, held + [locks[0]], Rank(locks[0]));
    }
  }

  lemma {:induction false} AcquireFirst(locks: seq<Lock>, rest: seq<Instr>, held: seq<Lock>)
    requires locks != []
    ensures var todo := Acquires(locks) + rest;
      && todo != [] && todo[0] == Acquire(locks[0]) && todo[1..] == Acquires(locks[1..]) + rest
      && (held + [locks[0]]) + locks[1..] == held + locks
  {
  }

  lemma {:induction false} UnwindIsDisciplined(locks: seq<Lock>, rest: seq<Instr>, held: seq<Lock>)
    requires Disciplined(rest, held)
    ensures Disciplined(Unwind(locks) + rest, held + locks)
    decreases |locks|
  {
    if locks == [] {
      assert held + locks == held && Unwind(locks) + rest == rest;
    } else {
      UnwindIsDisciplined(locks[..|locks| - 1], rest, held);
      UnwindFirst(locks, rest, held);
    }
  }

  lemma {:induction false} UnwindFirst(locks: seq<Lock>, rest: seq<Instr>, held: seq<Lock>)
    requires locks != []
    ensures var front, all, todo := locks[..|locks| - 1], held + locks, Unwind(locks) + rest;
      && todo != [] && todo[0] == Release(all[|all| - 1])
      && todo[1..] == Unwind(front) + rest && all[..|all| - 1] == held + front
  {
  }

  lemma {:induction false} RankOrderedIsDisciplined(codes: seq<Code>, rest: seq<Instr>, held: seq<Lock>, floor: int)
    requires RankOrdered(codes, floor) && Top(held, -1) <= floor && Disciplined(rest, held)
    ensures Disciplined(Flatten(codes) + rest, held)
    decreases codes, 1
  {
    if codes == [] {
      assert Flatten(codes) + rest == rest;
    } else {
      RankOrderedIsDisciplined(codes[1..], rest, held, floor);
      var after := Flatten(codes[1..]) + rest;
      FlattenFirst(codes, rest);
      if codes[0].Hold? {
        BlockIsDisciplined(codes[0], after, held, floor);
      } else {
        assert ([Compute] + after)[1..] == after;
      }
    }
  }

  function FlattenCode(code: Code): seq<Instr> {
    match code
    case Work => [Compute]
    case Hold(locks, body) => Acquires(locks) + Flatten(body) + Unwind(locks)
  }

  lemma {:induction false} FlattenFirst(codes: seq<Code>, rest: seq<Instr>)
    requires codes != []
    ensures Flatten(codes) + rest == FlattenCode(codes[0]) + (Flatten(codes[1..]) + rest)
  {
    assert Flatten(codes) == FlattenCode(codes[0]) + Flatten(codes[1..]);
    Regroup(FlattenCode(codes[0]), Flatten(codes[1..]), rest);
  }

  lemma {:induction false} BlockIsDisciplined(block: Code, after: seq<Instr>, held: seq<Lock>, floor: int)
    requires block.Hold? && Ascending(block.locks, floor) && RankOrdered(block.body, Top(block.locks, floor))
    requires Top(held, -1) <= floor && Disciplined(after, held)
    ensures Disciplined((Acquires(block.locks) + Flatten(block.body) + Unwind(block.locks)) + after, held)
    decreases block, 0
  {
    var locks, inner, exit := block.locks, Flatten(block.body), Unwind(block.locks) + after;
    UnwindIsDisciplined(locks, after, held);
    RankOrderedIsDisciplined(block.body, exit, held + locks, Top(locks, floor));
    AcquiresAreDisciplined(locks, inner + exit, held, floor);
    SplitBlock(Acquires(locks), inner, Unwind(locks), after);
  }

  lemma {:induction false} SplitBlock(a: seq<Instr>, b: seq<Instr>, c: seq<Instr>, d: seq<Instr>)
    ensures (a + b + c) + d == a + (b + (c + d))
  {
  }

  /** Every operation of the chain follows the one rank order. */
  lemma {:induction false} OperationsAreRankOrdered(op: Operation)
    ensures RankOrdered(Program(op), -1)
  {
    match op {
      case ConstructionExecute => OneBlockIsRankOrdered([ConstructionLock]);
      case ConstructionHistory => OneBlockIsRankOrdered([ConstructionLock]);
      case ValidationExecute(concerns) => ValidationIsRankOrdered(concerns);
      case ValidationHistory => OneBlockIsRankOrdered([ValidationLock]);
      case FreshnessExecute => TaskFreshnessIsRankOrdered();
      case FreshnessHistory => OneBlockIsRankOrdered([FreshnessLock]);
      case IssueAdmission => AdmissionIsRankOrdered();
      case AdmissionHistory => OneBlockIsRankOrdered([AdmissionLock]);
      case IssueInitialActive => OneBlockIsRankOrdered([ConstructionLock, AdmissionLock, ValidityLock]);
      case ValidityHistory => OneBlockIsRankOrdered([ValidityLock]);
      case QualificationHistory => OneBlockIsRankOrdered([QualificationLock]);
      case BridgeHistory => OneBlockIsRankOrdered([BridgeLock]);
      case _ => ChainOperationsAreRankOrdered(op);
    }
  }

  /** The operations that hold a whole chain of locks. */
  lemma {:induction false} ChainOperationsAreRankOrdered(op: Operation)
    requires op.ResolveRetainedMaterial? || op.Qualify? || op.BridgeExecute? || op.TechnicalOperation?
      || op.InterpretationOperation? || op.AssessmentOperation? || op.StrategyOperation?
    ensures RankOrdered(Program(op), -1)
  {
    ChainLocksAscend();
    match op {
      case ResolveRetainedMaterial => OneBlockIsRankOrdered(INPUT_LOCKS);
      case Qualify(replaysTask) => QualifyIsRankOrdered(replaysTask);
      case BridgeExecute => OneBlockIsRankOrdered(INPUT_LOCKS + [QualificationLock, BridgeLock]);
      case TechnicalOperation => OneBlockIsRankOrdered(TECHNICAL_LOCKS);
      case InterpretationOperation => OneBlockIsRankOrdered(TECHNICAL_LOCKS + [InterpretationLock]);
      case AssessmentOperation => OneBlockIsRankOrdered(TECHNICAL_LOCKS + [InterpretationLock, AssessmentLock]);
      case StrategyOperation => OneBlockIsRankOrdered(STRATEGY_LOCKS);
    }
  }

  lemma {:induction false} OperationsAreDisciplined(op: Operation)
    ensures Disciplined(Flatten(Program(op)), [])
  {
    var program := Program(op);
    OperationsAreRankOrdered(op);
    RankOrderedIsDisciplined(program, [], [], -1);
    assert Flatten(program) + [] == Flatten(program);
  }

  lemma {:induction false} ChainLocksAscend()
    ensures Ascending(INPUT_LOCKS, -1)
    ensures Ascending(INPUT_LOCKS + [QualificationLock], -1)
    ensures Ascending(INPUT_LOCKS + [QualificationLock, BridgeLock], -1)
    ensures Ascending(TECHNICAL_LOCKS, -1)
    ensures Ascending(TECHNICAL_LOCKS + [InterpretationLock], -1)
    ensures Ascending(TECHNICAL_LOCKS + [InterpretationLock, AssessmentLock], -1)
    ensures Ascending(STRATEGY_LOCKS, -1)
  {
    ChainPrefixAscends(INPUT_LOCKS);
    ChainPrefixAscends(INPUT_LOCKS + [QualificationLock]);
    ChainPrefixAscends(INPUT_LOCKS + [QualificationLock, BridgeLock]);
    ChainPrefixAscends(TECHNICAL_LOCKS);
    ChainPrefixAscends(TECHNICAL_LOCKS + [InterpretationLock]);
    ChainPrefixAscends(TECHNICAL_LOCKS + [InterpretationLock, AssessmentLock]);
    ChainPrefixAscends(STRATEGY_LOCKS);
  }

  lemma {:induction false} ChainPrefixAscends(locks: seq<Lock>)
    requires locks <= STRATEGY_LOCKS
    ensures Ascending(locks, -1)
  {
    forall i | 0 <= i < |locks| ensures Rank(locks[i]) == i {
      RankIsPosition(i);
      assert locks[i] == STRATEGY_LOCKS[i];
    }
  }

  lemma {:induction false} RankIsPosition(i: nat)
    requires i < |STRATEGY_LOCKS|
    ensures Rank(STRATEGY_LOCKS[i]) == i
  {
  }

  lemma {:induction false} OneBlockIsRankOrdered(locks: seq<Lock>)
    requires Ascending(locks, -1)
    ensures RankOrdered([Hold(locks, [Work])], -1)
    ensures RankOrdered([Work, Hold(locks, [Work])], -1)
    ensures RankOrdered([Hold(locks, [Work]), Work], -1)
  {
    SimpleIsRankOrdered([Hold(locks, [Work])], -1);
    SimpleIsRankOrdered([Work, Hold(locks, [Work])], -1);
    SimpleIsRankOrdered([Hold(locks, [Work]), Work], -1);
  }

  lemma {:induction false} TaskFreshnessIsRankOrdered()
    ensures RankOrdered(TaskFreshness(), -1)
  {
    SimpleIsRankOrdered(TaskFreshness(), -1);
  }

  lemma {:induction false} QualifyIsRankOrdered(replaysTask: bool)
    ensures RankOrdered(Program(Qualify(replaysTask)), -1)
  {
    ChainLocksAscend();
    TaskFreshnessIsRankOrdered();
    PhasesAreRankOrdered(INPUT_LOCKS, if replaysTask then [] else TaskFreshness(), INPUT_LOCKS + [QualificationLock]);
  }

  /** A block, some more work and a second block, nothing held in between. */
  lemma {:induction false} PhasesAreRankOrdered(first: seq<Lock>, between: seq<Code>, second: seq<Lock>)
    requires Ascending(first, -1) && RankOrdered(between, -1) && Ascending(second, -1)
    ensures RankOrdered([Work, Hold(first, [Work])] + between + [Hold(second, [Work])], -1)
  {
    OneBlockIsRankOrdered(first);
    OneBlockIsRankOrdered(second);
    ThreePartsAreRankOrdered([Work, Hold(first, [Work])], between, [Hold(second, [Work])], -1);
  }

  lemma {:induction false} ThreePartsAreRankOrdered(a: seq<Code>, b: seq<Code>, c: seq<Code>, floor: int)
    requires RankOrdered(a, floor) && RankOrdered(b, floor) && RankOrdered(c, floor)
    ensures RankOrdered(a + b + c, floor)
  {
    RankOrderedAppend(a, b, floor);
    RankOrderedAppend(a + b, c, floor);
  }

  lemma {:induction false} ValidationIsRankOrdered(concerns: nat)
    ensures RankOrdered(Program(ValidationExecute(concerns)), -1)
  {
    var block := Hold([ValidationLock], [Work]);
    OneBlockIsRankOrdered([ConstructionLock]);
    OneBlockIsRankOrdered([ValidationLock]);
    RepeatIsRankOrdered(block, concerns, -1);
    RankOrderedAppend([Hold([ConstructionLock], [Work]), Work], Repeat(block, concerns), -1);
  }

  /** A program of work and of blocks that only work inside. */
  lemma {:induction false} SimpleIsRankOrdered(codes: seq<Code>, floor: int)
    requires forall i :: 0 <= i < |codes| ==>
               codes[i] == Work || (codes[i].Hold? && codes[i].body == [Work] && Ascending(codes[i].locks, floor))
    ensures RankOrdered(codes, floor)
    decreases |codes|
  {
    if codes != [] {
      assert forall f :: RankOrdered([Work], f);
      SimpleIsRankOrdered(codes[1..], floor);
    }
  }

  lemma {:induction false} AdmissionIsRankOrdered()
    ensures RankOrdered(Program(IssueAdmission), -1)
  {
    SimpleIsRankOrdered(Program(IssueAdmission)[0].body, 2);
  }

  // ---- All threads together ----

  /** Any number of threads, named by their positions. */
  type State = seq<Thread>

  ghost predicate Taken(s: State, l: Lock) {
    exists t :: 0 <= t < |s| && l in s[t].held
  }

  ghost predicate Consistent(s: State) {
    && (forall t :: 0 <= t < |s| ==> Disciplined(s[t].todo, s[t].held) && Ascending(s[t].held, -1))
    && (forall t, u, l :: 0 <= t < |s| && 0 <= u < |s| && l in s[t].held && l in s[u].held ==> t == u)
  }

  datatype Step = Begin(op: Operation) | Advance | Raise

  /** One atomic step of thread `t`: an idle thread begins an operation, a busy one
      executes its next instruction when it can, or its operation raises and the
      exit stack takes over. */
  ghost predicate Steps(s: State, t: nat, step: Step, s': State) {
    t < |s| &&
    match step
    case Begin(op) => s[t] == Thread([], []) && s' == s[t := Thread(Flatten(Program(op)), [])]
    case Raise =>
      && s[t].todo != [] && s[t].todo != Unwind(s[t].held)
      && s' == s[t := Thread(Unwind(s[t].held), s[t].held)]
    case Advance =>
      s[t].todo != [] &&
      match s[t].todo[0]
      case Acquire(l) => !Taken(s, l) && s' == s[t := Thread(s[t].todo[1..], s[t].held + [l])]
      case Release(l) => s[t].held != [] && s' == s[t := Thread(s[t].todo[1..], s[t].held[..|s[t].held| - 1])]
      case Compute => s' == s[t := Thread(s[t].todo[1..], s[t].held)]
  }

  ghost predicate Next(s: State, s': State) {
    exists t, step :: Steps(s, t, step, s')
  }

  ghost predicate Idle(s: State) {
    forall t :: 0 <= t < |s| ==> s[t] == Thread([], [])
  }

  ghost predicate IsRun(run: seq<State>) {
    && |run| > 0
    && forall i :: 0 <= i < |run| - 1 ==> Next(run[i], run[i + 1])
  }

  /** The thread that moves stays disciplined, and takes only a free lock. */
  lemma {:induction false} StepKeepsThread(s: State, t: nat, step: Step, s': State)
    requires Consistent(s) && Steps(s, t, step, s')
    ensures s' == s[t := s'[t]]
    ensures Disciplined(s'[t].todo, s'[t].held) && Ascending(s'[t].held, -1)
    ensures forall l :: l in s'[t].held ==> l in s[t].held || !Taken(s, l)
  {
    match step {
      case Begin(op) =>
        OperationsAreDisciplined(op);
      case Raise =>
        UnwindIsDisciplined(s[t].held, [], []);
        assert [] + s[t].held == s[t].held && Unwind(s[t].held) + [] == Unwind(s[t].held);
      case Advance =>
    }
  }

  lemma {:induction false} StepKeepsConsistent(s: State, t: nat, step: Step, s': State)
    requires Consistent(s) && Steps(s, t, step, s')
    ensures Consistent(s') && |s'| == |s|
  {
    StepKeepsThread(s, t, step, s');
    forall u, v, l | 0 <= u < |s'| && 0 <= v < |s'| && l in s'[u].held && l in s'[v].held
      ensures u == v
    {
      if u != v {
        var other := if u == t then v else u;
        assert l in s[other].held && Taken(s, l);
      }
    }
  }

  lemma {:induction false} ReachableIsConsistent(run: seq<State>, n: nat)
    requires IsRun(run) && Idle(run[0]) && n < |run|
    ensures Consistent(run[n]) && |run[n]| == |run[0]|
  {
    if n > 0 {
      ReachableIsConsistent(run, n - 1);
      assert Next(run[n - 1], run[n - 1 + 1]);
      var t, step :| Steps(run[n - 1], t, step, run[n]);
      StepKeepsConsistent(run[n - 1], t, step, run[n]);
    }
  }

  // ---- No deadlock ----

  predicate Waiting(s: State, t: nat) {
    t < |s| && s[t].todo != [] && s[t].todo[0].Acquire?
  }

  function Wanted(s: State, t: nat): Lock
    requires Waiting(s, t)
  {
    s[t].todo[0].lock
  }

  predicate WaitsFor(s: State, t: nat, u: nat) {
    Waiting(s, t) && u < |s| && Wanted(s, t) in s[u].held
  }

  lemma {:induction false} HeldBelowWanted(s: State, t: nat, u: nat)
    requires Consistent(s) && WaitsFor(s, t, u) && Waiting(s, u)
    ensures Rank(Wanted(s, t)) < Rank(Wanted(s, u))
  {
  }

  /** Following waits, the wanted ranks rise strictly. */
  lemma {:induction false} WaitingRanksRise(s: State, chain: seq<nat>, n: nat)
    requires Consistent(s) && n < |chain| - 1
    requires forall i :: 0 <= i < |chain| - 1 ==> WaitsFor(s, chain[i], chain[i + 1])
    ensures Waiting(s, chain[0]) && Waiting(s, chain[n])
    ensures Rank(Wanted(s, chain[0])) + n <= Rank(Wanted(s, chain[n]))
  {
    assert WaitsFor(s, chain[0], chain[0 + 1]) && WaitsFor(s, chain[n], chain[n + 1]);
    if n > 0 {
      WaitingRanksRise(s, chain, n - 1);
      assert WaitsFor(s, chain[n - 1], chain[n - 1 + 1]);
      HeldBelowWanted(s, chain[n - 1], chain[n]);
    }
  }

  /** In no reachable state do threads wait in a cycle; a chain of one link is a
      thread waiting for a lock that it holds itself. */
  lemma {:induction false} NoWaitCycle(run: seq<State>, chain: seq<nat>)
    requires IsRun(run) && Idle(run[0]) && |chain| > 1
    requires forall i :: 0 <= i < |chain| - 1 ==> WaitsFor(run[|run| - 1], chain[i], chain[i + 1])
    ensures chain[0] != chain[|chain| - 1]
  {
    var s, last := run[|run| - 1], |chain| - 2;
    ReachableIsConsistent(run, |run| - 1);
    WaitingRanksRise(s, chain, last);
    assert WaitsFor(s, chain[last], chain[last + 1]);
    if chain[0] == chain[|chain| - 1] {
      HeldBelowWanted(s, chain[last], chain[0]);
    }
  }

  /** While any operation is under way some thread can advance: one that wants the
      highest wanted lock finds it free. */
  lemma {:induction false} SomeThreadAdvances(run: seq<State>) returns (t: nat, s': State)
    requires IsRun(run) && Idle(run[0]) && !Idle(run[|run| - 1])
    ensures Steps(run[|run| - 1], t, Advance, s')
  {
    var s := run[|run| - 1];
    ReachableIsConsistent(run, |run| - 1);
    t :| 0 <= t < |s| && s[t] != Thread([], []);
    t := Unblocked(s, t);
    s' := match s[t].todo[0]
      case Acquire(l) => s[t := Thread(s[t].todo[1..], s[t].held + [l])]
      case Release(l) => s[t := Thread(s[t].todo[1..], s[t].held[..|s[t].held| - 1])]
      case Compute => s[t := Thread(s[t].todo[1..], s[t].held)];
  }

  ghost predicate Blocked(s: State, t: nat) {
    Waiting(s, t) && Taken(s, Wanted(s, t))
  }

  lemma {:induction false} Unblocked(s: State, t: nat) returns (u: nat)
    requires Consistent(s) && t < |s| && s[t].todo != []
    ensures u < |s| && s[u].todo != [] && !Blocked(s, u)
    decreases if Waiting(s, t) then 11 - Rank(Wanted(s, t)) else 0
  {
    if !Blocked(s, t) {
      u := t;
    } else {
      var owner :| 0 <= owner < |s| && Wanted(s, t) in s[owner].held;
      assert s[owner].todo != [];
      u := owner;
      if Blocked(s, owner) {
        u := Unblocked(s, owner);
      }
    }
  }

  // ---- Every begun operation ends ----

  function Remaining(s: State): nat {
    if s == [] then 0 else |s[0].todo| + Remaining(s[1..])
  }

  lemma {:induction false} RemainingAfter(s: State, t: nat, x: Thread)
    requires t < |s|
    ensures Remaining(s[t := x]) == Remaining(s) - |s[t].todo| + |x.todo|
    decreases |s|
  {
    if t == 0 {
      assert s[t := x][1..] == s[1..];
    } else {
      assert s[t := x][1..] == s[1..][t - 1 := x];
      RemainingAfter(s[1..], t - 1, x);
    }
  }

  /** What is left is at least the releases, and is only those when as short. */
  lemma {:induction false} UnwindIsShortest(todo: seq<Instr>, held: seq<Lock>)
    requires Disciplined(todo, held)
    ensures |Unwind(held)| == |held| <= |todo|
    ensures |todo| == |held| ==> todo == Unwind(held)
    decreases |todo|
  {
    UnwindLength(held);
    if todo != [] {
      match todo[0] {
        case Acquire(l) => UnwindIsShortest(todo[1..], held + [l]);
        case Release(l) => UnwindIsShortest(todo[1..], held[..|held| - 1]);
        case Compute => UnwindIsShortest(todo[1..], held);
      }
    }
  }

  lemma {:induction false} UnwindLength(held: seq<Lock>)
    ensures |Unwind(held)| == |held|
    decreases |held|
  {
    if held != [] { UnwindLength(held[..|held| - 1]); }
  }

  ghost predicate Continues(s: State, s': State) {
    exists t, step :: Steps(s, t, step, s') && !step.Begin?
  }

  ghost predicate Finished(s: State) {
    forall s' :: !Continues(s, s')
  }

  ghost predicate NoLockTaken(s: State) {
    forall l :: !Taken(s, l)
  }

  lemma {:induction false} BusyIsNotFinished(run: seq<State>)
    requires IsRun(run) && Idle(run[0]) && !Idle(run[|run| - 1])
    ensures !Finished(run[|run| - 1])
  {
    var s := run[|run| - 1];
    var t, s' := SomeThreadAdvances(run);
    assert Steps(s, t, Advance, s') && !Advance.Begin?;
    assert Continues(s, s');
  }

  lemma {:induction false} StepShortens(s: State, t: nat, step: Step, s': State)
    requires Consistent(s) && Steps(s, t, step, s') && !step.Begin?
    ensures Remaining(s') < Remaining(s)
  {
    RemainingAfter(s, t, s'[t]);
    assert s' == s[t := s'[t]];
    if step.Raise? { UnwindIsShortest(s[t].todo, s[t].held); }
  }

  /** Once no new operation begins, every schedule is at most as long as the work
      that was left, raises included; what cannot continue is idle with every
      lock free. */
  lemma {:induction false} OperationsEnd(run: seq<State>, tail: seq<State>)
    requires IsRun(run) && Idle(run[0])
    requires |tail| > 0 && tail[0] == run[|run| - 1]
    requires forall i :: 0 <= i < |tail| - 1 ==> Continues(tail[i], tail[i + 1])
    ensures |tail| - 1 + Remaining(tail[|tail| - 1]) <= Remaining(tail[0])
    ensures Finished(tail[|tail| - 1]) ==> Idle(tail[|tail| - 1]) && NoLockTaken(tail[|tail| - 1])
    decreases |tail|
  {
    if |tail| == 1 {
      if !Idle(tail[0]) { BusyIsNotFinished(run); }
    } else {
      ReachableIsConsistent(run, |run| - 1);
      assert Continues(tail[0], tail[0 + 1]);
      var t, step :| Steps(tail[0], t, step, tail[1]) && !step.Begin?;
      StepShortens(tail[0], t, step, tail[1]);
      var longer := run + [tail[1]];
      forall i | 0 <= i < |longer| - 1 ensures Next(longer[i], longer[i + 1]) {
        if i == |run| - 1 {
          assert Steps(longer[i], t, step, longer[i + 1]);
        } else {
          assert longer[i] == run[i] && longer[i + 1] == run[i + 1];
        }
      }
      var rest := tail[1..];
      forall i | 0 <= i < |rest| - 1 ensures Continues(rest[i], rest[i + 1]) {
        assert rest[i] == tail[i + 1] && Continues(tail[i + 1], tail[i + 1 + 1]);
      }
      OperationsEnd(longer, rest);
      assert rest[|rest| - 1] == tail[|tail| - 1];
    }
  }

  /** The altered order: task freshness run with the input locks held. */
  function AlteredQualify(): seq<Code> {
    [Work, Hold(INPUT_LOCKS, [Work] + TaskFreshness())]
  }

  /** The locks taken by a stretch of instructions that releases none. */
  function HeldAfter(done: seq<Instr>): seq<Lock> {
    if done == [] then []
    else
      var last := done[|done| - 1];
      HeldAfter(done[..|done| - 1]) + (if last.Acquire? then [last.lock] else [])
  }

  /** A program that first does `before`, releasing nothing, and then wants a lock that it
      has taken there. */
  datatype SelfWait = SelfWait(before: seq<Instr>, lock: Lock, after: seq<Instr>)

  predicate IsSelfWait(w: SelfWait) {
    w.lock in HeldAfter(w.before) && forall i :: 0 <= i < |w.before| ==> !w.before[i].Release?
  }

  function ProgramOf(w: SelfWait): seq<Instr> {
    w.before + [Acquire(w.lock)] + w.after
  }

  /** The thread has carried out `n` instructions of `before` and nothing beyond it. */
  predicate Reached(t: Thread, w: SelfWait, n: nat) {
    n <= |w.before| && t.todo == ProgramOf(w)[n..] && t.held == HeldAfter(w.before[..n])
  }

  lemma {:induction false} SelfWaitIsStuck(s: State, t: nat, w: SelfWait)
    requires t < |s| && IsSelfWait(w) && Reached(s[t], w, |w.before|)
    ensures forall s' :: !Steps(s, t, Advance, s')
  {
    assert s[t].todo[0] == Acquire(w.lock) && w.before[..|w.before|] == w.before;
    assert Taken(s, w.lock);
  }

  lemma {:induction false} SelfWaitAdvances(s: State, t: nat, s': State, w: SelfWait, n: nat)
    requires t < |s| && IsSelfWait(w) && Reached(s[t], w, n) && Steps(s, t, Advance, s')
    ensures Reached(s'[t], w, n + 1)
  {
    if n == |w.before| {
      SelfWaitIsStuck(s, t, w);
    } else {
      assert s[t].todo[0] == w.before[n] && s[t].todo[1..] == ProgramOf(w)[n + 1..];
      assert w.before[..n + 1][..n] == w.before[..n];
    }
  }

  /** One step of any thread in which `t`, if it moves, executes its next instruction. */
  ghost predicate StepsOn(s: State, t: nat, s': State) {
    exists u, step :: Steps(s, u, step, s') && (u == t ==> step.Advance?)
  }

  /** On every run of any threads such a program never gets past that lock: unless it
      raises, it never ends. */
  lemma {:induction false} SelfWaitNeverEnds(run: seq<State>, t: nat, w: SelfWait) returns (n: nat)
    requires |run| > 0 && t < |run[0]| && IsSelfWait(w) && run[0][t] == Thread(ProgramOf(w), [])
    requires forall i :: 0 <= i < |run| - 1 ==> StepsOn(run[i], t, run[i + 1])
    ensures t < |run[|run| - 1]| && Reached(run[|run| - 1][t], w, n) && run[|run| - 1][t].todo != []
    decreases |run|
  {
    var last := |run| - 1;
    if last == 0 {
      n := 0;
    } else {
      var front := run[..last];
      forall i | 0 <= i < |front| - 1 ensures StepsOn(front[i], t, front[i + 1]) {
        assert front[i] == run[i] && front[i + 1] == run[i + 1] && StepsOn(run[i], t, run[i + 1]);
      }
      n := SelfWaitNeverEnds(front, t, w);
      n := OneMoreStep(run[last - 1], t, run[last], w, n);
    }
  }

  lemma {:induction false} OneMoreStep(s: State, t: nat, s': State, w: SelfWait, n: nat) returns (m: nat)
    requires t < |s| && IsSelfWait(w) && Reached(s[t], w, n) && StepsOn(s, t, s')
    ensures t < |s'| && Reached(s'[t], w, m) && s'[t].todo != []
  {
    var u, step :| Steps(s, u, step, s') && (u == t ==> step.Advance?);
    m := n;
    if u == t {
      SelfWaitAdvances(s, t, s', w, n);
      m := n + 1;
    }
  }

  lemma {:induction false} AlteredIsNotOrdered()
    ensures !RankOrdered(AlteredQualify(), -1)
  {
    var body := [Work] + TaskFreshness();
    var block := Hold(INPUT_LOCKS, body);
    assert AlteredQualify()[1..] == [block];
    assert Top(INPUT_LOCKS, -1) == 4;
    assert body[1..] == TaskFreshness();
    var tail := TaskFreshness()[1..];
    assert tail[0] == Hold([ConstructionLock], [Work]) && [ConstructionLock][0] == ConstructionLock;
    assert !Ascending([ConstructionLock], 4);
    assert !RankOrdered(tail, 4);
    assert !RankOrdered(body, 4);
  }

  lemma {:induction false} TaskFreshnessBegins() returns (rest: seq<Instr>)
    ensures Flatten(TaskFreshness()) == [Compute, Acquire(ConstructionLock)] + rest
  {
    var tail := TaskFreshness()[1..];
    assert tail[0] == Hold([ConstructionLock], [Work]) && [ConstructionLock][1..] == [];
    rest := Flatten([Work]) + Unwind([ConstructionLock]) + Flatten(tail[1..]);
    assert Flatten(tail) == [Acquire(ConstructionLock)] + rest;
  }

  lemma {:induction false} FlattenOuter(locks: seq<Lock>, body: seq<Code>)
    ensures Flatten([Work, Hold(locks, [Work] + body)]) == [Compute] + Acquires(locks) + [Compute] + Flatten(body) + Unwind(locks)
  {
    var block := Hold(locks, [Work] + body);
    assert [Work, block][1..] == [block] && [block][1..] == [] && ([Work] + body)[1..] == body;
    assert Flatten([Work] + body) == [Compute] + Flatten(body);
    assert Flatten([block]) == Acquires(locks) + Flatten([Work] + body) + Unwind(locks) + [];
  }

  /** The order matters: a qualification that ran task freshness before releasing its input
      locks would wait for itself, on every run of any other threads. */
  lemma {:induction false} TaskFreshnessUnderLocksStalls(run: seq<State>, t: nat)
    requires |run| > 0 && t < |run[0]| && run[0][t] == Thread(Flatten(AlteredQualify()), [])
    requires forall i :: 0 <= i < |run| - 1 ==> StepsOn(run[i], t, run[i + 1])
    ensures t < |run[|run| - 1]| && run[|run| - 1][t].todo != []
  {
    var w := AlteredIsSelfWait();
    var n := SelfWaitNeverEnds(run, t, w);
  }

  lemma {:induction false} AlteredIsSelfWait() returns (w: SelfWait)
    ensures IsSelfWait(w) && ProgramOf(w) == Flatten(AlteredQualify())
  {
    var rest := TaskFreshnessBegins();
    FlattenOuter(INPUT_LOCKS, TaskFreshness());
    var before := [Compute] + Acquires(INPUT_LOCKS) + [Compute, Compute];
    w := SelfWait(before, ConstructionLock, rest + Unwind(INPUT_LOCKS));
    JoinStretches(Acquires(INPUT_LOCKS), rest, Unwind(INPUT_LOCKS));
    InputApproachHolds(before);
  }

  lemma {:induction false} JoinStretches(a: seq<Instr>, b: seq<Instr>, c: seq<Instr>)
    ensures [Compute] + a + [Compute] + ([Compute, Acquire(ConstructionLock)] + b) + c
      == [Compute] + a + [Compute, Compute] + [Acquire(ConstructionLock)] + (b + c)
  {
  }

  lemma {:induction false} InputApproachHolds(before: seq<Instr>)
    requires before == [Compute] + Acquires(INPUT_LOCKS) + [Compute, Compute]
    ensures ConstructionLock in HeldAfter(before) && forall i :: 0 <= i < |before| ==> !before[i].Release?
  {
    AcquiresNoRelease(INPUT_LOCKS);
    assert before[1] == Acquire(ConstructionLock);
    TakenStays(before, 1, |before|);
    assert before[..|before|] == before;
  }

  lemma {:induction false} AcquiresNoRelease(locks: seq<Lock>)
    ensures |Acquires(locks)| == |locks| && forall i :: 0 <= i < |locks| ==> Acquires(locks)[i] == Acquire(locks[i])
  {
    if locks != [] { AcquiresNoRelease(locks[1..]); }
  }

  lemma {:induction false} TakenStays(done: seq<Instr>, i: nat, n: nat)
    requires i < n <= |done| && done[i].Acquire?
    ensures done[i].lock in HeldAfter(done[..n])
    decreases n
  {
    assert done[..n][..n - 1] == done[..n - 1];
    if i < n - 1 { TakenStays(done, i, n - 1); }
  }

  /** In its critical section a Strategy operation holds all eleven locks, in rank order. */
  lemma {:induction false} StrategyHoldsEveryLock(l: Lock)
    ensures |STRATEGY_LOCKS| == 11 && STRATEGY_LOCKS[Rank(l)] == l
    ensures Flatten(Program(StrategyOperation)) == [Compute] + Acquires(STRATEGY_LOCKS) + [Compute] + Unwind(STRATEGY_LOCKS)
  {
    LockAtRank(l);
    FlattenWorkThenBlock(STRATEGY_LOCKS);
  }

  lemma {:induction false} LockAtRank(l: Lock)
    ensures |STRATEGY_LOCKS| == 11 && STRATEGY_LOCKS[Rank(l)] == l
  {
  }

  lemma {:induction false} FlattenWorkThenBlock(locks: seq<Lock>)
    ensures Flatten([Work, Hold(locks, [Work])]) == [Compute] + Acquires(locks) + [Compute] + Unwind(locks)
  {
    var block := Hold(locks, [Work]);
    assert Flatten([]) == [];
    assert Flatten([Work]) == [Compute] + Flatten([Work][1..]);
    assert Flatten([block]) == (Acquires(locks) + Flatten([Work]) + Unwind(locks)) + Flatten([block][1..]);
    assert [Work, block][1..] == [block];
  }

  // ---- What is held where ----

  /** The locks held at each piece of work, in order, as a thread carries out instructions. */
  function Sections(todo: seq<Instr>, held: seq<Lock>): seq<seq<Lock>> {
    if todo == [] then []
    else match todo[0]
      case Compute => [held] + Sections(todo[1..], held)
      case Acquire(l) => Sections(todo[1..], held + [l])
      case Release(l) => Sections(todo[1..], if held == [] then [] else held[..|held| - 1])
  }

  function CodeSections(codes: seq<Code>, held: seq<Lock>): seq<seq<Lock>> {
    if codes == [] then []
    else (match codes[0]
          case Work => [held]
          case Hold(locks, body) => CodeSections(body, held + locks))
         + CodeSections(codes[1..], held)
  }

  lemma {:induction false} AcquireSections(locks: seq<Lock>, rest: seq<Instr>, held: seq<Lock>)
    ensures Sections(Acquires(locks) + rest, held) == Sections(rest, held + locks)
    decreases |locks|
  {
    if locks == [] {
      assert held + locks == held && Acquires(locks) + rest == rest;
    } else {
      AcquireFirst(locks, rest, held);
      AcquireSections(locks[1..], rest, held + [locks[0]]);
    }
  }

  lemma {:induction false} UnwindSections(locks: seq<Lock>, rest: seq<Instr>, held: seq<Lock>)
    ensures Sections(Unwind(locks) + rest, held + locks) == Sections(rest, held)
    decreases |locks|
  {
    if locks == [] {
      assert held + locks == held && Unwind(locks) + rest == rest;
    } else {
      UnwindFirst(locks, rest, held);
      UnwindSections(locks[..|locks| - 1], rest, held);
    }
  }

  lemma {:induction false} FlattenSections(codes: seq<Code>, rest: seq<Instr>, held: seq<Lock>)
    ensures Sections(Flatten(codes) + rest, held) == CodeSections(codes, held) + Sections(rest, held)
    decreases codes, 1
  {
    if codes == [] {
      assert Flatten(codes) + rest == rest;
    } else {
      var after := Flatten(codes[1..]) + rest;
      FlattenFirst(codes, rest);
      FlattenSections(codes[1..], rest, held);
      if codes[0].Hold? {
        BlockSections(codes[0], after, held);
      } else {
        assert ([Compute] + after)[1..] == after;
      }
    }
  }

  lemma {:induction false} BlockSections(block: Code, after: seq<Instr>, held: seq<Lock>)
    requires block.Hold?
    ensures Sections(FlattenCode(block) + after, held) == CodeSections(block.body, held + block.locks) + Sections(after, held)
    decreases block, 0
  {
    var locks, inner, exit := block.locks, Flatten(block.body), Unwind(block.locks) + after;
    SplitBlock(Acquires(locks), inner, Unwind(locks), after);
    AcquireSections(locks, inner + exit, held);
    FlattenSections(block.body, exit, held + locks);
    UnwindSections(locks, after, held);
  }

  /** The first `n` locks of the order. */
  function First(n: nat): (locks: seq<Lock>)
    requires n <= 11
    ensures |locks| == n
  {
    [ConstructionLock, ValidationLock, FreshnessLock, AdmissionLock, ValidityLock, QualificationLock, BridgeLock, TechnicalLock,
     InterpretationLock, AssessmentLock, StrategyLock][..n]
  }

  function Times(section: seq<Lock>, n: nat): seq<seq<Lock>> {
    if n == 0 then [] else [section] + Times(section, n - 1)
  }

  /** What each operation holds at each of its pieces of work. */
  function Table(op: Operation): seq<seq<Lock>> {
    match op
    case ConstructionExecute => [[], [ConstructionLock]]
    case ConstructionHistory => [[ConstructionLock], []]
    case ValidationExecute(concerns) => [[ConstructionLock], []] + Times([ValidationLock], concerns)
    case ValidationHistory => [[ValidationLock], []]
    case FreshnessExecute => [[], [ConstructionLock], [], [FreshnessLock]]
    case FreshnessHistory => [[FreshnessLock], []]
    case IssueAdmission => [First(3), First(4), First(3), First(4)]
    case AdmissionHistory => [[AdmissionLock], []]
    case IssueInitialActive => [[ConstructionLock, AdmissionLock, ValidityLock]]
    case ValidityHistory => [[ValidityLock]]
    case ResolveRetainedMaterial => [[], First(5)]
    case Qualify(true) => [[], First(5), First(6)]
    case Qualify(false) => [[], First(5), [], [ConstructionLock], [], [FreshnessLock], First(6)]
    case QualificationHistory => [[QualificationLock]]
    case BridgeExecute => [[], First(7)]
    case BridgeHistory => [[BridgeLock]]
    case TechnicalOperation => [[], First(8)]
    case InterpretationOperation => [[], First(9)]
    case AssessmentOperation => [[], First(10)]
    case StrategyOperation => [[], First(11)]
  }

  lemma {:induction false} WorkThenBlock(locks: seq<Lock>)
    ensures CodeSections([Work, Hold(locks, [Work])], []) == [[], locks]
    ensures CodeSections([Hold(locks, [Work]), Work], []) == [locks, []]
    ensures CodeSections([Hold(locks, [Work])], []) == [locks]
  {
    OneBlock(locks, [Work]);
    OneBlock(locks, []);
    assert [Work, Hold(locks, [Work])][1..] == [Hold(locks, [Work])];
    assert [Hold(locks, [Work]), Work][1..] == [Work];
  }

  lemma {:induction false} OneBlock(locks: seq<Lock>, rest: seq<Code>)
    ensures CodeSections([Hold(locks, [Work])] + rest, []) == [locks] + CodeSections(rest, [])
    ensures [Hold(locks, [Work])] + [] == [Hold(locks, [Work])]
  {
    var all := [Hold(locks, [Work])] + rest;
    assert all[1..] == rest && [] + locks == locks;
    assert [Work][1..] == [];
    assert CodeSections([Work], locks) == [locks];
  }

  lemma {:induction false} SectionsAppend(a: seq<Code>, b: seq<Code>, held: seq<Lock>)
    ensures CodeSections(a + b, held) == CodeSections(a, held) + CodeSections(b, held)
  {
    if a == [] {
      assert a + b == b;
    } else {
      SectionsAppend(a[1..], b, held);
      FirstSection(a, held);
      FirstSection(a + b, held);
      assert (a + b)[1..] == a[1..] + b;
      Regroup(OneSection(a[0], held), CodeSections(a[1..], held), CodeSections(b, held));
    }
  }

  function OneSection(code: Code, held: seq<Lock>): seq<seq<Lock>> {
    match code
    case Work => [held]
    case Hold(locks, body) => CodeSections(body, held + locks)
  }

  lemma {:induction false} FirstSection(codes: seq<Code>, held: seq<Lock>)
    requires codes != []
    ensures CodeSections(codes, held) == OneSection(codes[0], held) + CodeSections(codes[1..], held)
  {
  }

  lemma {:induction false} RepeatSections(locks: seq<Lock>, n: nat)
    ensures CodeSections(Repeat(Hold(locks, [Work]), n), []) == Times(locks, n)
  {
    if n > 0 {
      RepeatSections(locks, n - 1);
      OneBlock(locks, Repeat(Hold(locks, [Work]), n - 1));
    }
  }

  lemma {:induction false} TaskFreshnessSections()
    ensures CodeSections(TaskFreshness(), []) == [[], [ConstructionLock], [], [FreshnessLock]]
  {
    var a, b := [Work, Hold([ConstructionLock], [Work])], [Work, Hold([FreshnessLock], [Work])];
    assert TaskFreshness() == a + b;
    SectionsAppend(a, b, []);
    WorkThenBlock([ConstructionLock]);
    WorkThenBlock([FreshnessLock]);
  }

  lemma {:induction false} AdmissionSections()
    ensures CodeSections(Program(IssueAdmission), []) == [First(3), First(4), First(3), First(4)]
  {
    var outer, inner := [ConstructionLock, ValidationLock, FreshnessLock], Hold([AdmissionLock], [Work]);
    var body := [Work, inner, Work, inner];
    assert CodeSections([inner], outer) == [outer + [AdmissionLock]] by {
      assert [inner][1..] == [] && [Work][1..] == [];
      assert CodeSections([Work], outer + [AdmissionLock]) == [outer + [AdmissionLock]];
    }
    assert CodeSections([Work], outer) == [outer] by { assert [Work][1..] == []; }
    SectionsAppend([Work], [inner], outer);
    SectionsAppend([Work] + [inner], [Work] + [inner], outer);
    assert body == ([Work] + [inner]) + ([Work] + [inner]);
    assert CodeSections(body, outer) == [outer, outer + [AdmissionLock], outer, outer + [AdmissionLock]];
    assert Program(IssueAdmission) == [Hold(outer, body)] && [Hold(outer, body)][1..] == [] && [] + outer == outer;
    assert First(3) == outer && First(4) == outer + [AdmissionLock];
  }

  lemma {:induction false} QualifySections(replaysTask: bool)
    ensures CodeSections(Program(Qualify(replaysTask)), []) == Table(Qualify(replaysTask))
  {
    var a, c := [Work, Hold(INPUT_LOCKS, [Work])], [Hold(INPUT_LOCKS + [QualificationLock], [Work])];
    var b := if replaysTask then [] else TaskFreshness();
    assert Program(Qualify(replaysTask)) == a + b + c;
    SectionsAppend(a + b, c, []);
    SectionsAppend(a, b, []);
    WorkThenBlock(INPUT_LOCKS);
    WorkThenBlock(INPUT_LOCKS + [QualificationLock]);
    TaskFreshnessSections();
    assert INPUT_LOCKS == First(5) && INPUT_LOCKS + [QualificationLock] == First(6);
  }

  lemma {:induction false} ChainLocks()
    ensures INPUT_LOCKS == First(5) && INPUT_LOCKS + [QualificationLock, BridgeLock] == First(7) && TECHNICAL_LOCKS == First(8)
    ensures TECHNICAL_LOCKS + [InterpretationLock] == First(9)
    ensures TECHNICAL_LOCKS + [InterpretationLock, AssessmentLock] == First(10) && STRATEGY_LOCKS == First(11)
  {
  }

  lemma {:induction false} ProgramSections(op: Operation)
    ensures CodeSections(Program(op), []) == Table(op)
  {
    ChainLocks();
    match op {
      case ConstructionExecute => WorkThenBlock([ConstructionLock]);
      case ConstructionHistory => WorkThenBlock([ConstructionLock]);
      case ValidationExecute(concerns) =>
        WorkThenBlock([ConstructionLock]);
        RepeatSections([ValidationLock], concerns);
        SectionsAppend([Hold([ConstructionLock], [Work]), Work], Repeat(Hold([ValidationLock], [Work]), concerns), []);
      case ValidationHistory => WorkThenBlock([ValidationLock]);
      case FreshnessExecute => TaskFreshnessSections();
      case FreshnessHistory => WorkThenBlock([FreshnessLock]);
      case IssueAdmission => AdmissionSections();
      case AdmissionHistory => WorkThenBlock([AdmissionLock]);
      case IssueInitialActive => WorkThenBlock([ConstructionLock, AdmissionLock, ValidityLock]);
      case ValidityHistory => WorkThenBlock([ValidityLock]);
      case ResolveRetainedMaterial => WorkThenBlock(INPUT_LOCKS);
      case Qualify(replaysTask) => QualifySections(replaysTask);
      case QualificationHistory => WorkThenBlock([QualificationLock]);
      case BridgeExecute => WorkThenBlock(INPUT_LOCKS + [QualificationLock, BridgeLock]);
      case BridgeHistory => WorkThenBlock([BridgeLock]);
      case TechnicalOperation => WorkThenBlock(TECHNICAL_LOCKS);
      case InterpretationOperation => WorkThenBlock(TECHNICAL_LOCKS + [InterpretationLock]);
      case AssessmentOperation => WorkThenBlock(TECHNICAL_LOCKS + [InterpretationLock, AssessmentLock]);
      case StrategyOperation => WorkThenBlock(STRATEGY_LOCKS);
    }
  }

  /** Carried out instruction by instruction, each operation holds exactly these locks at
      each piece of its work. */
  lemma {:induction false} SectionsExactly(op: Operation)
    ensures Sections(Flatten(Program(op)), []) == Table(op)
  {
    FlattenSections(Program(op), [], []);
    ProgramSections(op);
    assert Flatten(Program(op)) + [] == Flatten(Program(op));
  }

  // ---- What waiting and ending mean ----

  /** A thread that wants a lock cannot go on exactly when some thread holds it. */
  lemma {:induction false} WaitsExactly(s: State, t: nat)
    requires Waiting(s, t)
    ensures (forall s' :: !Steps(s, t, Advance, s')) <==> exists u: nat :: WaitsFor(s, t, u)
  {
    var l := Wanted(s, t);
    if Taken(s, l) {
      var u :| 0 <= u < |s| && l in s[u].held;
      assert WaitsFor(s, t, u);
    } else {
      assert Steps(s, t, Advance, s[t := Thread(s[t].todo[1..], s[t].held + [l])]);
    }
  }

  /** Idle threads hold nothing and have nothing left to do; any of them can begin any
      operation. */
  lemma {:induction false} IdleExactly(s: State, t: nat, op: Operation)
    requires Idle(s) && t < |s|
    ensures Finished(s) && NoLockTaken(s) && forall u :: 0 <= u < |s| ==> s[u].todo == [] && s[u].held == []
    ensures IsRun([s, s[t := Thread(Flatten(Program(op)), [])]])
  {
    forall s' ensures !Continues(s, s') {
      forall u: nat, step | Steps(s, u, step, s') ensures step.Begin? {
        assert u < |s| && s[u] == Thread([], []);
      }
    }
    var run := [s, s[t := Thread(Flatten(Program(op)), [])]];
    assert Steps(run[0], t, Begin(op), run[1]);
    forall i | 0 <= i < |run| - 1 ensures Next(run[i], run[i + 1]) {
      assert i == 0;
    }
  }

  lemma {:induction false} NothingTakenExactly(s: State)
    ensures NoLockTaken(s) <==> forall t :: 0 <= t < |s| ==> s[t].held == []
  {
    if NoLockTaken(s) {
      forall t | 0 <= t < |s| ensures s[t].held == [] {
        if s[t].held != [] { assert s[t].held[0] in s[t].held && Taken(s, s[t].held[0]); }
      }
    }
  }
}
