/** What holds on every run of a Strategy execution, whatever its callbacks do. */
module TransactionSafety {
  import opened Basics
  import opened ObjectGraph
  import opened NativeSupport
  import opened InterpretationTransaction
  import opened TransactionNest
  import L = LockOrder

  function RankOf(w: World): nat {
    if w.txn.None? then 0 else PhaseRank(w.txn.value.phase)
  }

  /** The transaction was closed or its witness is spent. */
  predicate Dead(w: World) {
    w.ownership.closed || (w.txn.Some? && w.txn.value.phase == Shut)
  }

  /** What the transaction captured when it was entered. */
  predicate SameCapture(t: Txn, u: Txn) {
    u == t.(phase := u.phase, active := u.active, prepared := u.prepared, support := u.support, retention := u.retention)
  }

  predicate Grows(w: World, v: World) {
    || v.history == w.history
    || (w.history <= v.history && |v.history| == |w.history| + 1 && RankOf(w) < PhaseRank(Phase.Sealed) <= RankOf(v))
  }

  predicate StaysDead(w: World, v: World) {
    && Dead(v) && v.history == w.history && v.selected == w.selected
    && (w.txn.None? ==> v.txn.None?)
    && (w.txn.Some? && v.txn.Some? ==> v.txn.value.phase in {w.txn.value.phase, Shut})
  }

  /** How a later moment relates to an earlier one. */
  predicate Moves(w: World, v: World) {
    && (w.txn.Some? ==> v.txn.Some? && SameCapture(w.txn.value, v.txn.value))
    && RankOf(w) <= RankOf(v)
    && w.activations <= v.activations
    && v.ownership.locks == w.ownership.locks && v.ownership.thread == w.ownership.thread
    && (w.ownership.closed ==> v.ownership.closed && v.activations == w.activations)
    && Grows(w, v)
    && (Dead(w) ==> StaysDead(w, v))
  }

  /** The part of the invariant that the movement of phases rests on. */
  predicate Orderly(w: World) {
    w.txn.Some? ==>
      && (w.txn.value.active <==> w.txn.value.phase != Shut)
      && (w.ownership.activated || w.ownership.closed)
      && (w.stack != [] ==> FrameFits(Top(w), w.txn.value, w.passes))
  }

  lemma {:induction false} FailMoves(w: World)
    requires w.stack != []
    ensures Moves(w, Fail(w)) && Fail(w).history == w.history
  {
  }

  lemma {:induction false} StartMoves(w: World, thread: int, token: Id, own: bool)
    ensures Moves(w, StartPreparation(w, thread, token, own)) && Moves(w, StartSeal(w, thread, token, own))
  {
  }

  lemma {:induction false} FinishMoves(w: World, f: Frame, next: Phase)
    requires w.stack != [] && (f.Preparation? || f.Seal?) && f.stage.Confirming? && w.txn.Some?
    requires f == Top(w) && Orderly(w)
    requires next == if f.Preparation? then Prepared else Phase.Sealed
    requires CanFinish(w.txn.value, w.ownership, w.live, f.thread, f.stage.confirmed)
    requires |f.stage.seen| >= |f.stage.want|
    ensures Moves(w, AdvanceConfirmation(w, f, next))
  {
  }

  lemma {:induction false} ConfirmationMoves(w: World, f: Frame, next: Phase)
    requires w.stack != [] && (f.Preparation? || f.Seal?) && f.stage.Confirming? && w.txn.Some?
    requires f == Top(w) && Orderly(w)
    requires next == if f.Preparation? then Prepared else Phase.Sealed
    ensures Moves(w, AdvanceConfirmation(w, f, next))
  {
    FailMoves(w);
    if |f.stage.seen| >= |f.stage.want| && CanFinish(w.txn.value, w.ownership, w.live, f.thread, f.stage.confirmed) {
      FinishMoves(w, f, next);
    }
  }

  lemma {:induction false} PreparationMoves(w: World, f: Frame)
    requires w.stack != [] && f == Top(w) && f.Preparation? && w.txn.Some? && Orderly(w)
    ensures Moves(w, AdvancePreparation(w, f))
  {
    FailMoves(w);
    match f.stage
    case Confirming(_, _, _) => ConfirmationMoves(w, f, Prepared);
    case Rechecking => FailMoves(WithTxn(w, w.txn.value.(prepared := Some(f.inventory))));
    case _ =>
  }

  lemma {:induction false} SealMoves(w: World, f: Frame)
    requires w.stack != [] && f == Top(w) && f.Seal? && w.txn.Some? && Orderly(w)
    ensures Moves(w, AdvanceSeal(w, f))
  {
    FailMoves(w);
    if f.stage.Confirming? { ConfirmationMoves(w, f, Phase.Sealed); }
  }

  lemma {:induction false} ExecutionMoves(w: World, f: Frame, token: Id, fact: string)
    requires w.stack != [] && f == Top(w) && f.Execution? && w.txn.Some?
    ensures Moves(w, AdvanceExecution(w, f, token, fact))
  {
    match f.job
    case Entered => StartMoves(Replace(w, Doing(f, AwaitsInventory)), f.thread, token, true);
    case Working(inventory) => StartMoves(Replace(w, Doing(f, AwaitsSeal(fact))), f.thread, inventory, true);
    case _ =>
  }

  lemma {:induction false} AdvanceMoves(w: World, token: Id, fact: string)
    requires Orderly(w)
    ensures Moves(w, Step(w, Advance(token, fact)))
  {
    if w.stack != [] && w.txn.Some? {
      match Top(w)
      case Preparation(_, _, _, _) => PreparationMoves(w, Top(w));
      case Seal(_, _, _, _) => SealMoves(w, Top(w));
      case Selection(_, _, _) =>
        FailMoves(w);
        if AdvanceSelection(w, Top(w)) != Fail(w) { assert !Dead(w); }
      case Execution(_, _, _) => ExecutionMoves(w, Top(w), token, fact);
    }
  }

  lemma {:induction false} EnterMoves(w: World, e: Entry)
    requires Orderly(w)
    ensures Moves(w, Enter(w, e))
  {
  }

  lemma {:induction false} StepMoves(w: World, e: Event)
    requires Orderly(w)
    ensures Moves(w, Step(w, e))
  {
    match e
    case Execute(entry, _) => EnterMoves(w, entry);
    case Advance(token, fact) => AdvanceMoves(w, token, fact);
    case Raise => if w.stack != [] { FailMoves(w); }
    case CallPrepare(thread, token) => StartMoves(w, thread, token, false);
    case CallSeal(thread, inventory) => StartMoves(w, thread, inventory, false);
    case CallEnter(entry) => EnterMoves(w, entry);
    case _ =>
  }

  lemma {:induction false} MovesCompose(w: World, v: World, u: World)
    requires Moves(w, v) && Moves(v, u)
    ensures Moves(w, u)
  {
  }

  lemma {:induction false} RunMoves(w: World, events: seq<Event>)
    requires Fits(w)
    ensures Moves(w, Run(w, events)) && Fits(Run(w, events))
    decreases |events|
  {
    if events != [] {
      var v := Step(w, events[0]);
      StepMoves(w, events[0]);
      StepFits(w, events[0]);
      RunMoves(v, events[1..]);
      MovesCompose(w, v, Run(v, events[1..]));
    }
  }

  lemma {:induction false} RunAppends(w: World, before: seq<Event>, after: seq<Event>)
    ensures Run(w, before + after) == Run(Run(w, before), after)
    decreases |before|
  {
    if before == [] {
      assert before + after == after;
    } else {
      assert (before + after)[1..] == before[1..] + after;
      RunAppends(Step(w, before[0]), before[1..], after);
    }
  }

  lemma {:induction false} FreshFits(w: World)
    requires Fresh(w)
    ensures Fits(w)
  {
  }

  // ---- The phases and the witness ----

  /** On every run the phase only advances, what was captured stays as captured, a spent
      witness stays spent, and at most one transaction is ever activated. */
  lemma {:induction false} PhasesOnlyAdvance(w: World, before: seq<Event>, after: seq<Event>)
    requires Fresh(w)
    ensures var v, u := Run(w, before), Run(w, before + after);
      && RankOf(v) <= RankOf(u) && u.activations <= 1
      && (v.ownership.closed ==> u.ownership.closed)
      && (v.txn.Some? ==> u.txn.Some? && SameCapture(v.txn.value, u.txn.value))
      && v.activations <= u.activations && u.ownership.thread == w.ownership.thread && u.ownership.locks == w.ownership.locks
      && (v.txn.Some? ==>
            && u.txn.value.facts == v.txn.value.facts && u.txn.value.anchors == v.txn.value.anchors
            && u.txn.value.nodes == v.txn.value.nodes && u.txn.value.prices == v.txn.value.prices
            && u.txn.value.roots == v.txn.value.roots && u.txn.value.visited == v.txn.value.visited
            && u.txn.value.base == v.txn.value.base)
  {
    FreshFits(w);
    RunMoves(w, before);
    RunAppends(w, before, after);
    RunMoves(Run(w, before), after);
  }

  /** A witness that is in use or spent never activates another transaction. */
  lemma {:induction false} WitnessIsOneShot(w: World, events: seq<Event>)
    requires Fits(w) && (w.ownership.activated || w.ownership.closed)
    ensures Run(w, events).activations == w.activations && w.activations <= 1
    ensures w.txn.Some? ==> Run(w, events).txn.Some? && SameCapture(w.txn.value, Run(w, events).txn.value)
    ensures w.txn.None? ==> Run(w, events).txn.None?
  {
    RunMoves(w, events);
  }

  /** A call that finds the transaction elsewhere than it expects. */
  predicate Intrudes(w: World, e: Event) {
    w.txn.Some? &&
    match e
    case CallPrepare(thread, _) => !CanPrepare(w.txn.value, w.ownership, w.live, thread)
    case CallSeal(thread, inventory) => !CanSeal(w.txn.value, w.ownership, w.live, thread, inventory)
    case CallEnter(_) => true
    case CallExit => true
    case _ => false
  }

  /** A callback that prepares or seals out of turn, enters with the same witness or
      leaves the context ends the transaction, however the calls are nested: no run that
      follows selects, commits, or brings it to another phase than closed. */
  lemma {:induction false} IntrusionIsFatal(w: World, e: Event, later: seq<Event>)
    requires Fits(w) && Intrudes(w, e)
    ensures StaysDead(Step(w, e), Run(Step(w, e), later))
    ensures Dead(Run(Step(w, e), later))
    ensures Run(Step(w, e), later).history == w.history && Run(Step(w, e), later).selected == w.selected
  {
    StepFits(w, e);
    RunMoves(Step(w, e), later);
  }

  /** While a call is under way every further preparation or seal intrudes. */
  lemma {:induction false} ReentryIntrudes(w: World, i: nat, thread: int, other: Id)
    requires Fits(w) && i < |w.stack| && (w.stack[i].Preparation? || w.stack[i].Seal?)
    ensures Intrudes(w, CallPrepare(thread, other)) && Intrudes(w, CallSeal(thread, other))
    ensures Intrudes(w, CallExit) && forall entry :: Intrudes(w, CallEnter(entry))
  {
    assert FrameFits(w.stack[i], w.txn.value, w.passes);
  }

  /** A transaction that becomes prepared or sealed, or a commit, was never disturbed:
      at every earlier moment it was open and its witness unspent. */
  lemma {:induction false} ReachedMeansUndisturbed(w: World, before: seq<Event>, after: seq<Event>)
    requires Fresh(w)
    requires var v, u := Run(w, before), Run(w, before + after);
      u.history != v.history || (u.txn.Some? && u.txn.value.phase != Shut && RankOf(v) < RankOf(u))
    ensures !Dead(Run(w, before))
  {
    FreshFits(w);
    RunMoves(w, before);
    RunAppends(w, before, after);
    RunMoves(Run(w, before), after);
  }

  // ---- What prepared and sealed mean ----

  /** Sealed, on any run, means three complete support passes, callbacks between all of
      their readings, that found the same sources, facts and retention. */
  lemma {:induction false} SealedMeansThreeAgreeingPasses(w: World, events: seq<Event>)
    requires Fresh(w) && Run(w, events).txn.Some? && Run(w, events).txn.value.phase == Phase.Sealed
    ensures var p := Run(w, events).passes; |p| == 3 && p[0] == p[1] == p[2] && Agreed(Run(w, events).txn.value, p, 3)
  {
    FreshFits(w);
    RunMoves(w, events);
  }

  /** All inventories selected on one run are the same object, the prepared one. */
  lemma {:induction false} OneInventoryPerTransaction(w: World, events: seq<Event>, i: nat, j: nat)
    requires Fresh(w) && i < j < |Run(w, events).selected|
    ensures Run(w, events).selected[i].inventory == Run(w, events).selected[j].inventory
  {
    FreshFits(w);
    RunMoves(w, events);
  }

  /** The selection at hand, when its inventory still is as it was built, or not. */
  ghost predicate Picks(w: World, item: Fact) {
    && w.txn.Some? && w.stack != [] && Top(w).Selection? && Top(w).inventory in w.live.inventories
    && var d, k := w.live.inventories[Top(w).inventory], Position(w.live.inventories[Top(w).inventory].selectors, Top(w).selector);
       && Corresponds(d, d.facts) && Selects(d, Top(w).selector, k) && item == d.items[k]
  }

  lemma {:induction false} StartSelectsNothing(w: World, thread: int, token: Id, own: bool)
    ensures StartPreparation(w, thread, token, own).selected == w.selected
    ensures StartSeal(w, thread, token, own).selected == w.selected
  {
  }

  lemma {:induction false} ConfirmationSelectsNothing(w: World, f: Frame, next: Phase)
    requires w.stack != [] && (f.Preparation? || f.Seal?) && f.stage.Confirming? && w.txn.Some?
    ensures AdvanceConfirmation(w, f, next).selected == w.selected
  {
  }

  lemma {:induction false} CallSelectsNothing(w: World, f: Frame)
    requires w.stack != [] && w.txn.Some?
    ensures f.Preparation? ==> AdvancePreparation(w, f).selected == w.selected
    ensures f.Seal? ==> AdvanceSeal(w, f).selected == w.selected
  {
    if (f.Preparation? || f.Seal?) && f.stage.Confirming? {
      ConfirmationSelectsNothing(w, f, Prepared);
      ConfirmationSelectsNothing(w, f, Phase.Sealed);
    }
  }

  lemma {:induction false} ExecutionSelectsNothing(w: World, f: Frame, token: Id, fact: string)
    requires w.stack != [] && f.Execution?
    ensures AdvanceExecution(w, f, token, fact).selected == w.selected
  {
    StartSelectsNothing(Replace(w, Doing(f, AwaitsInventory)), f.thread, token, true);
    if f.job.Working? { StartSelectsNothing(Replace(w, Doing(f, AwaitsSeal(fact))), f.thread, f.job.inventory, true); }
  }

  lemma {:induction false} OnlySelectionPicks(w: World, e: Event)
    requires Step(w, e).selected != w.selected
    ensures e.Advance? && w.stack != [] && w.txn.Some? && Top(w).Selection?
    ensures |Step(w, e).selected| == |w.selected| + 1 && Picks(w, Step(w, e).selected[|w.selected|].item)
  {
    match e
    case Advance(token, fact) =>
      if w.stack != [] && w.txn.Some? {
        CallSelectsNothing(w, Top(w));
        if Top(w).Execution? { ExecutionSelectsNothing(w, Top(w), token, fact); }
      }
    case CallPrepare(thread, token) => StartSelectsNothing(w, thread, token, false);
    case CallSeal(thread, inventory) => StartSelectsNothing(w, thread, inventory, false);
    case _ =>
  }

  /** A selection checks the inventory against its own facts only. What it returns carries
      the requested selector, and is a committed interpretation exactly when the fact
      stored at that position is; with the facts of the transaction in place it is the
      only committed one of that selector. */
  lemma {:induction false} SelectedItemIsCommittedExactly(w: World, e: Event)
    requires Step(w, e).selected != w.selected
    ensures Top(w).Selection? && Top(w).inventory in w.live.inventories
    ensures var d, t, item := w.live.inventories[Top(w).inventory], w.txn.value, Step(w, e).selected[|w.selected|].item;
      && item.selector == Top(w).selector
      && (d.facts == t.facts ==> item in t.facts && forall x :: x in t.facts && x.selector == item.selector ==> x == item)
      && (item in t.facts <==> exists k :: 0 <= k < |d.facts| && d.facts[k].selector == Top(w).selector && d.facts[k] in t.facts)
  {
    OnlySelectionPicks(w, e);
    var d := w.live.inventories[Top(w).inventory];
    var k := Position(d.selectors, Top(w).selector);
    SelectedIsCommittedExactly(w.txn.value, d, Top(w).selector, k);
    forall j | 0 <= j < |d.facts| && d.facts[j].selector == Top(w).selector ensures j == k {
      assert ItemIntact(d, j);
    }
    assert ItemIntact(d, k);
  }

  /** Nothing that the transaction captured has changed: the locks, the authority fields,
      and of every object that its roots reach the type and what that type retains, price
      storage included. */
  ghost predicate Intact(t: Txn, live: Live) {
    && AllLocked(live.locked) && Holds(t.anchors, live.fields)
    && (forall x :: InSupport(t.base, t.roots, x) <==> InSupport(live.heap, t.roots, x))
    && (forall x :: InSupport(live.heap, t.roots, x) ==> x in t.base && Retained(t.base[x], live.heap[x]))
  }

  predicate Retained(was: Cell, now: Cell) {
    && now.kind == was.kind
    && (was.kind.Prices? || was.kind.EnumMember? ==> now.storage == was.storage)
    && (was.kind.Dict? || was.kind.EnumMember? ==> now.keys == was.keys)
    && (was.kind.Record? ==> now.layout == was.layout)
    && (!was.kind.Prices? && !was.kind.Scalar? ==> now.edges == was.edges)
  }

  /** Clause by clause. */
  lemma {:induction false} IntactExactly(t: Txn, live: Live)
    ensures Intact(t, live) <==>
      && (forall l :: l in L.STRATEGY_LOCKS ==> l in live.locked)
      && (forall name :: name in t.anchors ==> name in live.fields && live.fields[name] == t.anchors[name])
      && (forall x :: InSupport(t.base, t.roots, x) <==> InSupport(live.heap, t.roots, x))
      && (forall x :: InSupport(live.heap, t.roots, x) ==>
            && x in t.base && live.heap[x].kind == t.base[x].kind
            && match t.base[x].kind
               case Prices => live.heap[x].storage == t.base[x].storage
               case EnumMember =>
                 live.heap[x].storage == t.base[x].storage && live.heap[x].keys == t.base[x].keys
                 && live.heap[x].edges == t.base[x].edges
               case Dict => live.heap[x].keys == t.base[x].keys && live.heap[x].edges == t.base[x].edges
               case Record(_) => live.heap[x].layout == t.base[x].layout && live.heap[x].edges == t.base[x].edges
               case Scalar => true
               case _ => live.heap[x].edges == t.base[x].edges)
  {
  }

  lemma {:induction false} FinishIsIntact(t: Txn, w: Witness, live: Live, thread: int, phase: Phase)
    requires CanFinish(t, w, live, thread, phase) && Pinned(t, live)
    ensures Intact(t, live)
  {
    AcceptedGraphIsIntact(t.base, t.roots, t.nodes, t.prices, t.visited, live.heap);
  }

  /** The transaction has just become prepared or sealed. */
  predicate Reaches(w: World, v: World) {
    && w.txn.Some? && v.txn.Some? && v.txn.value.phase in {Prepared, Phase.Sealed} && w.txn.value.phase != v.txn.value.phase
  }

  /** The step at hand is the end of a confirming pass. */
  ghost predicate Finishing(w: World) {
    && w.txn.Some? && w.stack != [] && (Top(w).Preparation? || Top(w).Seal?) && Top(w).stage.Confirming?
    && |Top(w).stage.seen| >= |Top(w).stage.want|
    && CanFinish(w.txn.value, w.ownership, w.live, Top(w).thread, Top(w).stage.confirmed)
  }

  predicate Calling(w: World) {
    w.txn.Some? && w.stack != [] && (Top(w).Preparation? || Top(w).Seal?)
  }

  /** All other steps leave phase and history alone, or shut. */
  lemma {:induction false} OtherStepsReachNothing(w: World, e: Event)
    requires Orderly(w) && !(e.Advance? && Calling(w))
    ensures !Reaches(w, Step(w, e)) && Step(w, e).history == w.history
  {
    if e.Advance? && w.stack != [] && w.txn.Some? && Top(w).Execution? {
      StartReachesNothing(Replace(w, Doing(Top(w), AwaitsInventory)), Top(w).thread, e.token);
      if Top(w).job.Working? {
        StartReachesNothing(Replace(w, Doing(Top(w), AwaitsSeal(e.fact))), Top(w).thread, Top(w).job.inventory);
      }
    } else if e.CallPrepare? {
      StartReachesNothing(w, e.thread, e.token);
    } else if e.CallSeal? {
      StartReachesNothing(w, e.thread, e.inventory);
    }
  }

  lemma {:induction false} StartReachesNothing(w: World, thread: int, token: Id)
    ensures forall own ::
      && !Reaches(w, StartPreparation(w, thread, token, own))
      && StartPreparation(w, thread, token, own).history == w.history
    ensures forall own :: !Reaches(w, StartSeal(w, thread, token, own)) && StartSeal(w, thread, token, own).history == w.history
  {
  }

  lemma {:induction false} PreparationReaches(w: World)
    requires Calling(w) && Top(w).Preparation?
    ensures Reaches(w, AdvancePreparation(w, Top(w))) || AdvancePreparation(w, Top(w)).history != w.history ==>
              Finishing(w) && AdvancePreparation(w, Top(w)) == AdvanceConfirmation(w, Top(w), Prepared)
    ensures AdvancePreparation(w, Top(w)).history == w.history
  {
  }

  lemma {:induction false} SealReaches(w: World)
    requires Calling(w) && Top(w).Seal?
    ensures Reaches(w, AdvanceSeal(w, Top(w))) || AdvanceSeal(w, Top(w)).history != w.history ==>
              Finishing(w) && AdvanceSeal(w, Top(w)) == AdvanceConfirmation(w, Top(w), Phase.Sealed)
    ensures AdvanceSeal(w, Top(w)).history != w.history ==> Top(w).own
  {
  }

  lemma {:induction false} FinishingKeeps(w: World, next: Phase)
    requires Finishing(w) && next in {Prepared, Phase.Sealed}
    ensures var v := AdvanceConfirmation(w, Top(w), next);
      v.live == w.live && (Reaches(w, v) || v.history != w.history ==> v.ownership == w.ownership)
      && v.txn.Some? && SameCapture(w.txn.value, v.txn.value)
  {
  }

  /** Only the end of a confirming pass makes a transaction prepared or sealed, or commits. */
  lemma {:induction false} OnlyFinishing(w: World, e: Event)
    requires Orderly(w) && (Reaches(w, Step(w, e)) || Step(w, e).history != w.history)
    ensures e.Advance? && Finishing(w)
    ensures Step(w, e) == AdvanceConfirmation(w, Top(w), if Top(w).Preparation? then Prepared else Phase.Sealed)
    ensures Step(w, e).history != w.history ==> Top(w).Seal? && Top(w).own
    ensures Step(w, e).live == w.live && Step(w, e).ownership == w.ownership
    ensures Step(w, e).txn.Some? && SameCapture(w.txn.value, Step(w, e).txn.value)
  {
    if !(e.Advance? && Calling(w)) {
      OtherStepsReachNothing(w, e);
      assert false;
    } else if Top(w).Preparation? {
      PreparationReaches(w);
      FinishingKeeps(w, Prepared);
    } else {
      SealReaches(w);
      FinishingKeeps(w, Phase.Sealed);
    }
  }

  /** The moment a transaction becomes prepared or sealed: the whole retained graph and
      all authority are as at entry, all eleven locks are held, the witness is unspent. */
  lemma {:induction false} BoundaryIsIntact(w: World, e: Event)
    requires Fits(w) && Reaches(w, Step(w, e))
    ensures Intact(Step(w, e).txn.value, Step(w, e).live)
    ensures !Step(w, e).ownership.closed && Step(w, e).ownership.locks == L.STRATEGY_LOCKS
  {
    OnlyFinishing(w, e);
    FinishIsIntact(w.txn.value, w.ownership, w.live, Top(w).thread, Top(w).stage.confirmed);
  }

  // ---- The commit ----

  /** A commit appends the one fact, in the stretch of code that sealed the transaction:
      three passes agreed, everything captured is intact, the Strategy roots still hold
      and all eleven locks are held. */
  lemma {:induction false} CommitNeedsEverything(w: World, e: Event)
    requires Fits(w) && Step(w, e).history != w.history
    ensures var v := Step(w, e);
      && v.txn.Some? && v.txn.value.phase == Phase.Sealed && Agreed(v.txn.value, v.passes, 3)
      && Intact(v.txn.value, v.live) && !v.ownership.closed
      && v.stack != [] && Top(v).Execution? && Holds(Top(v).roots, v.live.fields)
      && |w.stack| > 1 && w.stack[|w.stack| - 2].Execution? && w.stack[|w.stack| - 2].job.AwaitsSeal?
      && v.history == w.history + [w.stack[|w.stack| - 2].job.fact]
  {
    StepFits(w, e);
    OnlyFinishing(w, e);
    FinishIsIntact(w.txn.value, w.ownership, w.live, Top(w).thread, Top(w).stage.confirmed);
  }

  /** One execution commits at most once, whatever runs inside it. */
  lemma {:induction false} CommitsAtMostOnce(w: World, events: seq<Event>)
    requires Fresh(w)
    ensures w.history <= Run(w, events).history && |Run(w, events).history| <= |w.history| + 1
  {
    FreshFits(w);
    RunMoves(w, events);
  }

  // ---- An undisturbed execution ----

  /** The program alone: `n` of its own steps, no callback doing anything. */
  ghost function Alone(w: World, token: Id, fact: string, n: nat): World {
    Run(w, seq(n, _ => Advance(token, fact)))
  }

  lemma {:induction false} AloneAppends(w: World, token: Id, fact: string, m: nat, n: nat)
    ensures Alone(w, token, fact, m + n) == Alone(Alone(w, token, fact, m), token, fact, n)
  {
    var e := Advance(token, fact);
    assert seq(m + n, _ => e) == seq(m, _ => e) + seq(n, _ => e);
    RunAppends(w, seq(m, _ => e), seq(n, _ => e));
  }

  lemma {:induction false} AloneOnce(w: World, token: Id, fact: string)
    ensures Alone(w, token, fact, 1) == Step(w, Advance(token, fact))
  {
    var e := Advance(token, fact);
    assert seq(1, _ => e) == [e];
    assert Run(w, [e]) == Run(Step(w, e), [e][1..]);
  }

  lemma {:induction false} AloneTwice(w: World, token: Id, fact: string)
    ensures Alone(w, token, fact, 2) == Step(Step(w, Advance(token, fact)), Advance(token, fact))
  {
    AloneAppends(w, token, fact, 1, 1);
    AloneOnce(w, token, fact);
    AloneOnce(Step(w, Advance(token, fact)), token, fact);
  }

  predicate Supported(live: Live, n: nat) {
    live.retention.Some? && forall k :: 0 <= k < n ==> k in live.support
  }

  function Found(live: Live, n: nat): (found: seq<Lineage>)
    requires Supported(live, n)
    ensures |found| == n
    ensures forall k :: 0 <= k < n ==> found[k] == live.support[k]
  {
    seq(n, k requires 0 <= k < n => live.support[k])
  }

  /** All that the checks read is as it was captured. */
  ghost predicate Steady(w: World, thread: int) {
    && w.txn.Some? && w.txn.value.active && Lifetime(w.txn.value, w.ownership, w.live, thread, w.txn.value.phase)
    && Holds(w.txn.value.anchors, w.live.fields) && Accepts(w.live.heap, w.txn.value.nodes, w.txn.value.prices)
    && Supported(w.live, |w.txn.value.facts|)
  }

  /** The first pass reads entry after entry. */
  lemma {:induction false} ReadsOn(w: World, f: Frame, token: Id, fact: string, k: nat)
    requires Steady(w, f.thread) && w.stack != [] && f == Top(w) && f.Preparation? && k <= |w.txn.value.facts|
    requires f.stage == Reading(Found(w.live, |w.txn.value.facts|)[..k])
    ensures Alone(w, token, fact, |w.txn.value.facts| - k) == Replace(w, At(f, Reading(Found(w.live, |w.txn.value.facts|))))
    decreases |w.txn.value.facts| - k
  {
    var n := |w.txn.value.facts|;
    var all := Found(w.live, n);
    if k == n {
      assert all[..k] == all;
      assert Replace(w, f) == w;
    } else {
      var v := Step(w, Advance(token, fact));
      AloneOnce(w, token, fact);
      AloneAppends(w, token, fact, 1, n - k - 1);
      assert all[..k] + [all[k]] == all[..k + 1];
      assert v == Replace(w, At(f, Reading(all[..k + 1])));
      ReadsOn(v, Top(v), token, fact, k + 1);
    }
  }

  /** A confirming pass rereads entry after entry. */
  lemma {:induction false} ConfirmsOn(w: World, f: Frame, token: Id, fact: string, k: nat)
    requires Steady(w, f.thread) && w.stack != [] && f == Top(w) && (f.Preparation? || f.Seal?) && k <= |w.txn.value.facts|
    requires f.stage.Confirming? && f.stage.want == Found(w.live, |w.txn.value.facts|) && f.stage.seen == f.stage.want[..k]
    ensures Alone(w, token, fact, |w.txn.value.facts| - k)
         == Replace(w, At(f, Confirming(f.stage.confirmed, f.stage.want, f.stage.want)))
    decreases |w.txn.value.facts| - k
  {
    var n, all := |w.txn.value.facts|, f.stage.want;
    if k == n {
      assert all[..k] == all;
      assert Replace(w, f) == w;
    } else {
      var v := Step(w, Advance(token, fact));
      AloneOnce(w, token, fact);
      AloneAppends(w, token, fact, 1, n - k - 1);
      assert all[..k] + [all[k]] == all[..k + 1];
      assert v == Replace(w, At(f, Confirming(f.stage.confirmed, all, all[..k + 1])));
      ConfirmsOn(v, Top(v), token, fact, k + 1);
    }
  }

  /** The first pass becomes the expectation and the inventory is bound. */
  lemma {:induction false} AloneBinds(w: World, f: Frame, token: Id, fact: string)
    requires Steady(w, f.thread) && w.stack != [] && f == Top(w) && f.Preparation? && w.txn.value.phase == Preparing
    requires f.stage == Reading(Found(w.live, |w.txn.value.facts|)) && w.txn.value.retention.Some?
    requires f.inventory !in w.live.inventories
    ensures var t := w.txn.value.(prepared := Some(f.inventory), support := f.stage.seen);
      Alone(w, token, fact, 2) == Replace(w, At(f, Confirming(Preparing, f.stage.seen, []))).(txn := Some(t),
        passes := w.passes + [Observation(t.support, t.retention.value)],
        live := w.live.(inventories := w.live.inventories[f.inventory := Rebuilt(t)]))
  {
    var w1 := Step(w, Advance(token, fact));
    assert w1 == KeepFirstPass(w, f);
    AloneTwice(w, token, fact);
  }

  /** What the end of a confirming pass that found everything again leaves behind. */
  function Confirmed(w: World, f: Frame): World
    requires w.txn.Some? && w.live.retention.Some? && w.stack != [] && (f.Preparation? || f.Seal?) && f.stage.Confirming?
  {
    Return(f, Pop(WithTxn(w, w.txn.value.(phase := if f.Preparation? then Prepared else Phase.Sealed))).(
      passes := w.passes + [Observation(f.stage.want, w.live.retention.value)]))
  }

  /** The confirming pass ends and the execution takes the result. */
  lemma {:induction false} AloneConfirms(w: World, f: Frame, token: Id, fact: string)
    requires Steady(w, f.thread) && w.stack != [] && f == Top(w) && (f.Preparation? || f.Seal?)
    requires f.stage.Confirming? && f.stage.want == Found(w.live, |w.txn.value.facts|) && f.stage.seen == []
    requires f.stage.confirmed == w.txn.value.phase && w.txn.value.retention == w.live.retention
    ensures Alone(w, token, fact, |w.txn.value.facts| + 1) == Confirmed(w, f)
  {
    var n := |w.txn.value.facts|;
    var g := At(f, Confirming(f.stage.confirmed, f.stage.want, f.stage.want));
    assert f.stage.want[..0] == [];
    ConfirmsOn(w, f, token, fact, 0);
    AloneAppends(w, token, fact, n, 1);
    AloneOnce(Replace(w, g), token, fact);
    FinishesAlone(w, f, g, token, fact);
  }

  lemma {:induction false} FinishesAlone(w: World, f: Frame, g: Frame, token: Id, fact: string)
    requires Steady(w, f.thread) && w.stack != [] && (f.Preparation? || f.Seal?) && f.stage.Confirming?
    requires g == At(f, Confirming(f.stage.confirmed, f.stage.want, f.stage.want))
    requires f.stage.confirmed == w.txn.value.phase && w.txn.value.retention == w.live.retention
    ensures Step(Replace(w, g), Advance(token, fact)) == Confirmed(w, f)
  {
    var v := Replace(w, g);
    assert Pop(v).stack == Pop(w).stack && Top(v) == g && v.txn == w.txn && v.live == w.live;
    assert CanFinish(v.txn.value, v.ownership, v.live, g.thread, g.stage.confirmed);
  }

  ghost predicate Starts(w: World, x: Frame) {
    x.Execution? && w.stack == [x] && Steady(w, x.thread) && Holds(x.roots, w.live.fields)
  }

  lemma {:induction false} AloneEnters(w: World, x: Frame, token: Id, fact: string)
    requires Starts(w, x) && x.job.Entered? && w.txn.value.phase == Active && w.txn.value.prepared.None?
    ensures Alone(w, token, fact, 2)
         == w.(txn := Some(w.txn.value.(phase := Preparing, retention := w.live.retention)),
              stack := [Doing(x, AwaitsInventory), Preparation(x.thread, token, true, Reading([]))])
  {
    var w1 := Step(w, Advance(token, fact));
    assert w1 == w.(txn := Some(w.txn.value.(phase := Preparing)),
      stack := [Doing(x, AwaitsInventory), Preparation(x.thread, token, true, Retaining)]);
    AloneTwice(w, token, fact);
  }

  /** The first pass and the binding of its inventory. */
  lemma {:induction false} AloneReads(w: World, f: Frame, token: Id, fact: string)
    requires Steady(w, f.thread) && w.stack != [] && f == Top(w) && f.Preparation? && w.txn.value.phase == Preparing
    requires f.stage == Reading([]) && w.txn.value.retention.Some? && f.inventory !in w.live.inventories
    ensures var n := |w.txn.value.facts|;
      var t := w.txn.value.(prepared := Some(f.inventory), support := Found(w.live, n));
      Alone(w, token, fact, n + 2) == Replace(w, At(f, Confirming(Preparing, t.support, []))).(txn := Some(t),
        passes := w.passes + [Observation(t.support, t.retention.value)],
        live := w.live.(inventories := w.live.inventories[f.inventory := Rebuilt(t)]))
  {
    var n := |w.txn.value.facts|;
    assert Found(w.live, n)[..0] == [];
    ReadsOn(w, f, token, fact, 0);
    AloneAppends(w, token, fact, n, 2);
    var v := Alone(w, token, fact, n);
    AloneBinds(v, Top(v), token, fact);
  }

  /** From entry to the confirming pass. */
  lemma {:induction false} AloneBindsInventory(w: World, x: Frame, token: Id, fact: string)
    requires Starts(w, x) && x.job.Entered? && w.txn.value.phase == Active && w.txn.value.prepared.None?
    requires token !in w.live.inventories
    ensures var n := |w.txn.value.facts|;
      var t := w.txn.value.(phase := Preparing, prepared := Some(token), support := Found(w.live, n), retention := w.live.retention);
      Alone(w, token, fact, n + 4) == w.(txn := Some(t), passes := w.passes + [Observation(t.support, t.retention.value)],
        stack := [Doing(x, AwaitsInventory), Preparation(x.thread, token, true, Confirming(Preparing, t.support, []))],
        live := w.live.(inventories := w.live.inventories[token := Rebuilt(t)]))
  {
    var n := |w.txn.value.facts|;
    AloneEnters(w, x, token, fact);
    var w2 := Alone(w, token, fact, 2);
    AloneReads(w2, Top(w2), token, fact);
    AloneAppends(w, token, fact, 2, n + 2);
  }

  /** From entry to a prepared inventory. */
  lemma {:induction false} AlonePrepares(w: World, x: Frame, token: Id, fact: string)
    requires Starts(w, x) && x.job.Entered? && w.txn.value.phase == Active && w.txn.value.prepared.None?
    requires token !in w.live.inventories
    ensures var n := |w.txn.value.facts|;
      var t := w.txn.value.(phase := Prepared, prepared := Some(token), support := Found(w.live, n), retention := w.live.retention);
      var o := Observation(t.support, t.retention.value);
      Alone(w, token, fact, 2 * n + 5) == w.(txn := Some(t), passes := w.passes + [o] + [o], stack := [Doing(x, Working(token))],
        live := w.live.(inventories := w.live.inventories[token := Rebuilt(t)]))
  {
    var n := |w.txn.value.facts|;
    AloneBindsInventory(w, x, token, fact);
    var v := Alone(w, token, fact, n + 4);
    AloneTakes(v, Doing(x, AwaitsInventory), Top(v), token, fact);
    AloneAppends(w, token, fact, n + 4, n + 1);
    assert n + 4 + (n + 1) == 2 * n + 5;
  }

  /** The confirming pass ends and the execution works with the inventory. */
  lemma {:induction false} AloneTakes(w: World, x: Frame, f: Frame, token: Id, fact: string)
    requires w.stack == [x, f] && x.Execution? && f.Preparation? && f.own && Steady(w, f.thread)
    requires f.stage == Confirming(w.txn.value.phase, Found(w.live, |w.txn.value.facts|), [])
    requires w.txn.value.retention == w.live.retention
    ensures Alone(w, token, fact, |w.txn.value.facts| + 1)
         == w.(txn := Some(w.txn.value.(phase := Prepared)), stack := [Doing(x, Working(f.inventory))],
              passes := w.passes + [Observation(f.stage.want, w.live.retention.value)])
  {
    AloneConfirms(w, f, token, fact);
    TakesInventory(w, x, f);
  }

  lemma {:induction false} TakesInventory(w: World, x: Frame, f: Frame)
    requires w.txn.Some? && w.live.retention.Some? && w.stack == [x, f] && x.Execution?
    requires f.Preparation? && f.own && f.stage.Confirming?
    ensures Confirmed(w, f) == w.(txn := Some(w.txn.value.(phase := Prepared)), stack := [Doing(x, Working(f.inventory))],
              passes := w.passes + [Observation(f.stage.want, w.live.retention.value)])
  {
    assert Pop(w).stack == [x];
  }

  /** From a prepared inventory to the commit. */
  lemma {:induction false} AloneSeals(w: World, x: Frame, token: Id, fact: string)
    requires Starts(w, x) && x.job == Working(token) && w.txn.value.phase == Prepared && w.txn.value.prepared == Some(token)
    requires w.txn.value.support == Found(w.live, |w.txn.value.facts|) && w.txn.value.retention == w.live.retention
    requires StillCommitted(w.txn.value, w.live, token)
    ensures var u := Alone(w, token, fact, |w.txn.value.facts| + 3);
      u.history == w.history + [fact] && u.txn.Some? && u.txn.value.phase == Phase.Sealed && u.selected == w.selected
  {
    var n := |w.txn.value.facts|;
    var w2 := Alone(w, token, fact, 2);
    AloneBeginsSeal(w, x, token, fact);
    AloneConfirms(w2, Top(w2), token, fact);
    AloneAppends(w, token, fact, 2, n + 1);
  }

  lemma {:induction false} AloneBeginsSeal(w: World, x: Frame, token: Id, fact: string)
    requires Starts(w, x) && x.job == Working(token) && w.txn.value.phase == Prepared && w.txn.value.prepared == Some(token)
    requires StillCommitted(w.txn.value, w.live, token)
    ensures Alone(w, token, fact, 2)
         == w.(txn := Some(w.txn.value.(phase := Phase.Sealing)),
              stack := [Doing(x, AwaitsSeal(fact)), Seal(x.thread, token, true, Confirming(Phase.Sealing, w.txn.value.support, []))])
  {
    var w1 := Step(w, Advance(token, fact));
    assert w1 == w.(txn := Some(w.txn.value.(phase := Phase.Sealing)),
      stack := [Doing(x, AwaitsSeal(fact)), Seal(x.thread, token, true, Rechecking)]);
    AloneTwice(w, token, fact);
  }

  lemma {:induction false} EntersSteadily(w: World, e: Entry, roots: map<string, Id>)
    requires Fresh(w) && w.ownership.thread == e.thread && w.ownership.locks == L.STRATEGY_LOCKS && AllLocked(w.live.locked)
    requires e.rootsHeld && Captures(w.live.heap, e) && Holds(roots, w.live.fields) && Supported(w.live, |e.facts|)
    ensures var v := Step(w, Execute(e, roots));
      && Starts(v, Execution(e.thread, roots, Entered)) && v.history == w.history && v.live == w.live
      && v.txn.value.phase == Active && v.txn.value.prepared.None? && v.txn.value.facts == e.facts
  {
    CapturePins(w.live.heap, e.roots);
    ComparisonIsExact(w.live.heap, e.roots, e.nodes, e.prices, e.visited, w.live.heap);
  }

  /** `n` stretches of the program alone end sealed, with this history. */
  ghost predicate CommitsWithin(w: World, token: Id, fact: string, n: nat, history: seq<string>) {
    var u := Alone(w, token, fact, n);
    u.history == history && u.txn.Some? && u.txn.value.phase == Phase.Sealed
  }

  /** An execution whose callbacks leave everything as it is commits its fact: after
      entry, `3 * n + 8` stretches of code for `n` committed interpretations. */
  lemma {:induction false} UndisturbedExecutionCommits(w: World, e: Entry, roots: map<string, Id>, token: Id, fact: string)
    requires Fresh(w) && w.ownership.thread == e.thread && w.ownership.locks == L.STRATEGY_LOCKS && AllLocked(w.live.locked)
    requires e.rootsHeld && Captures(w.live.heap, e) && Holds(roots, w.live.fields)
    requires Supported(w.live, |e.facts|) && token !in w.live.inventories
    ensures CommitsWithin(Step(w, Execute(e, roots)), token, fact, 3 * |e.facts| + 8, w.history + [fact])
  {
    var n, v := |e.facts|, Step(w, Execute(e, roots));
    var x := Execution(e.thread, roots, Entered);
    EntersSteadily(w, e, roots);
    AlonePrepares(v, x, token, fact);
    var p := Alone(v, token, fact, 2 * n + 5);
    AloneSeals(p, Top(p), token, fact);
    AloneAppends(v, token, fact, 2 * n + 5, n + 3);
    assert 2 * n + 5 + (n + 3) == 3 * n + 8;
  }
}
