/** Every run of one Strategy execution and its Interpretation transaction, in which the
    callbacks between two stretches of code may call back into the transaction, enter or
    leave its context, and change whatever they reach, nested to any finite depth. */
module TransactionNest {
  import opened Basics
  import opened ObjectGraph
  import opened NativeSupport
  import opened InterpretationTransaction
  import L = LockOrder

  /** Where a preparation or a seal waits for a callback to return. `confirmed` is the
      phase that the confirming pass saw when it began. */
  datatype Stage =
    | Retaining
    | Reading(seen: seq<Lineage>)
    | Rechecking
    | Confirming(confirmed: Phase, want: seq<Lineage>, seen: seq<Lineage>)

  datatype Job = Entered | AwaitsInventory | Working(inventory: Id) | AwaitsSeal(fact: string) | Finished

  /** One call under way. `own`: called by the Strategy execution, not by a callback. */
  datatype Frame =
    | Preparation(thread: int, inventory: Id, own: bool, stage: Stage)
    | Seal(thread: int, inventory: Id, own: bool, stage: Stage)
    | Selection(thread: int, inventory: Id, selector: string)
    | Execution(thread: int, roots: map<string, Id>, job: Job)

  /** What a selection returned: an item of this inventory, as it encoded then. */
  datatype Selected = Selected(inventory: Id, item: Fact)

  /** `passes`, `selected` and `activations` record what happened, for the specification;
      `history` is the committed Strategy history. */
  datatype World = World(
    live: Live, ownership: Witness, txn: Option<Txn>, stack: seq<Frame>,
    passes: seq<Observation>, selected: seq<Selected>, activations: nat, history: seq<string>)

  /** What entering the context reads: the commitment, and the native capture it makes. */
  datatype Entry = Entry(thread: int, facts: seq<Fact>, roots: seq<Id>, nodes: seq<Captured>, prices: seq<Captured>,
    visited: set<Id>, rootsHeld: bool)

  datatype Event =
    | Execute(entry: Entry, roots: map<string, Id>)
    | Advance(token: Id, fact: string)
    | Raise
    | Change(live: Live)
    | CallPrepare(thread: int, token: Id)
    | CallSeal(thread: int, inventory: Id)
    | CallSelect(thread: int, inventory: Id, selector: string)
    | CallEnter(entry: Entry)
    | CallExit

  function Top(w: World): Frame
    requires w.stack != []
  {
    w.stack[|w.stack| - 1]
  }

  function Push(w: World, f: Frame): World {
    w.(stack := w.stack + [f])
  }

  function Pop(w: World): World
    requires w.stack != []
  {
    w.(stack := w.stack[..|w.stack| - 1])
  }

  function Replace(w: World, f: Frame): World
    requires w.stack != []
  {
    w.(stack := w.stack[..|w.stack| - 1] + [f])
  }

  function At(f: Frame, stage: Stage): Frame
    requires f.Preparation? || f.Seal?
  {
    if f.Preparation? then Preparation(f.thread, f.inventory, f.own, stage) else Seal(f.thread, f.inventory, f.own, stage)
  }

  function Doing(f: Frame, job: Job): Frame
    requires f.Execution?
  {
    Execution(f.thread, f.roots, job)
  }

  function WithTxn(w: World, t: Txn): World {
    w.(txn := Some(t))
  }

  /** The native capture succeeded: it recorded all that its roots reach. */
  ghost predicate Captures(h: Heap, e: Entry) {
    Closed(h) && (forall r :: r in e.roots ==> r in h) && IsCapture(h, e.roots, e.nodes, e.prices, e.visited)
  }

  /** Entering: a used witness is spent, and so is one whose entry fails. */
  ghost function Enter(w: World, e: Entry): World {
    if w.ownership.closed || w.ownership.activated || w.ownership.thread != e.thread then
      w.(ownership := w.ownership.(closed := true))
    else if w.ownership.locks != L.STRATEGY_LOCKS || !AllLocked(w.live.locked) then
      w.(ownership := w.ownership.(closed := true))
    else if !e.rootsHeld || !Captures(w.live.heap, e) then
      w.(ownership := w.ownership.(closed := true), activations := w.activations + 1)
    else
      w.(ownership := w.ownership.(activated := true), activations := w.activations + 1,
         txn := Some(Txn(Active, true, e.facts, w.live.fields, e.nodes, e.prices, e.roots, e.visited, w.live.heap, None, [], None)))
  }

  /** Leaving the context: the transaction is cleared and the witness is spent. */
  function Exit(w: World): World {
    if w.txn.None? || !w.ownership.activated then w
    else w.(txn := Some(Leave(w.txn.value)), ownership := w.ownership.(closed := true, activated := false))
  }

  function ShutTxn(w: World): World {
    if w.txn.None? then w else WithTxn(w, Close(w.txn.value))
  }

  /** The call on top raises. A preparation or a seal closes the transaction; what the
      Strategy execution called raises through it, and so does the execution itself. */
  function Fail(w: World): World
    requires w.stack != []
  {
    match Top(w)
    case Preparation(_, _, own, _) => Propagate(own, ShutTxn(Pop(w)))
    case Seal(_, _, own, _) => Propagate(own, ShutTxn(Pop(w)))
    case Selection(_, _, _) => Pop(w)
    case Execution(_, _, _) => Exit(Pop(w))
  }

  function Propagate(own: bool, w: World): World {
    if own && w.stack != [] && Top(w).Execution? then Exit(Pop(w)) else w
  }

  ghost function StartPreparation(w: World, thread: int, token: Id, own: bool): World {
    if w.txn.None? then w
    else if !CanPrepare(w.txn.value, w.ownership, w.live, thread) then Propagate(own, ShutTxn(w))
    else Push(WithTxn(w, w.txn.value.(phase := Preparing)), Preparation(thread, token, own, Retaining))
  }

  ghost function StartSeal(w: World, thread: int, inventory: Id, own: bool): World {
    if w.txn.None? then w
    else if !CanSeal(w.txn.value, w.ownership, w.live, thread, inventory) then Propagate(own, ShutTxn(w))
    else Push(WithTxn(w, w.txn.value.(phase := Phase.Sealing)), Seal(thread, inventory, own, Rechecking))
  }

  /** The first pass is complete: its findings become the expectation, and the detached
      inventory is built as a new object. */
  function KeepFirstPass(w: World, f: Frame): World
    requires w.stack != [] && f.Preparation? && f.stage.Reading? && w.txn.Some? && w.txn.value.retention.Some?
  {
    var t := w.txn.value.(support := f.stage.seen);
    Replace(WithTxn(w, t), At(f, Rechecking)).(
      live := w.live.(inventories := w.live.inventories[f.inventory := Rebuilt(t)]),
      passes := w.passes + [Observation(t.support, t.retention.value)])
  }

  ghost function AdvancePreparation(w: World, f: Frame): World
    requires w.stack != [] && f.Preparation? && w.txn.Some?
  {
    var t := w.txn.value;
    match f.stage
    case Retaining =>
      if w.live.retention.None? then Fail(w)
      else Replace(WithTxn(w, t.(retention := w.live.retention)), At(f, Reading([])))
    case Reading(seen) =>
      if |seen| < |t.facts| then
        if |seen| !in w.live.support then Fail(w)
        else Replace(w, At(f, Reading(seen + [w.live.support[|seen|]])))
      else if t.retention.None? || f.inventory in w.live.inventories then Fail(w)
      else KeepFirstPass(w, f)
    case Rechecking =>
      var kept := t.(prepared := Some(f.inventory));
      if !StillCommitted(t, w.live, f.inventory) then Fail(w)
      else if !CanConfirm(kept, w.ownership, w.live, f.thread) then Fail(WithTxn(w, kept))
      else Replace(WithTxn(w, kept), At(f, Confirming(t.phase, t.support, [])))
    case Confirming(_, _, _) => AdvanceConfirmation(w, f, Prepared)
  }

  /** Both passes after the first end alike. */
  ghost function AdvanceConfirmation(w: World, f: Frame, next: Phase): World
    requires w.stack != [] && (f.Preparation? || f.Seal?) && f.stage.Confirming? && w.txn.Some?
  {
    var t, k := w.txn.value, |f.stage.seen|;
    if k < |f.stage.want| then
      if !Repeats(w.live, k, f.stage.want[k]) then Fail(w)
      else Replace(w, At(f, Confirming(f.stage.confirmed, f.stage.want, f.stage.seen + [w.live.support[k]])))
    else if !CanFinish(t, w.ownership, w.live, f.thread, f.stage.confirmed) then Fail(w)
    else
      Return(f, Pop(WithTxn(w, t.(phase := next))).(
        passes := w.passes + [Observation(f.stage.seen, w.live.retention.value)]))
  }

  ghost function AdvanceSeal(w: World, f: Frame): World
    requires w.stack != [] && f.Seal? && w.txn.Some?
  {
    var t := w.txn.value;
    match f.stage
    case Rechecking =>
      if !StillCommitted(t, w.live, f.inventory) || !CanConfirm(t, w.ownership, w.live, f.thread) then Fail(w)
      else Replace(w, At(f, Confirming(t.phase, t.support, [])))
    case Confirming(_, _, _) => AdvanceConfirmation(w, f, Phase.Sealed)
    case _ => Fail(w)
  }

  /** What the Strategy execution does with a result, before any callback: it keeps the
      inventory, or after its own seal rechecks its roots and commits. */
  function Return(f: Frame, w: World): World
    requires f.Preparation? || f.Seal?
  {
    if !f.own || w.stack == [] || !Top(w).Execution? then w
    else if f.Preparation? then Replace(w, Doing(Top(w), Working(f.inventory)))
    else if !Top(w).job.AwaitsSeal? || !Holds(Top(w).roots, w.live.fields) then Exit(Pop(w))
    else Replace(w, Doing(Top(w), Finished)).(history := w.history + [Top(w).job.fact])
  }

  /** The first item of the requested selector. */
  function Position(selectors: seq<string>, selector: string): (k: nat)
    ensures k <= |selectors|
    ensures k < |selectors| ==> selectors[k] == selector
    ensures forall j :: 0 <= j < k ==> selectors[j] != selector
  {
    if selectors == [] || selectors[0] == selector then 0 else 1 + Position(selectors[1..], selector)
  }

  /** The check of the inventory against its own facts, and the one match. */
  ghost function AdvanceSelection(w: World, f: Frame): World
    requires w.stack != [] && f.Selection? && w.txn.Some?
  {
    var t := w.txn.value;
    if f.inventory !in w.live.inventories then Fail(w)
    else
      var d := w.live.inventories[f.inventory];
      var k := Position(d.selectors, f.selector);
      if !Corresponds(d, d.facts) || !Lifetime(t, w.ownership, w.live, f.thread, Prepared) || !Selects(d, f.selector, k)
      then Fail(w)
      else Pop(w).(selected := w.selected + [Selected(f.inventory, d.items[k])])
  }

  ghost function AdvanceExecution(w: World, f: Frame, token: Id, fact: string): World
    requires w.stack != [] && f.Execution?
  {
    match f.job
    case Entered => StartPreparation(Replace(w, Doing(f, AwaitsInventory)), f.thread, token, true)
    case Working(inventory) => StartSeal(Replace(w, Doing(f, AwaitsSeal(fact))), f.thread, inventory, true)
    case _ => Exit(Pop(w))
  }

  /** What the native capture pinned stays alive. */
  ghost predicate Possible(w: World, live: Live) {
    w.txn.Some? ==> Later(w.txn.value.base, w.txn.value.roots, live.heap)
  }

  ghost function Step(w: World, e: Event): World {
    match e
    case Execute(entry, roots) =>
      if w.stack != [] then w
      else
        var in' := Enter(w, entry);
        if w.txn.None? && in'.txn.Some? then Push(in', Execution(entry.thread, roots, Entered)) else in'
    case Advance(token, fact) =>
      if w.stack == [] || w.txn.None? then w
      else (match Top(w)
            case Preparation(_, _, _, _) => AdvancePreparation(w, Top(w))
            case Seal(_, _, _, _) => AdvanceSeal(w, Top(w))
            case Selection(_, _, _) => AdvanceSelection(w, Top(w))
            case Execution(_, _, _) => AdvanceExecution(w, Top(w), token, fact))
    case Raise => if w.stack == [] then w else Fail(w)
    case Change(live) => if Possible(w, live) then w.(live := live) else w
    case CallPrepare(thread, token) => StartPreparation(w, thread, token, false)
    case CallSeal(thread, inventory) => StartSeal(w, thread, inventory, false)
    case CallSelect(thread, inventory, selector) =>
      if w.txn.None? || !CanSelect(w.txn.value, w.ownership, w.live, thread, inventory) then w
      else Push(w, Selection(thread, inventory, selector))
    case CallEnter(entry) => Enter(w, entry)
    case CallExit => Exit(w)
  }

  ghost function Run(w: World, events: seq<Event>): World
    decreases |events|
  {
    if events == [] then w else Run(Step(w, events[0]), events[1..])
  }

  // ---- What every reachable moment satisfies ----

  function Expected(t: Txn): Observation
    requires t.retention.Some?
  {
    Observation(t.support, t.retention.value)
  }

  predicate Agreed(t: Txn, passes: seq<Observation>, n: nat) {
    t.prepared.Some? && t.retention.Some? && |passes| == n && forall i :: 0 <= i < n ==> passes[i] == Expected(t)
  }

  predicate PhaseFits(t: Txn, passes: seq<Observation>) {
    && (t.active <==> t.phase != Shut)
    && match t.phase
       case Active => passes == [] && t.prepared.None?
       case Prepared => Agreed(t, passes, 2)
       case Sealing => Agreed(t, passes, 2)
       case Sealed => Agreed(t, passes, 3)
       case _ => true
  }

  predicate PreparationFits(stage: Stage, inventory: Id, t: Txn, passes: seq<Observation>) {
    match stage
    case Retaining => passes == [] && t.prepared.None?
    case Reading(_) => passes == [] && t.prepared.None? && t.retention.Some?
    case Rechecking => t.prepared.None? && t.retention.Some? && passes == [Expected(t)]
    case Confirming(confirmed, want, seen) =>
      && t.prepared == Some(inventory) && t.retention.Some? && passes == [Expected(t)]
      && confirmed == Preparing && want == t.support && seen <= want
  }

  predicate SealFits(stage: Stage, inventory: Id, t: Txn) {
    && t.prepared == Some(inventory)
    && match stage
       case Rechecking => true
       case Confirming(confirmed, want, seen) =>
         confirmed == Phase.Sealing && want == t.support && seen <= want
       case _ => false
  }

  predicate FrameFits(f: Frame, t: Txn, passes: seq<Observation>) {
    t.phase == Shut ||
    match f
    case Preparation(_, inventory, _, stage) => t.phase == Preparing && PreparationFits(stage, inventory, t, passes)
    case Seal(_, inventory, _, stage) => t.phase == Phase.Sealing && SealFits(stage, inventory, t)
    case Selection(_, inventory, _) => t.phase in {Prepared, Phase.Sealing, Phase.Sealed} && t.prepared == Some(inventory)
    case Execution(_, _, _) => true
  }

  predicate Rivals(f: Frame, g: Frame) {
    (f.Preparation? && g.Preparation?) || (f.Seal? && g.Seal?)
  }

  /** Every call under way fits the phase, and no two prepare or seal at once. */
  predicate StackFits(stack: seq<Frame>, t: Txn, passes: seq<Observation>) {
    && (forall i :: 0 <= i < |stack| ==> FrameFits(stack[i], t, passes))
    && (forall i, j :: 0 <= i < j < |stack| ==> !Rivals(stack[i], stack[j]))
  }

  predicate SelectionsFit(t: Txn, selected: seq<Selected>) {
    && (forall i, j :: 0 <= i < j < |selected| ==> selected[i].inventory == selected[j].inventory)
    && (t.phase in {Active, Preparing} ==> selected == [])
    && (t.phase !in {Active, Preparing, Shut} ==> forall i :: 0 <= i < |selected| ==> t.prepared == Some(selected[i].inventory))
  }

  ghost predicate Pinned(t: Txn, live: Live) {
    && Closed(t.base) && (forall r :: r in t.roots ==> r in t.base)
    && IsCapture(t.base, t.roots, t.nodes, t.prices, t.visited)
    && Later(t.base, t.roots, live.heap)
  }

  ghost predicate Fits(w: World) {
    && w.activations <= 1
    && (w.ownership.activated ==> w.txn.Some?)
    && (w.activations == 1 ==> w.ownership.activated || w.ownership.closed)
    && match w.txn
       case None => w.stack == [] && w.selected == [] && w.passes == []
       case Some(t) =>
         && w.activations == 1
         && PhaseFits(t, w.passes) && StackFits(w.stack, t, w.passes)
         && SelectionsFit(t, w.selected) && Pinned(t, w.live)
  }

  predicate Fresh(w: World) {
    w.txn.None? && w.stack == [] && w.selected == [] && w.passes == [] && w.activations == 0
    && !w.ownership.closed && !w.ownership.activated
  }

  lemma {:induction false} CapturePins(h: Heap, roots: seq<Id>)
    requires Closed(h) && forall r :: r in roots ==> r in h
    ensures Later(h, roots, h)
  {
    forall x | ReachableFrom(h, true, roots, x) ensures x in h {
      var r :| r in roots && Reachable(h, true, r, x);
      ReachedIsPresent(h, r, x);
    }
  }

  lemma {:induction false} EnterFits(w: World, e: Entry)
    requires Fits(w)
    ensures Fits(Enter(w, e))
  {
    if Captures(w.live.heap, e) { CapturePins(w.live.heap, e.roots); }
  }

  lemma {:induction false} ExitFits(w: World)
    requires Fits(w)
    ensures Fits(Exit(w))
  {
  }

  lemma {:induction false} PopFits(w: World)
    requires Fits(w) && w.stack != []
    ensures Fits(Pop(w))
  {
  }

  lemma {:induction false} ShutFits(w: World)
    requires Fits(w)
    ensures Fits(ShutTxn(w))
  {
  }

  lemma {:induction false} PropagateFits(own: bool, w: World)
    requires Fits(w)
    ensures Fits(Propagate(own, w))
  {
    if own && w.stack != [] && Top(w).Execution? {
      PopFits(w);
      ExitFits(Pop(w));
    }
  }

  lemma {:induction false} FailFits(w: World)
    requires Fits(w) && w.stack != []
    ensures Fits(Fail(w))
  {
    PopFits(w);
    ShutFits(Pop(w));
    ExitFits(Pop(w));
    PropagateFits(true, ShutTxn(Pop(w)));
    PropagateFits(false, ShutTxn(Pop(w)));
  }

  lemma {:induction false} StartPreparationFits(w: World, thread: int, token: Id, own: bool)
    requires Fits(w)
    ensures Fits(StartPreparation(w, thread, token, own))
  {
    ShutFits(w);
    PropagateFits(own, ShutTxn(w));
  }

  lemma {:induction false} StartSealFits(w: World, thread: int, inventory: Id, own: bool)
    requires Fits(w)
    ensures Fits(StartSeal(w, thread, inventory, own))
  {
    ShutFits(w);
    PropagateFits(own, ShutTxn(w));
  }

  lemma {:induction false} ReturnFits(f: Frame, w: World)
    requires Fits(w) && (f.Preparation? || f.Seal?)
    ensures Fits(Return(f, w))
  {
    if w.stack != [] && Top(w).Execution? {
      PopFits(w);
      ExitFits(Pop(w));
    }
  }

  /** The call on top is done: the others fit the next phase. */
  lemma {:induction false} FinishedFits(w: World, f: Frame, next: Phase)
    requires Fits(w) && w.stack != [] && f == Top(w) && (f.Preparation? || f.Seal?) && f.stage.Confirming? && w.txn.Some?
    requires next == if f.Preparation? then Prepared else Phase.Sealed
    requires f.stage.seen == f.stage.want && CanFinish(w.txn.value, w.ownership, w.live, f.thread, f.stage.confirmed)
    ensures Fits(Pop(WithTxn(w, w.txn.value.(phase := next))).(
              passes := w.passes + [Observation(f.stage.seen, w.live.retention.value)]))
  {
    var t, last := w.txn.value, |w.stack| - 1;
    assert FrameFits(f, t, w.passes);
    forall i | 0 <= i < last ensures FrameFits(w.stack[i], t, w.passes) && !Rivals(w.stack[i], f) {
      assert w.stack[last] == f;
    }
  }

  lemma {:induction false} ConfirmationFits(w: World, f: Frame, next: Phase)
    requires Fits(w) && w.stack != [] && f == Top(w) && (f.Preparation? || f.Seal?) && f.stage.Confirming? && w.txn.Some?
    requires next == if f.Preparation? then Prepared else Phase.Sealed
    ensures Fits(AdvanceConfirmation(w, f, next))
  {
    FailFits(w);
    if |f.stage.seen| < |f.stage.want| {
      if Repeats(w.live, |f.stage.seen|, f.stage.want[|f.stage.seen|]) { OneMoreFits(w, f); }
    } else if CanFinish(w.txn.value, w.ownership, w.live, f.thread, f.stage.confirmed) {
      assert FrameFits(f, w.txn.value, w.passes);
      FinishedFits(w, f, next);
      ReturnFits(f, Pop(WithTxn(w, w.txn.value.(phase := next))).(
        passes := w.passes + [Observation(f.stage.seen, w.live.retention.value)]));
    }
  }

  lemma {:induction false} OneMoreFits(w: World, f: Frame)
    requires Fits(w) && w.stack != [] && f == Top(w) && (f.Preparation? || f.Seal?) && f.stage.Confirming? && w.txn.Some?
    requires |f.stage.seen| < |f.stage.want| && Repeats(w.live, |f.stage.seen|, f.stage.want[|f.stage.seen|])
    ensures Fits(Replace(w, At(f, Confirming(f.stage.confirmed, f.stage.want, f.stage.seen + [w.live.support[|f.stage.seen|]]))))
  {
    var t, last := w.txn.value, |w.stack| - 1;
    var g := At(f, Confirming(f.stage.confirmed, f.stage.want, f.stage.seen + [w.live.support[|f.stage.seen|]]));
    assert FrameFits(f, t, w.passes) && w.stack[last] == f;
    assert FrameFits(g, t, w.passes);
    forall i | 0 <= i < last ensures !Rivals(w.stack[i], g) {
      assert !Rivals(w.stack[i], w.stack[last]);
    }
  }

  /** Replacing the one preparation under way, while preparing, leaves the others as they are. */
  lemma {:induction false} PreparationMoves(w: World, f: Frame, t: Txn, passes: seq<Observation>, live: Live)
    requires Fits(w) && w.stack != [] && Top(w).Preparation? && w.txn.Some? && w.txn.value.phase == Preparing
    requires f.Preparation? && FrameFits(f, t, passes)
    requires t == w.txn.value.(prepared := t.prepared, support := t.support, retention := t.retention)
    requires live.heap == w.live.heap
    ensures Fits(Replace(w, f).(txn := Some(t), passes := passes, live := live))
  {
    var last := |w.stack| - 1;
    assert FrameFits(w.stack[last], w.txn.value, w.passes);
    forall i | 0 <= i < last ensures FrameFits(w.stack[i], t, passes) && !Rivals(w.stack[i], f) {
      assert FrameFits(w.stack[i], w.txn.value, w.passes) && !Rivals(w.stack[i], w.stack[last]);
    }
  }

  /** Once the transaction is shut, a call under way may do as it likes. */
  lemma {:induction false} ShutPreparationMoves(w: World, f: Frame, t: Txn, passes: seq<Observation>, live: Live)
    requires Fits(w) && w.stack != [] && Top(w).Preparation? && w.txn.Some? && w.txn.value.phase == Shut
    requires f.Preparation? && live.heap == w.live.heap
    requires t == w.txn.value.(prepared := t.prepared, support := t.support, retention := t.retention)
    ensures Fits(Replace(w, f).(txn := Some(t), passes := passes, live := live))
  {
    var last := |w.stack| - 1;
    forall i | 0 <= i < last ensures !Rivals(w.stack[i], f) {
      assert !Rivals(w.stack[i], w.stack[last]);
    }
  }

  lemma {:induction false} AnyPreparationMoves(w: World, f: Frame, t: Txn, passes: seq<Observation>, live: Live)
    requires Fits(w) && w.stack != [] && Top(w).Preparation? && w.txn.Some?
    requires f.Preparation? && (w.txn.value.phase == Preparing ==> FrameFits(f, t, passes))
    requires t == w.txn.value.(prepared := t.prepared, support := t.support, retention := t.retention)
    requires live.heap == w.live.heap
    ensures Fits(Replace(w, f).(txn := Some(t), passes := passes, live := live))
  {
    assert FrameFits(Top(w), w.txn.value, w.passes);
    if w.txn.value.phase == Preparing {
      PreparationMoves(w, f, t, passes, live);
    } else {
      ShutPreparationMoves(w, f, t, passes, live);
    }
  }

  lemma {:induction false} PreparationAdvanceFits(w: World, f: Frame)
    requires Fits(w) && w.stack != [] && f == Top(w) && f.Preparation? && w.txn.Some?
    ensures Fits(AdvancePreparation(w, f))
  {
    FailFits(w);
    var t := w.txn.value;
    assert FrameFits(f, t, w.passes);
    match f.stage
    case Retaining =>
      if w.live.retention.Some? {
        AnyPreparationMoves(w, At(f, Reading([])), t.(retention := w.live.retention), w.passes, w.live);
      }
    case Reading(seen) => ReadingFits(w, f);
    case Rechecking => RecheckingFits(w, f);
    case Confirming(_, _, _) => ConfirmationFits(w, f, Prepared);
  }

  lemma {:induction false} ReadingFits(w: World, f: Frame)
    requires Fits(w) && w.stack != [] && f == Top(w) && f.Preparation? && f.stage.Reading? && w.txn.Some?
    ensures Fits(AdvancePreparation(w, f))
  {
    FailFits(w);
    var t, seen := w.txn.value, f.stage.seen;
    assert FrameFits(f, t, w.passes);
    if |seen| < |t.facts| {
      if |seen| in w.live.support {
        AnyPreparationMoves(w, At(f, Reading(seen + [w.live.support[|seen|]])), t, w.passes, w.live);
      }
    } else if t.retention.Some? {
      var kept := t.(support := seen);
      AnyPreparationMoves(w, At(f, Rechecking), kept, w.passes + [Expected(kept)],
        w.live.(inventories := w.live.inventories[f.inventory := Rebuilt(kept)]));
    }
  }

  lemma {:induction false} RecheckingFits(w: World, f: Frame)
    requires Fits(w) && w.stack != [] && f == Top(w) && f.Preparation? && f.stage.Rechecking? && w.txn.Some?
    ensures Fits(AdvancePreparation(w, f))
  {
    FailFits(w);
    FailedBindingFits(w, f);
    var t := w.txn.value;
    var kept := t.(prepared := Some(f.inventory));
    assert FrameFits(f, t, w.passes);
    if CanConfirm(kept, w.ownership, w.live, f.thread) {
      AnyPreparationMoves(w, At(f, Confirming(t.phase, t.support, [])), kept, w.passes, w.live);
    }
  }

  /** The inventory was stored, but the confirming pass did not begin. */
  lemma {:induction false} FailedBindingFits(w: World, f: Frame)
    requires Fits(w) && w.stack != [] && f == Top(w) && f.Preparation? && f.stage.Rechecking? && w.txn.Some?
    ensures Fits(Fail(WithTxn(w, w.txn.value.(prepared := Some(f.inventory)))))
  {
    var shut := ShutTxn(Pop(WithTxn(w, w.txn.value.(prepared := Some(f.inventory)))));
    assert FrameFits(f, w.txn.value, w.passes);
    assert Fits(shut);
    PropagateFits(f.own, shut);
  }

  lemma {:induction false} SealAdvanceFits(w: World, f: Frame)
    requires Fits(w) && w.stack != [] && f == Top(w) && f.Seal? && w.txn.Some?
    ensures Fits(AdvanceSeal(w, f))
  {
    FailFits(w);
    assert FrameFits(f, w.txn.value, w.passes);
    if f.stage.Confirming? { ConfirmationFits(w, f, Phase.Sealed); }
  }

  lemma {:induction false} SelectionAdvanceFits(w: World, f: Frame)
    requires Fits(w) && w.stack != [] && f == Top(w) && f.Selection? && w.txn.Some?
    ensures Fits(AdvanceSelection(w, f))
  {
    FailFits(w);
    PopFits(w);
    assert FrameFits(f, w.txn.value, w.passes);
  }

  lemma {:induction false} ExecutionAdvanceFits(w: World, f: Frame, token: Id, fact: string)
    requires Fits(w) && w.stack != [] && f == Top(w) && f.Execution? && w.txn.Some?
    ensures Fits(AdvanceExecution(w, f, token, fact))
  {
    PopFits(w);
    ExitFits(Pop(w));
    StartPreparationFits(Replace(w, Doing(f, AwaitsInventory)), f.thread, token, true);
    if f.job.Working? {
      StartSealFits(Replace(w, Doing(f, AwaitsSeal(fact))), f.thread, f.job.inventory, true);
    }
  }

  lemma {:induction false} AdvanceFits(w: World, token: Id, fact: string)
    requires Fits(w)
    ensures Fits(Step(w, Advance(token, fact)))
  {
    if w.stack != [] && w.txn.Some? {
      match Top(w)
      case Preparation(_, _, _, _) => PreparationAdvanceFits(w, Top(w));
      case Seal(_, _, _, _) => SealAdvanceFits(w, Top(w));
      case Selection(_, _, _) => SelectionAdvanceFits(w, Top(w));
      case Execution(_, _, _) => ExecutionAdvanceFits(w, Top(w), token, fact);
    }
  }

  lemma {:induction false} StepFits(w: World, e: Event)
    requires Fits(w)
    ensures Fits(Step(w, e))
  {
    match e
    case Execute(entry, _) => EnterFits(w, entry);
    case Advance(token, fact) => AdvanceFits(w, token, fact);
    case Raise => if w.stack != [] { FailFits(w); }
    case Change(live) =>
    case CallPrepare(thread, token) => StartPreparationFits(w, thread, token, false);
    case CallSeal(thread, inventory) => StartSealFits(w, thread, inventory, false);
    case CallSelect(_, _, _) =>
    case CallEnter(entry) => EnterFits(w, entry);
    case CallExit => ExitFits(w);
  }

  lemma {:induction false} RunFits(w: World, events: seq<Event>)
    requires Fits(w)
    ensures Fits(Run(w, events))
    decreases |events|
  {
    if events != [] {
      StepFits(w, events[0]);
      RunFits(Step(w, events[0]), events[1..]);
    }
  }
}
