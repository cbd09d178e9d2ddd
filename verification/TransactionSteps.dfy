/** Each stretch of code of the Interpretation transaction and of the Strategy execution
    around it, exactly: when it succeeds, what it leaves, and what a failure leaves. */
module TransactionSteps {
  import opened Basics
  import opened ObjectGraph
  import opened NativeSupport
  import opened InterpretationTransaction
  import opened TransactionNest
  import opened TransactionSelection
  import L = LockOrder

  /** The transaction is open in this phase, activated by the unspent witness of this thread,
      which owns its eleven locks. */
  predicate Open(w: World, thread: int, phase: Phase) {
    && w.txn.Some? && w.txn.value.active && w.txn.value.phase == phase
    && !w.ownership.closed && w.ownership.activated && w.ownership.thread == thread
    && w.ownership.locks == L.STRATEGY_LOCKS && (forall l :: l in L.STRATEGY_LOCKS ==> l in w.live.locked)
  }

  /** Every authority field still holds the object that it held at entry. */
  predicate AuthorityHeld(w: World)
    requires w.txn.Some?
  {
    forall name :: name in w.txn.value.anchors ==> name in w.live.fields && w.live.fields[name] == w.txn.value.anchors[name]
  }

  function Below(stack: seq<Frame>): seq<Frame>
    requires stack != []
  {
    stack[..|stack| - 1]
  }

  /** The transaction closed: nothing of it can be used any more. */
  function Shut(w: World, stack: seq<Frame>): World
    requires w.txn.Some?
  {
    w.(stack := stack, txn := Some(w.txn.value.(phase := Phase.Shut, active := false)))
  }

  /** The context left as well: what was prepared is cleared and the witness spent. */
  function Left(w: World, stack: seq<Frame>): World
    requires w.txn.Some?
  {
    if w.ownership.activated then
      w.(stack := stack,
         txn := Some(w.txn.value.(phase := Phase.Shut, active := false, prepared := None, support := [], retention := None)),
         ownership := w.ownership.(closed := true, activated := false))
    else Shut(w, stack)
  }

  /** A call of the execution's own raises through it; any other one only closes. */
  function Raised(w: World, own: bool, stack: seq<Frame>): World
    requires w.txn.Some?
  {
    if own && stack != [] && stack[|stack| - 1].Execution? then Left(w, Below(stack)) else Shut(w, stack)
  }

  lemma {:induction false} FailsExactly(w: World)
    requires w.txn.Some? && w.stack != [] && (Top(w).Preparation? || Top(w).Seal?)
    ensures Step(w, Raise) == Raised(w, Top(w).own, Below(w.stack)) == Fail(w)
  {
  }

  /** A selection that raises leaves the transaction as it is. */
  lemma {:induction false} SelectionFails(w: World)
    requires w.txn.Some? && w.stack != [] && Top(w).Selection?
    ensures Step(w, Raise) == w.(stack := Below(w.stack))
  {
  }

  lemma {:induction false} OpenExactly(w: World, thread: int, phase: Phase)
    requires w.txn.Some?
    ensures Lifetime(w.txn.value, w.ownership, w.live, thread, phase) <==> Open(w, thread, phase)
  {
  }

  // ---- Calls ----

  lemma {:induction false} PreparationBeginsExactly(w: World, thread: int, token: Id)
    requires w.txn.Some?
    ensures Step(w, CallPrepare(thread, token)) ==
      if Open(w, thread, Active) && w.txn.value.prepared == None && AuthorityHeld(w)
      then w.(txn := Some(w.txn.value.(phase := Preparing)), stack := w.stack + [Preparation(thread, token, false, Retaining)])
      else Shut(w, w.stack)
  {
    OpenExactly(w, thread, Active);
  }

  lemma {:induction false} SealBeginsExactly(w: World, thread: int, inventory: Id)
    requires w.txn.Some?
    ensures Step(w, CallSeal(thread, inventory)) ==
      if Open(w, thread, Prepared) && w.txn.value.prepared == Some(inventory) && AuthorityHeld(w)
      then w.(txn := Some(w.txn.value.(phase := Phase.Sealing)), stack := w.stack + [Seal(thread, inventory, false, Rechecking)])
      else Shut(w, w.stack)
  {
    OpenExactly(w, thread, Prepared);
  }

  lemma {:induction false} SelectionBeginsExactly(w: World, thread: int, inventory: Id, selector: string)
    requires w.txn.Some?
    ensures Step(w, CallSelect(thread, inventory, selector)) ==
      if Open(w, thread, Prepared) && w.txn.value.prepared == Some(inventory)
      then w.(stack := w.stack + [Selection(thread, inventory, selector)]) else w
  {
    OpenExactly(w, thread, Prepared);
  }

  /** The execution prepares when it has been entered, and seals what it works with; a
      refusal of its own call ends it. */
  lemma {:induction false} ExecutionCallsExactly(w: World, x: Frame, token: Id, fact: string)
    requires w.txn.Some? && w.stack != [] && x == Top(w) && x.Execution?
    ensures x.job == Entered ==>
      Step(w, Advance(token, fact)) ==
      if Open(w, x.thread, Active) && w.txn.value.prepared == None && AuthorityHeld(w)
      then w.(txn := Some(w.txn.value.(phase := Preparing)),
              stack := Below(w.stack) + [Execution(x.thread, x.roots, AwaitsInventory), Preparation(x.thread, token, true, Retaining)])
      else Left(w, Below(w.stack))
    ensures x.job.Working? ==>
      Step(w, Advance(token, fact)) ==
      if Open(w, x.thread, Prepared) && w.txn.value.prepared == Some(x.job.inventory) && AuthorityHeld(w)
      then w.(txn := Some(w.txn.value.(phase := Phase.Sealing)),
              stack := Below(w.stack)
                + [Execution(x.thread, x.roots, AwaitsSeal(fact)), Seal(x.thread, x.job.inventory, true, Rechecking)])
      else Left(w, Below(w.stack))
  {
    OpenExactly(w, x.thread, Active);
    OpenExactly(w, x.thread, Prepared);
    var job := if x.job.Entered? then AwaitsInventory else AwaitsSeal(fact);
    var v := Replace(w, Doing(x, job));
    assert Pop(v).stack == Below(w.stack);
  }

  /** Leaving clears the transaction and spends the witness of an activation. */
  lemma {:induction false} ExitsExactly(w: World)
    requires w.txn.Some?
    ensures Step(w, CallExit) == if w.ownership.activated then Left(w, w.stack) else w
  {
  }

  /** The witness may enter: unused, of this thread, with its eleven locks, all held. */
  predicate MayEnter(w: World, thread: int) {
    && w.ownership == Witness(thread, L.STRATEGY_LOCKS, false, false)
    && (forall l :: l in L.STRATEGY_LOCKS ==> l in w.live.locked)
  }

  /** Entering activates exactly such a witness, over a complete capture, with its roots held;
      any other entry spends the witness. One activation is counted whenever it may enter. */
  lemma {:induction false} EntersExactly(w: World, e: Entry)
    ensures var v := Step(w, CallEnter(e));
      var fits := MayEnter(w, e.thread) && e.rootsHeld && Closed(w.live.heap) && (forall r :: r in e.roots ==> r in w.live.heap)
        && IsCapture(w.live.heap, e.roots, e.nodes, e.prices, e.visited);
      && v.stack == w.stack && v.live == w.live && v.history == w.history && v.selected == w.selected && v.passes == w.passes
      && v.txn == (if fits then Some(Txn(Active, true, e.facts, w.live.fields, e.nodes, e.prices, e.roots, e.visited, w.live.heap,
                                         None, [], None))
                   else w.txn)
      && v.ownership == (if fits then w.ownership.(activated := true) else w.ownership.(closed := true))
      && v.activations == w.activations + (if MayEnter(w, e.thread) then 1 else 0)
  {
  }

  /** A callback may change whatever it reaches, but what was captured at entry stays alive. */
  lemma {:induction false} ChangesExactly(w: World, live: Live)
    ensures Step(w, Change(live)) ==
      if w.txn == None || Later(w.txn.value.base, w.txn.value.roots, live.heap) then w.(live := live) else w
  {
  }

  /** Without a transaction there is nothing to prepare, seal, select, leave or go on with. */
  lemma {:induction false} NothingWithoutTransaction(w: World, thread: int, id: Id, selector: string, fact: string)
    requires w.txn == None
    ensures Step(w, CallPrepare(thread, id)) == Step(w, CallSeal(thread, id)) == Step(w, CallSelect(thread, id, selector)) == w
    ensures Step(w, CallExit) == Step(w, Advance(id, fact)) == w
  {
  }

  /** An execution enters once: what activates its witness runs it, and a second one waits
      for the first to end. */
  lemma {:induction false} ExecutesExactly(w: World, e: Entry, roots: map<string, Id>)
    ensures Step(w, Execute(e, roots)) ==
      if w.stack != [] then w
      else
        var v := Step(w, CallEnter(e));
        if w.txn == None && v.txn != None then v.(stack := v.stack + [Execution(e.thread, roots, Entered)]) else v
  {
  }

  lemma {:induction false} FreshExactly(w: World)
    ensures Fresh(w) <==>
      && w.txn == None && |w.stack| == |w.selected| == |w.passes| == w.activations == 0
      && w.ownership == Witness(w.ownership.thread, w.ownership.locks, false, false)
  {
  }

  // ---- The first pass ----

  lemma {:induction false} RetentionReadExactly(w: World, f: Frame, token: Id, fact: string)
    requires w.txn.Some? && w.stack != [] && f == Top(w) && f.Preparation? && f.stage == Retaining
    ensures Step(w, Advance(token, fact)) ==
      match w.live.retention
      case None => Raised(w, f.own, Below(w.stack))
      case Some(found) =>
        w.(txn := Some(w.txn.value.(retention := Some(found))),
           stack := Below(w.stack) + [Preparation(f.thread, f.inventory, f.own, Reading([]))])
  {
    FailsExactly(w);
  }

  lemma {:induction false} EntryReadExactly(w: World, f: Frame, token: Id, fact: string)
    requires w.txn.Some? && w.stack != [] && f == Top(w) && f.Preparation? && f.stage.Reading?
    requires |f.stage.seen| < |w.txn.value.facts|
    ensures Step(w, Advance(token, fact)) ==
      if |f.stage.seen| in w.live.support
      then w.(stack := Below(w.stack)
        + [Preparation(f.thread, f.inventory, f.own, Reading(f.stage.seen + [w.live.support[|f.stage.seen|]]))])
      else Raised(w, f.own, Below(w.stack))
  {
    FailsExactly(w);
  }

  /** The inventory that a complete first pass leaves is built from the committed facts and
      from what the pass found, as a new object. */
  predicate Inventories(w: World, f: Frame, v: World)
    requires f.Preparation? && f.stage.Reading? && w.txn.Some? && w.txn.value.retention.Some?
  {
    && v.live.inventories.Keys == w.live.inventories.Keys + {f.inventory}
    && (forall id :: id in w.live.inventories ==> v.live.inventories[id] == w.live.inventories[id])
    && var d := v.live.inventories[f.inventory];
       AsBuilt(d, w.txn.value.facts)
       && |d.support| == |f.stage.seen| && forall i :: 0 <= i < |f.stage.seen| ==> d.support[i] == f.stage.seen[i].projection
  }

  lemma {:induction false} FirstPassEndsExactly(w: World, f: Frame, token: Id, fact: string)
    requires w.txn.Some? && w.stack != [] && f == Top(w) && f.Preparation? && f.stage.Reading?
    requires |f.stage.seen| == |w.txn.value.facts|
    ensures var v := Step(w, Advance(token, fact));
      if w.txn.value.retention == None || f.inventory in w.live.inventories then v == Raised(w, f.own, Below(w.stack))
      else
        && Inventories(w, f, v)
        && v == w.(txn := Some(w.txn.value.(support := f.stage.seen)), live := w.live.(inventories := v.live.inventories),
                   passes := w.passes + [Observation(f.stage.seen, w.txn.value.retention.value)],
                   stack := Below(w.stack) + [Preparation(f.thread, f.inventory, f.own, Rechecking)])
  {
    FailsExactly(w);
  }

  // ---- The canonical recheck ----

  /** The inventory still is what was built. */
  predicate AsKept(w: World, inventory: Id)
    requires w.txn.Some?
  {
    && inventory in w.live.inventories && AsBuilt(w.live.inventories[inventory], w.txn.value.facts)
    && |w.txn.value.support| == |w.live.inventories[inventory].support|
    && forall i :: 0 <= i < |w.txn.value.support| ==>
         w.live.inventories[inventory].support[i] == w.txn.value.support[i].projection
  }

  lemma {:induction false} KeptExactly(w: World, inventory: Id)
    requires w.txn.Some?
    ensures StillCommitted(w.txn.value, w.live, inventory) <==> AsKept(w, inventory)
  {
    var t := w.txn.value;
    if inventory in w.live.inventories {
      var d := w.live.inventories[inventory];
      if Corresponds(d, t.facts) {
        forall i | 0 <= i < |t.facts|
          ensures d.items[i] == t.facts[i] && d.selectors[i] == t.facts[i].selector && d.technicals[i] == t.facts[i].technical
        {
          assert ItemIntact(d, i);
        }
        assert d.items == t.facts;
      }
      if AsBuilt(d, t.facts) {
        forall i | 0 <= i < |d.items| ensures ItemIntact(d, i) {
        }
      }
    }
  }

  /** Binding the inventory and beginning the confirming pass of a preparation. */
  lemma {:induction false} BindingExactly(w: World, f: Frame, token: Id, fact: string)
    requires w.txn.Some? && w.stack != [] && f == Top(w) && f.Preparation? && f.stage == Rechecking
    ensures var kept := w.(txn := Some(w.txn.value.(prepared := Some(f.inventory))));
      Step(w, Advance(token, fact)) ==
        if !AsKept(w, f.inventory) then Raised(w, f.own, Below(w.stack))
        else if Open(w, f.thread, Preparing) || Open(w, f.thread, Phase.Sealing) then
          kept.(stack := Below(w.stack)
            + [Preparation(f.thread, f.inventory, f.own, Confirming(w.txn.value.phase, w.txn.value.support, []))])
        else Raised(kept, f.own, Below(w.stack))
  {
    var kept := w.(txn := Some(w.txn.value.(prepared := Some(f.inventory))));
    FailsExactly(w);
    FailsExactly(kept);
    KeptExactly(w, f.inventory);
    ConfirmsWhenOpen(kept, f.thread);
  }

  lemma {:induction false} ConfirmsWhenOpen(w: World, thread: int)
    requires w.txn.Some?
    ensures CanConfirm(w.txn.value, w.ownership, w.live, thread) <==> Open(w, thread, Preparing) || Open(w, thread, Phase.Sealing)
  {
  }

  /** The recheck of a seal and the beginning of its confirming pass. */
  lemma {:induction false} SealRecheckExactly(w: World, f: Frame, token: Id, fact: string)
    requires w.txn.Some? && w.stack != [] && f == Top(w) && f.Seal? && f.stage == Rechecking
    ensures Step(w, Advance(token, fact)) ==
      if AsKept(w, f.inventory) && (Open(w, f.thread, Preparing) || Open(w, f.thread, Phase.Sealing)) then
        w.(stack := Below(w.stack)
          + [Seal(f.thread, f.inventory, f.own, Confirming(w.txn.value.phase, w.txn.value.support, []))])
      else Raised(w, f.own, Below(w.stack))
  {
    FailsExactly(w);
    KeptExactly(w, f.inventory);
    ConfirmsWhenOpen(w, f.thread);
  }

  // ---- The confirming passes ----

  lemma {:induction false} EntryConfirmedExactly(w: World, f: Frame, token: Id, fact: string)
    requires w.txn.Some? && w.stack != [] && f == Top(w) && (f.Preparation? || f.Seal?) && f.stage.Confirming?
    requires |f.stage.seen| < |f.stage.want|
    ensures var k := |f.stage.seen|;
      Step(w, Advance(token, fact)) ==
        if k in w.live.support && w.live.support[k] == f.stage.want[k] then
          w.(stack := Below(w.stack)
            + [f.(stage := Confirming(f.stage.confirmed, f.stage.want, f.stage.seen + [w.live.support[k]]))])
        else Raised(w, f.own, Below(w.stack))
  {
    FailsExactly(w);
  }

  /** What the end of a confirming pass demands. */
  ghost predicate PassHolds(w: World, f: Frame)
    requires w.txn.Some? && (f.Preparation? || f.Seal?) && f.stage.Confirming?
  {
    && w.live.retention.Some? && w.txn.value.retention == w.live.retention
    && Open(w, f.thread, f.stage.confirmed) && AuthorityHeld(w)
    && Accepts(w.live.heap, w.txn.value.nodes, w.txn.value.prices)
  }

  /** What the execution makes of a preparation or seal of its own that has returned. */
  function Returned(w: World, f: Frame, stack: seq<Frame>): World
    requires w.txn.Some? && (f.Preparation? || f.Seal?)
  {
    if !f.own || stack == [] || !stack[|stack| - 1].Execution? then w.(stack := stack)
    else
      var x := stack[|stack| - 1];
      if f.Preparation? then w.(stack := Below(stack) + [Execution(x.thread, x.roots, Working(f.inventory))])
      else if x.job.AwaitsSeal? && RootsHeld(x.roots, w.live.fields)
      then w.(stack := Below(stack) + [Execution(x.thread, x.roots, Finished)], history := w.history + [x.job.fact])
      else Left(w, Below(stack))
  }

  predicate RootsHeld(roots: map<string, Id>, fields: map<string, Id>) {
    forall name :: name in roots ==> name in fields && fields[name] == roots[name]
  }

  lemma {:induction false} ReturnsExactly(w: World, f: Frame)
    requires w.txn.Some? && (f.Preparation? || f.Seal?) && w.ownership.activated
    ensures Return(f, w) == Returned(w, f, w.stack)
  {
  }

  /** The end of a confirming pass: prepared after a preparation, sealed after a seal, and
      for a seal of the execution's own the commit; or everything closes. */
  lemma {:induction false} PassEndsExactly(w: World, f: Frame, token: Id, fact: string)
    requires w.txn.Some? && w.stack != [] && f == Top(w) && (f.Preparation? || f.Seal?) && f.stage.Confirming?
    requires |f.stage.seen| >= |f.stage.want|
    ensures Step(w, Advance(token, fact)) ==
      if PassHolds(w, f) then
        Returned(
          w.(txn := Some(w.txn.value.(phase := if f.Preparation? then Prepared else Phase.Sealed)),
             passes := w.passes + [Observation(f.stage.seen, w.live.retention.value)]),
          f, Below(w.stack))
      else Raised(w, f.own, Below(w.stack))
  {
    FailsExactly(w);
    OpenExactly(w, f.thread, f.stage.confirmed);
    assert CanFinish(w.txn.value, w.ownership, w.live, f.thread, f.stage.confirmed) <==> PassHolds(w, f);
    if PassHolds(w, f) {
      ReturnsExactly(
        w.(txn := Some(w.txn.value.(phase := if f.Preparation? then Prepared else Phase.Sealed)), stack := Below(w.stack),
           passes := w.passes + [Observation(f.stage.seen, w.live.retention.value)]), f);
    }
  }

  // ---- Selections ----

  /** Item, fact and the two selectors agree at every position. */
  predicate AgreesThroughout(d: Detached) {
    && |d.items| == |d.facts| == |d.selectors| == |d.technicals| == |d.support|
    && forall i :: 0 <= i < |d.items| ==>
         d.items[i] == d.facts[i] && d.selectors[i] == d.facts[i].selector && d.technicals[i] == d.facts[i].technical
  }

  /** A selection returns the one item of the selector, from an inventory that agrees with
      its own facts, while the transaction is open and prepared; otherwise nothing. */
  lemma {:induction false} SelectsExactly(w: World, f: Frame, k: nat, token: Id, fact: string)
    requires w.txn.Some? && w.stack != [] && f == Top(w) && f.Selection? && f.inventory in w.live.inventories
    ensures var d := w.live.inventories[f.inventory];
      AgreesThroughout(d) && Open(w, f.thread, Prepared) && Carries(d.facts, f.selector, k) ==>
        Step(w, Advance(token, fact)) == w.(stack := Below(w.stack), selected := w.selected + [Selected(f.inventory, d.facts[k])])
    ensures var d := w.live.inventories[f.inventory];
      !(AgreesThroughout(d) && Open(w, f.thread, Prepared)) || (forall j: nat :: !Carries(d.facts, f.selector, j)) ==>
        Step(w, Advance(token, fact)) == w.(stack := Below(w.stack))
  {
    var d := w.live.inventories[f.inventory];
    OpenExactly(w, f.thread, Prepared);
    AgreesExactly(d);
    if AgreesThroughout(d) { CarriesExactly(d, f.selector); }
  }

  lemma {:induction false} AgreesExactly(d: Detached)
    ensures Corresponds(d, d.facts) <==> AgreesThroughout(d)
  {
    if Corresponds(d, d.facts) {
      forall i | 0 <= i < |d.items|
        ensures d.items[i] == d.facts[i] && d.selectors[i] == d.facts[i].selector && d.technicals[i] == d.facts[i].technical
      {
        assert ItemIntact(d, i);
      }
    }
    if AgreesThroughout(d) {
      forall i | 0 <= i < |d.items| ensures ItemIntact(d, i) {
      }
    }
  }

  lemma {:induction false} CarriesExactly(d: Detached, selector: string)
    requires AgreesThroughout(d)
    ensures forall k: nat :: Selects(d, selector, k) <==> Carries(d.facts, selector, k)
    ensures forall k: nat :: Carries(d.facts, selector, k) ==> Position(d.selectors, selector) == k
  {
  }
}
