/** What a selection from the prepared inventory returns, written over the committed facts,
    and an undisturbed Strategy execution that selects before it seals. */
module TransactionSelection {
  import opened Basics
  import opened ObjectGraph
  import opened NativeSupport
  import opened InterpretationTransaction
  import opened TransactionNest
  import opened TransactionSafety
  import L = LockOrder

  /** The inventory still is what preparation builds from the committed facts. */
  predicate AsBuilt(d: Detached, facts: seq<Fact>) {
    && d.items == d.facts == facts && |d.selectors| == |d.technicals| == |d.support| == |facts|
    && forall i :: 0 <= i < |facts| ==> d.selectors[i] == facts[i].selector && d.technicals[i] == facts[i].technical
  }

  /** A prepared transaction within its lifetime: open, activated by the witness of this
      thread, which still owns its eleven locks, with the inventory in place. */
  predicate Offers(w: World, thread: int, inventory: Id) {
    && w.txn.Some? && w.txn.value.active && w.txn.value.phase == Prepared && w.txn.value.prepared == Some(inventory)
    && !w.ownership.closed && w.ownership.activated && w.ownership.thread == thread
    && w.ownership.locks == L.STRATEGY_LOCKS && (forall l :: l in L.STRATEGY_LOCKS ==> l in w.live.locked)
    && inventory in w.live.inventories && AsBuilt(w.live.inventories[inventory], w.txn.value.facts)
  }

  /** One selection, no callback doing anything meanwhile. */
  function Selecting(thread: int, inventory: Id, selector: string, token: Id, fact: string): seq<Event> {
    [CallSelect(thread, inventory, selector), Advance(token, fact)]
  }

  /** Position `k` alone carries the selector. */
  predicate Carries(facts: seq<Fact>, selector: string, k: nat) {
    k < |facts| && facts[k].selector == selector
    && forall j :: 0 <= j < |facts| && facts[j].selector == selector ==> j == k
  }

  lemma {:induction false} BuiltCorresponds(d: Detached, facts: seq<Fact>, selector: string)
    requires AsBuilt(d, facts)
    ensures Corresponds(d, d.facts)
    ensures forall k: nat :: Selects(d, selector, k) <==> Carries(facts, selector, k)
    ensures forall k: nat :: Carries(facts, selector, k) ==> Position(d.selectors, selector) == k
  {
    forall i | 0 <= i < |d.items| ensures ItemIntact(d, i) {
    }
  }

  /** The call waits on top while the inventory is checked. */
  lemma {:induction false} SelectionBegins(w: World, thread: int, inventory: Id, selector: string, token: Id, fact: string)
    requires Offers(w, thread, inventory)
    ensures var f := Selection(thread, inventory, selector);
      Run(w, Selecting(thread, inventory, selector, token, fact)) == AdvanceSelection(Push(w, f), f)
  {
    var f := Selection(thread, inventory, selector);
    var run := Selecting(thread, inventory, selector, token, fact);
    var v := Step(w, run[0]);
    assert v == Push(w, f) && Top(v) == f;
    assert run[1..] == [run[1]] && run[1..][1..] == [];
    assert Run(v, run[1..]) == Run(Step(v, run[1]), []);
  }

  /** A selection by the selector of a committed fact, at whatever position, returns that
      fact and changes nothing else. */
  lemma {:induction false} SelectionReturnsTheFact(w: World, thread: int, inventory: Id, k: nat, token: Id, fact: string)
    requires Offers(w, thread, inventory) && k < |w.txn.value.facts|
    requires Carries(w.txn.value.facts, w.txn.value.facts[k].selector, k)
    ensures Run(w, Selecting(thread, inventory, w.txn.value.facts[k].selector, token, fact))
         == w.(selected := w.selected + [Selected(inventory, w.txn.value.facts[k])])
  {
    var selector := w.txn.value.facts[k].selector;
    var v := Push(w, Selection(thread, inventory, selector));
    SelectionBegins(w, thread, inventory, selector, token, fact);
    BuiltCorresponds(w.live.inventories[inventory], w.txn.value.facts, selector);
    assert Pop(v).stack == w.stack;
  }

  /** A selector that no fact carries, or that two carry, selects nothing and changes
      nothing. */
  lemma {:induction false} SelectionFindsNothing(w: World, thread: int, inventory: Id, selector: string, token: Id, fact: string)
    requires Offers(w, thread, inventory) && forall k: nat :: !Carries(w.txn.value.facts, selector, k)
    ensures Run(w, Selecting(thread, inventory, selector, token, fact)) == w
  {
    var v := Push(w, Selection(thread, inventory, selector));
    SelectionBegins(w, thread, inventory, selector, token, fact);
    BuiltCorresponds(w.live.inventories[inventory], w.txn.value.facts, selector);
    assert Pop(v).stack == w.stack;
  }

  // ---- An undisturbed execution with its selections ----

  predicate Within(ks: seq<nat>, n: nat) {
    forall i :: 0 <= i < |ks| ==> ks[i] < n
  }

  function SelectingAll(thread: int, inventory: Id, facts: seq<Fact>, ks: seq<nat>, token: Id, fact: string): seq<Event>
    requires Within(ks, |facts|)
  {
    if ks == [] then []
    else Selecting(thread, inventory, facts[ks[0]].selector, token, fact) + SelectingAll(thread, inventory, facts, ks[1..], token, fact)
  }

  function Chosen(inventory: Id, facts: seq<Fact>, ks: seq<nat>): (chosen: seq<Selected>)
    requires Within(ks, |facts|)
    ensures |chosen| == |ks| && forall i :: 0 <= i < |ks| ==> chosen[i] == Selected(inventory, facts[ks[i]])
  {
    seq(|ks|, i requires 0 <= i < |ks| => Selected(inventory, facts[ks[i]]))
  }

  predicate DistinctSelectors(facts: seq<Fact>) {
    forall i, j :: 0 <= i < j < |facts| ==> facts[i].selector != facts[j].selector
  }

  lemma {:induction false} SelectionsReturnTheFacts(w: World, thread: int, inventory: Id, ks: seq<nat>, token: Id, fact: string)
    requires Offers(w, thread, inventory) && DistinctSelectors(w.txn.value.facts)
    requires Within(ks, |w.txn.value.facts|)
    ensures Run(w, SelectingAll(thread, inventory, w.txn.value.facts, ks, token, fact))
         == w.(selected := w.selected + Chosen(inventory, w.txn.value.facts, ks))
    decreases |ks|
  {
    var facts := w.txn.value.facts;
    if ks == [] {
      assert w.selected + Chosen(inventory, facts, ks) == w.selected;
    } else {
      var first, rest := Selecting(thread, inventory, facts[ks[0]].selector, token, fact), ks[1..];
      var v := w.(selected := w.selected + [Selected(inventory, facts[ks[0]])]);
      OnlyItsFactCarries(facts, ks[0]);
      SelectionReturnsTheFact(w, thread, inventory, ks[0], token, fact);
      SelectionsReturnTheFacts(v, thread, inventory, rest, token, fact);
      RunAppends(w, first, SelectingAll(thread, inventory, facts, rest, token, fact));
      ChosenOneMore(inventory, facts, ks, w.selected);
    }
  }

  lemma {:induction false} OnlyItsFactCarries(facts: seq<Fact>, k: nat)
    requires DistinctSelectors(facts) && k < |facts|
    ensures Carries(facts, facts[k].selector, k)
  {
  }

  lemma {:induction false} ChosenOneMore(inventory: Id, facts: seq<Fact>, ks: seq<nat>, before: seq<Selected>)
    requires Within(ks, |facts|) && ks != []
    ensures Within(ks[1..], |facts|)
    ensures before + [Selected(inventory, facts[ks[0]])] + Chosen(inventory, facts, ks[1..]) == before + Chosen(inventory, facts, ks)
  {
    assert Chosen(inventory, facts, ks) == [Selected(inventory, facts[ks[0]])] + Chosen(inventory, facts, ks[1..]);
  }

  /** Preparation, any selections by committed selectors, the seal. */
  function SelectingRun(n: nat, thread: int, token: Id, facts: seq<Fact>, ks: seq<nat>, fact: string): seq<Event>
    requires Within(ks, |facts|)
  {
    seq(2 * n + 5, _ => Advance(token, fact)) + SelectingAll(thread, token, facts, ks, token, fact)
    + seq(n + 3, _ => Advance(token, fact))
  }

  /** The prepared execution offers its inventory. */
  lemma {:induction false} PreparedOffers(w: World, x: Frame, token: Id, fact: string)
    requires Starts(w, x) && x.job.Entered? && w.txn.value.phase == Active && w.txn.value.prepared.None?
    requires token !in w.live.inventories
    ensures var p := Alone(w, token, fact, 2 * |w.txn.value.facts| + 5);
      && Offers(p, x.thread, token) && p.txn.value.facts == w.txn.value.facts && p.stack == [Doing(x, Working(token))]
      && p.selected == w.selected && p.history == w.history
      && p.txn.value.support == Found(w.live, |w.txn.value.facts|) && p.txn.value.retention == w.live.retention
      && Starts(p, Doing(x, Working(token))) && StillCommitted(p.txn.value, p.live, token)
      && p.live.retention == w.live.retention && p.live.support == w.live.support
  {
    AlonePrepares(w, x, token, fact);
    var p := Alone(w, token, fact, 2 * |w.txn.value.facts| + 5);
    assert p.live.inventories[token] == Rebuilt(p.txn.value);
    CommittedIsRebuilt(p.txn.value, p.live, token);
  }

  /** Selections leave a prepared execution ready to seal. */
  lemma {:induction false} SelectsAndSeals(p: World, x: Frame, token: Id, ks: seq<nat>, fact: string)
    requires Offers(p, x.thread, token) && Starts(p, x) && x.job == Working(token) && StillCommitted(p.txn.value, p.live, token)
    requires p.txn.value.support == Found(p.live, |p.txn.value.facts|) && p.txn.value.retention == p.live.retention
    requires DistinctSelectors(p.txn.value.facts) && Within(ks, |p.txn.value.facts|)
    ensures var q := Run(p, SelectingAll(x.thread, token, p.txn.value.facts, ks, token, fact));
      var u := Alone(q, token, fact, |p.txn.value.facts| + 3);
      && u.selected == p.selected + Chosen(token, p.txn.value.facts, ks)
      && u.history == p.history + [fact] && u.txn.Some? && u.txn.value.phase == Phase.Sealed
  {
    SelectionsReturnTheFacts(p, x.thread, token, ks, token, fact);
    var q := Run(p, SelectingAll(x.thread, token, p.txn.value.facts, ks, token, fact));
    AloneSeals(q, x, token, fact);
  }

  lemma {:induction false} RunInThree(w: World, n: nat, thread: int, token: Id, facts: seq<Fact>, ks: seq<nat>, fact: string)
    requires Within(ks, |facts|)
    ensures Run(w, SelectingRun(n, thread, token, facts, ks, fact))
         == Alone(Run(Alone(w, token, fact, 2 * n + 5), SelectingAll(thread, token, facts, ks, token, fact)), token, fact, n + 3)
  {
    var before, between := seq(2 * n + 5, _ => Advance(token, fact)), SelectingAll(thread, token, facts, ks, token, fact);
    RunAppends(w, before, between);
    RunAppends(w, before + between, seq(n + 3, _ => Advance(token, fact)));
  }

  /** An execution that nothing disturbs selects exactly the committed facts that it asks
      for, in that order, and then commits. */
  lemma {:induction false} UndisturbedExecutionSelects(w: World, e: Entry, roots: map<string, Id>, token: Id, ks: seq<nat>, fact: string)
    requires Fresh(w) && w.ownership.thread == e.thread && w.ownership.locks == L.STRATEGY_LOCKS && AllLocked(w.live.locked)
    requires e.rootsHeld && Captures(w.live.heap, e) && Holds(roots, w.live.fields)
    requires Supported(w.live, |e.facts|) && token !in w.live.inventories
    requires DistinctSelectors(e.facts) && Within(ks, |e.facts|)
    ensures var u := Run(Step(w, Execute(e, roots)), SelectingRun(|e.facts|, e.thread, token, e.facts, ks, fact));
      && u.selected == Chosen(token, e.facts, ks)
      && u.history == w.history + [fact] && u.txn.Some? && u.txn.value.phase == Phase.Sealed
  {
    var n, v := |e.facts|, Step(w, Execute(e, roots));
    var x := Execution(e.thread, roots, Entered);
    EntersSteadily(w, e, roots);
    assert v.selected == [];
    PreparedOffers(v, x, token, fact);
    SelectsAndSeals(Alone(v, token, fact, 2 * n + 5), Doing(x, Working(token)), token, ks, fact);
    RunInThree(v, n, e.thread, token, e.facts, ks, fact);
  }
}
