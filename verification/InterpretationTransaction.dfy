/** The state of one Interpretation transaction and the stretches of its code that run
    without a callback (`_interpretation_transaction` and its helpers in
    `polygon_completed_daily_production_interpretation.py`). */
module InterpretationTransaction {
  import opened Basics
  import opened ObjectGraph
  import opened NativeSupport
  import L = LockOrder

  /** `Prepared` is the source's PREPARED, `Shut` its CLOSED. */
  datatype Phase = Active | Preparing | Prepared | Sealing | Sealed | Shut

  function PhaseRank(p: Phase): nat {
    match p
    case Active => 0
    case Preparing => 1
    case Prepared => 2
    case Sealing => 3
    case Sealed => 4
    case Shut => 5
  }

  /** What authenticating one committed entry found: its technical occurrence, by
      identity, and the projection of its sources. */
  datatype Lineage = Lineage(source: Id, projection: string)

  /** The upstream occurrences in order, by identity and projection. */
  type Retention = seq<(Id, string)>

  /** One complete support pass over the whole inventory. */
  datatype Observation = Observation(support: seq<Lineage>, retention: Retention)

  /** The canonical encoding of one interpretation; its own selector and that of its
      technical occurrence can be read off it. */
  datatype Fact = Fact(selector: string, technical: string, body: string)

  /** A detached inventory: what its items encode to now, and the tuples stored beside them. */
  datatype Detached = Detached(
    items: seq<Fact>, facts: seq<Fact>, selectors: seq<string>, technicals: seq<string>, support: seq<string>)

  /** Everything outside the transaction that its checks read. Callbacks may change any of
      it; reading what is absent raises. */
  datatype Live = Live(
    heap: Heap,
    fields: map<string, Id>,
    support: map<nat, Lineage>,
    retention: Option<Retention>,
    inventories: map<Id, Detached>,
    locked: set<L.Lock>)

  /** `roots`, `visited` and `base` record for the specification what the native capture
      started from and reached. */
  datatype Txn = Txn(
    phase: Phase, active: bool, facts: seq<Fact>, anchors: map<string, Id>,
    nodes: seq<Captured>, prices: seq<Captured>, roots: seq<Id>, visited: set<Id>, base: Heap,
    prepared: Option<Id>, support: seq<Lineage>, retention: Option<Retention>)

  /** `activated`: its activation is the transaction. */
  datatype Witness = Witness(thread: int, locks: seq<L.Lock>, closed: bool, activated: bool)

  predicate AllLocked(locked: set<L.Lock>) {
    forall l :: l in L.STRATEGY_LOCKS ==> l in locked
  }

  predicate Lifetime(t: Txn, w: Witness, live: Live, thread: int, phase: Phase) {
    && !w.closed && w.thread == thread && w.activated
    && t.active && t.phase == phase
    && w.locks == L.STRATEGY_LOCKS && AllLocked(live.locked)
  }

  function Close(t: Txn): Txn {
    t.(phase := Shut, active := false)
  }

  function Leave(t: Txn): Txn {
    t.(phase := Shut, active := false, prepared := None, support := [], retention := None)
  }

  function Projections(support: seq<Lineage>): (facts: seq<string>)
    ensures |facts| == |support|
  {
    seq(|support|, i requires 0 <= i < |support| => support[i].projection)
  }

  function Selectors(facts: seq<Fact>): (selectors: seq<string>)
    ensures |selectors| == |facts|
  {
    seq(|facts|, i requires 0 <= i < |facts| => facts[i].selector)
  }

  function Technicals(facts: seq<Fact>): (technicals: seq<string>)
    ensures |technicals| == |facts|
  {
    seq(|facts|, i requires 0 <= i < |facts| => facts[i].technical)
  }

  /** The inventory as preparation builds it from the committed facts. */
  function Rebuilt(t: Txn): Detached {
    Detached(t.facts, t.facts, Selectors(t.facts), Technicals(t.facts), Projections(t.support))
  }

  // ---- Stretches without a callback ----

  predicate CanPrepare(t: Txn, w: Witness, live: Live, thread: int) {
    Lifetime(t, w, live, thread, Active) && t.prepared.None? && Holds(t.anchors, live.fields)
  }

  predicate CanSeal(t: Txn, w: Witness, live: Live, thread: int, inventory: Id) {
    Lifetime(t, w, live, thread, Prepared) && t.prepared == Some(inventory) && Holds(t.anchors, live.fields)
  }

  predicate CanSelect(t: Txn, w: Witness, live: Live, thread: int, inventory: Id) {
    Lifetime(t, w, live, thread, Prepared) && t.prepared == Some(inventory)
  }

  predicate ItemIntact(d: Detached, i: nat)
    requires i < |d.items| == |d.facts| == |d.selectors| == |d.technicals|
  {
    d.items[i] == d.facts[i] && d.items[i].selector == d.selectors[i] && d.items[i].technical == d.technicals[i]
  }

  /** `_check_prepared_interpretation_facts` */
  predicate Corresponds(d: Detached, facts: seq<Fact>) {
    && d.facts == facts
    && |d.items| == |d.facts| == |d.selectors| == |d.technicals| == |d.support|
    && forall i :: 0 <= i < |d.items| ==> ItemIntact(d, i)
  }

  /** The one item of the requested selector, if there is exactly one. */
  predicate Selects(d: Detached, selector: string, k: nat) {
    && k < |d.items| == |d.selectors| && d.selectors[k] == selector
    && forall j :: 0 <= j < |d.selectors| && d.selectors[j] == selector ==> j == k
  }

  /** The canonical recheck of the whole inventory against the committed facts. */
  predicate StillCommitted(t: Txn, live: Live, inventory: Id) {
    && inventory in live.inventories && Corresponds(live.inventories[inventory], t.facts)
    && live.inventories[inventory].support == Projections(t.support)
  }

  /** Only the inventory as it was built passes. */
  lemma {:induction false} CommittedIsRebuilt(t: Txn, live: Live, inventory: Id)
    requires |t.support| == |t.facts|
    ensures StillCommitted(t, live, inventory) <==> inventory in live.inventories && live.inventories[inventory] == Rebuilt(t)
  {
    if inventory in live.inventories && Corresponds(live.inventories[inventory], t.facts) {
      var d := live.inventories[inventory];
      forall i | 0 <= i < |t.facts|
        ensures d.items[i] == t.facts[i] && d.selectors[i] == t.facts[i].selector && d.technicals[i] == t.facts[i].technical
      {
        assert ItemIntact(d, i);
      }
      assert d.items == t.facts && d.selectors == Selectors(t.facts) && d.technicals == Technicals(t.facts);
    }
  }

  /** An inventory that corresponds to its own facts: what a request selects carries that
      selector, and is committed exactly when the fact stored at its position is. If the
      facts are those of the transaction, it is the only committed one of that selector. */
  lemma {:induction false} SelectedIsCommittedExactly(t: Txn, d: Detached, selector: string, k: nat)
    requires Corresponds(d, d.facts) && Selects(d, selector, k)
    ensures d.items[k].selector == selector
    ensures d.items[k] in t.facts <==> d.facts[k] in t.facts
    ensures d.facts == t.facts ==>
      t.facts[k] == d.items[k] && forall j :: 0 <= j < |t.facts| && t.facts[j].selector == selector ==> j == k
  {
    assert ItemIntact(d, k);
    forall j | 0 <= j < |d.items| && d.facts[j].selector == selector ensures j == k {
      assert ItemIntact(d, j);
    }
  }

  /** Items and facts replaced together pass: any single fact can be what is selected. */
  lemma {:induction false} ReplacedTogetherIsSelected(fact: Fact, support: string)
    ensures var d := Detached([fact], [fact], [fact.selector], [fact.technical], [support]);
      Corresponds(d, d.facts) && Selects(d, fact.selector, 0)
  {
    var d := Detached([fact], [fact], [fact.selector], [fact.technical], [support]);
    assert ItemIntact(d, 0);
  }

  predicate CanConfirm(t: Txn, w: Witness, live: Live, thread: int) {
    t.phase in {Preparing, Sealing} && Lifetime(t, w, live, thread, t.phase)
  }

  /** One entry authenticated again. */
  predicate Repeats(live: Live, k: nat, want: Lineage) {
    k in live.support && live.support[k] == want
  }

  /** From the retention comparison through the native reads to the direct-only tail. */
  ghost predicate CanFinish(t: Txn, w: Witness, live: Live, thread: int, phase: Phase) {
    && live.retention.Some? && live.retention == t.retention
    && Lifetime(t, w, live, thread, phase)
    && Accepts(live.heap, t.nodes, t.prices)
    && Holds(t.anchors, live.fields)
  }

  class Transaction {
    var phase: Phase
    var active: bool
    const facts: seq<Fact>
    const anchors: map<string, Id>
    const nodes: seq<Captured>
    const prices: seq<Captured>
    ghost const roots: seq<Id>
    ghost const visited: set<Id>
    ghost const base: Heap
    var prepared: Option<Id>
    var support: seq<Lineage>
    var retention: Option<Retention>

    ghost function Value(): Txn
      reads this
    {
      Txn(phase, active, facts, anchors, nodes, prices, roots, visited, base, prepared, support, retention)
    }

    constructor (facts: seq<Fact>, live: Live, nodes: seq<Captured>, prices: seq<Captured>,
                 ghost roots: seq<Id>, ghost visited: set<Id>)
      ensures Value() == Txn(Active, true, facts, live.fields, nodes, prices, roots, visited, live.heap, None, [], None)
    {
      phase, active := Active, true;
      this.facts, anchors, this.nodes, this.prices := facts, live.fields, nodes, prices;
      this.roots, this.visited, base := roots, visited, live.heap;
      prepared, support, retention := None, [], None;
    }

    method Shutdown()
      modifies this`phase, this`active
      ensures Value() == Close(old(Value()))
    {
      active := false;
      phase := Shut;
    }

    method Exit()
      modifies this
      ensures Value() == Leave(old(Value()))
    {
      phase, active := Shut, false;
      prepared, support, retention := None, [], None;
    }

    /** The start of preparation: it raises and closes, or the phase is PREPARING. */
    method BeginPreparation(w: Witness, live: Live, thread: int) returns (ok: bool)
      modifies this`phase, this`active
      ensures ok <==> CanPrepare(old(Value()), w, live, thread)
      ensures Value() == if ok then old(Value()).(phase := Preparing) else Close(old(Value()))
    {
      ok := false;
      if w.closed || w.thread != thread || !w.activated || !active || phase != Active
         || w.locks != L.STRATEGY_LOCKS || !AllLocked(live.locked) {
        Shutdown();
        return;
      }
      phase := Preparing;
      if prepared.Some? || !Holds(anchors, live.fields) {
        Shutdown();
        return;
      }
      ok := true;
    }

    /** The first support pass. Entry `k` is authenticated at its own moment: callbacks may
        run between any two. */
    method FirstPass(moments: seq<Live>) returns (found: Option<seq<Lineage>>)
      requires |moments| == |facts|
      ensures found.Some? <==> forall k :: 0 <= k < |moments| ==> k in moments[k].support
      ensures found.Some? ==> |found.value| == |facts| && forall k :: 0 <= k < |moments| ==> Repeats(moments[k], k, found.value[k])
    {
      var seen: seq<Lineage> := [];
      for k := 0 to |moments|
        invariant |seen| == k
        invariant forall j :: 0 <= j < k ==> Repeats(moments[j], j, seen[j])
      {
        if k !in moments[k].support { return None; }
        seen := seen + [moments[k].support[k]];
      }
      found := Some(seen);
    }

    /** The later support passes, entry by entry against the first. */
    method ConfirmSupport(moments: seq<Live>) returns (ok: bool)
      requires |moments| == |support|
      ensures ok <==> forall k :: 0 <= k < |moments| ==> Repeats(moments[k], k, support[k])
    {
      var want := support;
      for k := 0 to |moments|
        invariant forall j :: 0 <= j < k ==> Repeats(moments[j], j, want[j])
      {
        if !Repeats(moments[k], k, want[k]) { return false; }
      }
      ok := true;
    }

    /** The end of a confirming pass and the direct-only tail after it. */
    method Finish(w: Witness, live: Live, thread: int, confirmed: Phase, next: Phase) returns (ok: bool)
      requires forall i :: 0 <= i < |nodes| ==> nodes[i].id in live.heap
      requires forall i :: 0 <= i < |prices| ==> prices[i].id in live.heap
      modifies this`phase, this`active
      ensures ok <==> CanFinish(old(Value()), w, live, thread, confirmed)
      ensures Value() == if ok then old(Value()).(phase := next) else Close(old(Value()))
    {
      ok := false;
      if live.retention.None? || live.retention != retention {
        Shutdown();
        return;
      }
      if w.closed || w.thread != thread || !w.activated || !active || phase != confirmed
         || w.locks != L.STRATEGY_LOCKS || !AllLocked(live.locked) {
        Shutdown();
        return;
      }
      var same := Compare(live.heap, nodes, prices);
      if !same || !Holds(anchors, live.fields) {
        Shutdown();
        return;
      }
      phase := next;
      ok := true;
    }
  }
}
