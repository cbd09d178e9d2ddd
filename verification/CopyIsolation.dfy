/** What disjoint identity sets guarantee about a public copy: nothing the
    caller does to it can reach the retained result. */
module CopyIsolation {
  import opened ObjectGraph

  /** Kinds whose identity the graph walk records. */
  predicate Tracked(k: Kind, containers: bool) {
    k.Record? || (containers && (k.List? || k.Dict?))
  }

  /** `y` is a tracked object that the walk from `x` reaches. */
  ghost predicate InWalk(h: Heap, containers: bool, x: Id, y: Id) {
    y in h && Tracked(h[y].kind, containers) && Reachable(h, containers, x, y)
  }

  ghost function TrackedReach(h: Heap, containers: bool, x: Id): set<Id> {
    set y | y in h && InWalk(h, containers, x, y)
  }

  /** No followed cycle: without it the recursive walk would not return. */
  ghost predicate Ranked(h: Heap, containers: bool, rank: map<Id, nat>) {
    && h.Keys <= rank.Keys
    && forall x, e :: x in h && e in Children(h, containers, x) ==> e in rank && rank[e] < rank[x]
  }

  /** The recursive identity walk. `containers` tells the Assessment and Strategy
      walk (true) from the Interpretation walk, which returns nothing for a list
      or a dictionary (false). */
  method GraphIds(h: Heap, containers: bool, value: Id, ghost rank: map<Id, nat>) returns (ids: set<Id>)
    requires Closed(h) && value in h && Ranked(h, containers, rank)
    ensures ids == TrackedReach(h, containers, value)
    decreases rank[value]
  {
    var cell := h[value];
    ids := if Tracked(cell.kind, containers) then {value} else {};
    OwnIdentity(h, containers, value, ids);
    if Follows(cell.kind, containers) {
      for i := 0 to |cell.edges|
        invariant Within(h, containers, value, ids)
        invariant Tracked(cell.kind, containers) ==> value in ids
        invariant Gathers(h, containers, cell.edges, i, ids)
      {
        var below := GraphIds(h, containers, cell.edges[i], rank);
        OneMoreChild(h, containers, value, i, ids, below);
        ids := ids + below;
      }
    }
    WalkHasAll(h, containers, value, ids);
  }

  ghost predicate Within(h: Heap, containers: bool, value: Id, ids: set<Id>) {
    forall y :: y in ids ==> InWalk(h, containers, value, y)
  }

  /** The walks of the first `n` children have been added. */
  ghost predicate Gathers(h: Heap, containers: bool, edges: seq<Id>, n: nat, ids: set<Id>)
    requires n <= |edges|
  {
    forall k, y :: 0 <= k < n && InWalk(h, containers, edges[k], y) ==> y in ids
  }

  lemma {:induction false} OwnIdentity(h: Heap, containers: bool, value: Id, ids: set<Id>)
    requires value in h && ids == if Tracked(h[value].kind, containers) then {value} else {}
    ensures Within(h, containers, value, ids)
  {
    ReachSelf(h, containers, value);
  }

  lemma {:induction false} OneMoreChild(h: Heap, containers: bool, value: Id, n: nat, ids: set<Id>, below: set<Id>)
    requires value in h && Follows(h[value].kind, containers) && n < |h[value].edges|
    requires Within(h, containers, value, ids) && Gathers(h, containers, h[value].edges, n, ids)
    requires below == TrackedReach(h, containers, h[value].edges[n])
    ensures Within(h, containers, value, ids + below) && Gathers(h, containers, h[value].edges, n + 1, ids + below)
  {
    var child := h[value].edges[n];
    assert child in Children(h, containers, value);
    forall y | y in below ensures InWalk(h, containers, value, y) {
      ReachPrepend(h, containers, value, child, y);
    }
  }

  /** Own identity and the walks of the children make up the walk. */
  lemma {:induction false} WalkHasAll(h: Heap, containers: bool, value: Id, ids: set<Id>)
    requires Closed(h) && value in h && Within(h, containers, value, ids)
    requires Tracked(h[value].kind, containers) ==> value in ids
    requires Gathers(h, containers, Children(h, containers, value), |Children(h, containers, value)|, ids)
    ensures ids == TrackedReach(h, containers, value)
  {
    forall y | InWalk(h, containers, value, y) ensures y in ids {
      if y != value {
        var e := ReachFirstStep(h, containers, value, y);
        var k :| 0 <= k < |Children(h, containers, value)| && Children(h, containers, value)[k] == e;
        assert InWalk(h, containers, e, y);
      }
    }
    assert forall y :: y in ids <==> y in TrackedReach(h, containers, value);
  }

  // ---- What a caller can do with a public copy ----

  /** One write through a known object, or one fresh object. A dataclass keeps its
      fields; a list or dictionary may grow and shrink. */
  datatype Action =
    | Write(target: Id, keys: seq<Id>, edges: seq<Id>)
    | Allocate(id: Id, cell: Cell)

  /** The heap and the objects that the caller can name. */
  datatype World = World(heap: Heap, known: set<Id>)

  predicate Mutable(k: Kind) {
    k.Record? || k.List? || k.Dict?
  }

  ghost predicate Allowed(w: World, a: Action) {
    match a
    case Write(target, keys, edges) =>
      && target in w.known && target in w.heap && Mutable(w.heap[target].kind)
      && (forall e :: e in edges ==> e in w.known)
      && (w.heap[target].kind.Record? ==> |edges| == |w.heap[target].edges| && keys == w.heap[target].keys)
    case Allocate(id, cell) =>
      && id !in w.heap
      && (forall e :: e in cell.edges ==> e in w.known)
  }

  function Apply(w: World, a: Action): World {
    match a
    case Write(target, keys, edges) =>
      if target in w.heap
      then World(w.heap[target := w.heap[target].(keys := keys, edges := edges)], w.known)
      else w
    case Allocate(id, cell) => World(w.heap[id := cell], w.known + {id})
  }

  ghost predicate AllowedRun(w: World, run: seq<Action>)
    decreases |run|
  {
    run == [] || (Allowed(w, run[0]) && AllowedRun(Apply(w, run[0]), run[1..]))
  }

  function Perform(w: World, run: seq<Action>): World
    decreases |run|
  {
    if run == [] then w else Perform(Apply(w, run[0]), run[1..])
  }

  ghost function Handed(h: Heap, public: Id): World {
    World(h, set y | y in h && Reachable(h, true, public, y))
  }

  /** Every object of the retained graph is as it was. */
  ghost predicate Unchanged(h: Heap, h': Heap, retained: Id) {
    forall x :: x in h && Reachable(h, true, retained, x) ==> x in h' && h'[x] == h[x]
  }

  ghost predicate Isolated(h: Heap, public: Id, retained: Id) {
    forall run :: AllowedRun(Handed(h, public), run)
      ==> Unchanged(h, Perform(Handed(h, public), run).heap, retained)
  }

  /** State that a write can alter: a list, a dictionary, or a dataclass with a field. */
  predicate Writable(c: Cell) {
    c.kind.List? || c.kind.Dict? || (c.kind.Record? && |c.edges| > 0)
  }

  ghost predicate SharesWritable(h: Heap, public: Id, retained: Id) {
    exists y :: y in h && Writable(h[y]) && Reachable(h, true, public, y) && Reachable(h, true, retained, y)
  }

  // ---- The invariant that every caller run keeps ----

  ghost predicate Contained(h: Heap, retained: Id, w: World) {
    && w.known <= w.heap.Keys
    && h.Keys <= w.heap.Keys
    && (forall x, e :: x in w.known && e in Children(w.heap, true, x) ==> e in w.known)
    && (forall x :: x in h && Reachable(h, true, retained, x) ==>
          w.heap[x] == h[x] && (x in w.known ==> !Writable(h[x])))
  }

  lemma {:induction false} RunStaysContained(h: Heap, retained: Id, w: World, run: seq<Action>)
    requires Contained(h, retained, w) && AllowedRun(w, run)
    ensures Contained(h, retained, Perform(w, run))
    decreases |run|
  {
    if run != [] {
      StepStaysContained(h, retained, w, run[0]);
      RunStaysContained(h, retained, Apply(w, run[0]), run[1..]);
    }
  }

  lemma {:induction false} StepStaysContained(h: Heap, retained: Id, w: World, a: Action)
    requires Contained(h, retained, w) && Allowed(w, a)
    ensures Contained(h, retained, Apply(w, a))
  {
    var w' := Apply(w, a);
    forall x | x in h && Reachable(h, true, retained, x) ensures w'.heap[x] == h[x] {
      if a.Write? && a.target == x {
        assert h[x].kind.Record? && |h[x].edges| == 0;
        assert a.edges == [];
      }
    }
    forall x, e | x in w'.known && e in Children(w'.heap, true, x) ensures e in w'.known {
      if a.Allocate? && x == a.id {
      } else if a.Write? && x == a.target {
      } else {
        assert e in Children(w.heap, true, x);
      }
    }
  }

  lemma {:induction false} FreshId(s: set<Id>) returns (id: Id)
    ensures id !in s
  {
    var top := AboveAll(s);
    id := top + 1;
  }

  lemma {:induction false} AboveAll(s: set<Id>) returns (top: Id)
    ensures forall x :: x in s ==> x <= top
    decreases |s|
  {
    if forall x :: x !in s {
      top := 0;
    } else {
      var x :| x in s;
      var rest := AboveAll(s - {x});
      top := if x > rest then x else rest;
      forall y | y in s ensures y <= top {
        assert y == x || y in s - {x};
      }
    }
  }

  lemma {:induction false} TrackedHas(h: Heap, containers: bool, x: Id, y: Id)
    requires InWalk(h, containers, x, y)
    ensures y in TrackedReach(h, containers, x)
  {
  }

  /** Isolation is exactly the absence of shared writable state. */
  lemma {:induction false} IsolationIsExact(h: Heap, public: Id, retained: Id)
    requires Closed(h) && public in h && retained in h
    ensures Isolated(h, public, retained) <==> !SharesWritable(h, public, retained)
  {
    var start := Handed(h, public);
    if SharesWritable(h, public, retained) {
      var y :| y in h && Writable(h[y]) && Reachable(h, true, public, y) && Reachable(h, true, retained, y);
      var token := FreshId(h.Keys);
      var a := Allocate(token, Cell(Scalar, Native(0), [], [], 0));
      var more := if h[y].kind.Record? then h[y].edges[0 := token] else h[y].edges + [token];
      var b := Write(y, h[y].keys, more);
      forall e | e in h[y].edges ensures e in start.known {
        assert e in Children(h, true, y);
        ReachExtend(h, true, public, y, e);
      }
      var w1 := Apply(start, a);
      assert Allowed(start, a) && Allowed(w1, b);
      assert token in more by {
        assert more[if h[y].kind.Record? then 0 else |h[y].edges|] == token;
      }
      assert token !in h[y].edges;
      assert AllowedRun(Apply(w1, b), []);
      assert [b][1..] == [];
      assert AllowedRun(w1, [b]);
      assert [a, b][1..] == [b];
      assert AllowedRun(start, [a, b]);
      assert Perform(w1, [b]) == Perform(Apply(w1, b), []);
      assert Perform(start, [a, b]) == Apply(w1, b);
      assert !Unchanged(h, Perform(start, [a, b]).heap, retained);
    } else {
      forall x, e | x in start.known && e in Children(h, true, x) ensures e in start.known {
        ReachExtend(h, true, public, x, e);
      }
      assert Contained(h, retained, start);
      forall run | AllowedRun(start, run) ensures Unchanged(h, Perform(start, run).heap, retained) {
        RunStaysContained(h, retained, start, run);
      }
    }
  }

  /** The Assessment and Strategy check: disjoint identity sets isolate the copy,
      even when tuples and scalars are shared. */
  lemma {:induction false} DisjointIdsIsolate(h: Heap, public: Id, retained: Id)
    requires Closed(h) && public in h && retained in h
    requires TrackedReach(h, true, public) !! TrackedReach(h, true, retained)
    ensures Isolated(h, public, retained)
  {
    if SharesWritable(h, public, retained) {
      var y :| y in h && Writable(h[y]) && Reachable(h, true, public, y) && Reachable(h, true, retained, y);
      TrackedHas(h, true, public, y);
      TrackedHas(h, true, retained, y);
      assert false;
    }
    IsolationIsExact(h, public, retained);
  }

  /** The Interpretation walk sees no list and no dictionary. On graphs in general its
      sets can be disjoint and yet the caller reach retained state through a shared list. */
  lemma {:induction false} InterpretationIdsMissSharedList(h: Heap)
    requires h == map[
      1 := Cell(Record(0), Native(0), [], [3], 0),
      2 := Cell(Record(0), Native(0), [], [3], 0),
      3 := Cell(List, Native(0), [], [], 0)]
    ensures TrackedReach(h, false, 1) !! TrackedReach(h, false, 2)
    ensures !Isolated(h, 1, 2)
  {
    forall y | Reachable(h, false, 1, y) ensures y == 1 || y == 3 {
      var p :| IsPath(h, false, p) && p[0] == 1 && p[|p| - 1] == y;
      ClosedSetHoldsPath(h, false, {1, 3}, p, |p| - 1);
    }
    forall y | Reachable(h, false, 2, y) ensures y == 2 || y == 3 {
      var p :| IsPath(h, false, p) && p[0] == 2 && p[|p| - 1] == y;
      ClosedSetHoldsPath(h, false, {2, 3}, p, |p| - 1);
    }
    assert IsPath(h, true, [1, 3]) && IsPath(h, true, [2, 3]);
    assert [1, 3][0] == 1 && [1, 3][1] == 3 && [2, 3][0] == 2 && [2, 3][1] == 3;
    assert Reachable(h, true, 1, 3) && Reachable(h, true, 2, 3) && Writable(h[3]);
    assert SharesWritable(h, 1, 2);
    IsolationIsExact(h, 1, 2);
  }

  predicate IsContainer(h: Heap, c: Id) {
    c in h && (h[c].kind.List? || h[c].kind.Dict?)
  }

  /** A list or dictionary of the graph of `r`, or something below one. */
  ghost predicate BelowContainer(h: Heap, r: Id, y: Id) {
    exists c :: IsContainer(h, c) && Reachable(h, true, r, c) && Reachable(h, true, c, y)
  }

  /** What the Interpretation walk does not reach lies below a container. */
  lemma {:induction false} BeyondTheWalk(h: Heap, r: Id, y: Id)
    requires Reachable(h, true, r, y)
    ensures Reachable(h, false, r, y) || BelowContainer(h, r, y)
  {
    var p :| IsPath(h, true, p) && p[0] == r && p[|p| - 1] == y;
    if i :| 0 <= i < |p| && IsContainer(h, p[i]) {
      PrefixReached(h, p, i);
      SuffixReaches(h, p, i);
    } else {
      forall i | 0 < i < |p| ensures p[i] in Children(h, false, p[i - 1]) {
        assert p[i] in Children(h, true, p[i - 1]) && !IsContainer(h, p[i - 1]);
      }
      assert IsPath(h, false, p);
    }
  }

  lemma {:induction false} SuffixReaches(h: Heap, p: seq<Id>, n: nat)
    requires IsPath(h, true, p) && n < |p| && p[n] in h
    ensures Reachable(h, true, p[n], p[|p| - 1])
  {
    var q := p[n..];
    forall i | 0 < i < |q| ensures q[i] in Children(h, true, q[i - 1]) {
      assert q[i] == p[n + i] && q[i - 1] == p[n + i - 1];
    }
    assert IsPath(h, true, q) && q[0] == p[n] && q[|q| - 1] == p[|p| - 1];
  }

  /** Both graphs reach a writable object, and one of them through a container. */
  ghost predicate SharesBelowContainer(h: Heap, public: Id, retained: Id) {
    exists y :: y in h && Writable(h[y]) && Reachable(h, true, public, y) && Reachable(h, true, retained, y)
      && (BelowContainer(h, public, y) || BelowContainer(h, retained, y))
  }

  /** When the Interpretation check isolates: its disjoint sets leave open only what lies
      in or below a list or dictionary, and there sharing breaks the isolation. */
  lemma {:induction false} InterpretationIdsIsolateExactly(h: Heap, public: Id, retained: Id)
    requires Closed(h) && public in h && retained in h
    requires TrackedReach(h, false, public) !! TrackedReach(h, false, retained)
    ensures Isolated(h, public, retained) <==> !SharesBelowContainer(h, public, retained)
  {
    IsolationIsExact(h, public, retained);
    if SharesWritable(h, public, retained) {
      var y :| y in h && Writable(h[y]) && Reachable(h, true, public, y) && Reachable(h, true, retained, y);
      BeyondTheWalk(h, public, y);
      BeyondTheWalk(h, retained, y);
      if IsContainer(h, y) {
        ReachSelf(h, true, y);
      } else if Reachable(h, false, public, y) && Reachable(h, false, retained, y) {
        TrackedHas(h, false, public, y);
        TrackedHas(h, false, retained, y);
        assert false;
      }
    }
  }

  /** In particular it isolates when neither graph holds a list or a dictionary. */
  lemma {:induction false} InterpretationIdsIsolateWithoutContainers(h: Heap, public: Id, retained: Id)
    requires Closed(h) && public in h && retained in h
    requires TrackedReach(h, false, public) !! TrackedReach(h, false, retained)
    requires forall x, r :: r in {public, retained} && x in h && Reachable(h, true, r, x)
               ==> !h[x].kind.List? && !h[x].kind.Dict?
    ensures Isolated(h, public, retained)
  {
    InterpretationIdsIsolateExactly(h, public, retained);
  }

  lemma {:induction false} PrefixReached(h: Heap, p: seq<Id>, n: nat)
    requires IsPath(h, true, p) && n < |p|
    ensures Reachable(h, true, p[0], p[n])
  {
    assert IsPath(h, true, p[..n + 1]);
    assert p[..n + 1][0] == p[0] && p[..n + 1][n] == p[n];
  }

  // ---- What unchanged objects mean for the retained projection ----

  datatype Projection = Cut | Node(cell: Cell, parts: seq<Projection>)

  /** The retained value as a tree, cut at a depth. */
  function Project(h: Heap, x: Id, depth: nat): Projection
    decreases depth
  {
    if depth == 0 || x !in h then Cut
    else Node(h[x], seq(|Children(h, true, x)|, i requires 0 <= i < |Children(h, true, x)| =>
           Project(h, Children(h, true, x)[i], depth - 1)))
  }

  lemma {:induction false} ProjectionUnchanged(h: Heap, h': Heap, retained: Id, x: Id, depth: nat)
    requires Closed(h) && Unchanged(h, h', retained) && x in h && Reachable(h, true, retained, x)
    ensures Project(h', x, depth) == Project(h, x, depth)
    decreases depth
  {
    if depth > 0 {
      var c := Children(h, true, x);
      assert Children(h', true, x) == c;
      forall i | 0 <= i < |c| ensures Project(h', c[i], depth - 1) == Project(h, c[i], depth - 1) {
        ReachExtend(h, true, retained, x, c[i]);
        ProjectionUnchanged(h, h', retained, c[i], depth - 1);
      }
    }
  }

  /** A projection as deep as a path is long shows the object at its end. */
  lemma {:induction false} ProjectionShowsPath(h: Heap, h': Heap, p: seq<Id>)
    requires Closed(h) && IsPath(h, true, p) && p[|p| - 1] in h
    requires Project(h', p[0], |p|) == Project(h, p[0], |p|)
    ensures p[|p| - 1] in h' && h'[p[|p| - 1]] == h[p[|p| - 1]]
    decreases |p|
  {
    assert Project(h, p[0], |p|).Node?;
    assert p[0] in h' && h'[p[0]] == h[p[0]];
    if |p| > 1 {
      var rest, children := p[1..], Children(h, true, p[0]);
      assert Children(h', true, p[0]) == children;
      assert p[1] in children;
      var i :| 0 <= i < |children| && children[i] == p[1];
      assert Project(h, p[0], |p|).parts[i] == Project(h, p[1], |rest|);
      assert Project(h', p[0], |p|).parts[i] == Project(h', p[1], |rest|);
      forall j | 0 < j < |rest| ensures rest[j] in Children(h, true, rest[j - 1]) {
        assert rest[j] == p[j + 1] && rest[j - 1] == p[j];
      }
      ProjectionShowsPath(h, h', rest);
      assert rest[|rest| - 1] == p[|p| - 1];
    }
  }

  ghost predicate ProjectsAlike(h: Heap, h': Heap, x: Id) {
    forall depth: nat :: Project(h', x, depth) == Project(h, x, depth)
  }

  /** The projections of a value agree at every depth exactly when every object of its graph
      is as it was. */
  lemma {:induction false} ProjectionsAgreeExactly(h: Heap, h': Heap, retained: Id)
    requires Closed(h) && retained in h
    ensures ProjectsAlike(h, h', retained) <==> Unchanged(h, h', retained)
  {
    if Unchanged(h, h', retained) {
      ReachSelf(h, true, retained);
      forall depth: nat ensures Project(h', retained, depth) == Project(h, retained, depth) {
        ProjectionUnchanged(h, h', retained, retained, depth);
      }
    }
    if ProjectsAlike(h, h', retained) {
      forall x | x in h && Reachable(h, true, retained, x) ensures x in h' && h'[x] == h[x] {
        var p :| IsPath(h, true, p) && p[0] == retained && p[|p| - 1] == x;
        ProjectionShowsPath(h, h', p);
      }
    }
  }

  /** No allowed run of writes changes the retained projection at any depth. */
  lemma {:induction false} RetainedProjectionSurvives(h: Heap, public: Id, retained: Id, run: seq<Action>, depth: nat)
    requires Closed(h) && public in h && retained in h
    requires TrackedReach(h, true, public) !! TrackedReach(h, true, retained)
    requires AllowedRun(Handed(h, public), run)
    ensures Project(Perform(Handed(h, public), run).heap, retained, depth) == Project(h, retained, depth)
  {
    DisjointIdsIsolate(h, public, retained);
    ReachSelf(h, true, retained);
    ProjectionUnchanged(h, Perform(Handed(h, public), run).heap, retained, retained, depth);
  }
}
