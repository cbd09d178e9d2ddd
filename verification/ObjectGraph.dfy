/** The object graph that the governed services walk: Python objects with
    identity, shared or cyclic, seen at one moment. */
module ObjectGraph {
  /** The identity of one Python object. */
  type Id = int

  datatype Kind =
    | Scalar                 // str, bytes, int, bool, float, None, datetime, date, Decimal
    | EnumMember
    | Prices                 // HistoricalPriceSeries: storage compared as a whole
    | Tuple
    | List
    | Dict
    | Record(schema: nat)    // one dataclass type per schema number

  /** Outcome of the type-level checks that precede a first visit: native slots
      and string keys, or a layout that the visitor refuses. */
  datatype Layout = Native(descriptors: int) | Foreign

  /** One object: its type, layout, key identities and ordered edges. */
  datatype Cell = Cell(kind: Kind, layout: Layout, keys: seq<Id>, edges: seq<Id>, storage: int)

  type Heap = map<Id, Cell>

  /** Which edges a walk follows. `containers` is false for the walk that stops
      at lists and dictionaries. */
  predicate Follows(k: Kind, containers: bool) {
    k.Tuple? || k.Record? || (containers && (k.List? || k.Dict?))
  }

  function Children(h: Heap, containers: bool, x: Id): seq<Id> {
    if x in h && Follows(h[x].kind, containers) then h[x].edges else []
  }

  /** No dangling reference: Python keeps every referenced object alive. */
  ghost predicate Closed(h: Heap) {
    forall x, e :: x in h && e in h[x].edges ==> e in h
  }

  ghost predicate IsPath(h: Heap, containers: bool, p: seq<Id>) {
    && |p| > 0
    && p[0] in h
    && (forall i :: 0 < i < |p| ==> p[i] in Children(h, containers, p[i - 1]))
  }

  ghost predicate Reachable(h: Heap, containers: bool, x: Id, y: Id) {
    exists p :: IsPath(h, containers, p) && p[0] == x && p[|p| - 1] == y
  }

  ghost predicate ReachableFrom(h: Heap, containers: bool, roots: seq<Id>, y: Id) {
    exists r :: r in roots && Reachable(h, containers, r, y)
  }

  lemma {:induction false} ReachSelf(h: Heap, containers: bool, x: Id)
    requires x in h
    ensures Reachable(h, containers, x, x)
  {
    assert IsPath(h, containers, [x]);
  }

  lemma {:induction false} ReachExtend(h: Heap, containers: bool, x: Id, y: Id, z: Id)
    requires Reachable(h, containers, x, y) && z in Children(h, containers, y)
    ensures Reachable(h, containers, x, z)
  {
    var p :| IsPath(h, containers, p) && p[0] == x && p[|p| - 1] == y;
    var q := p + [z];
    assert IsPath(h, containers, q);
    assert q[0] == x && q[|q| - 1] == z;
  }

  lemma {:induction false} ReachPrepend(h: Heap, containers: bool, x: Id, y: Id, z: Id)
    requires x in h && y in Children(h, containers, x) && Reachable(h, containers, y, z)
    ensures Reachable(h, containers, x, z)
  {
    var p :| IsPath(h, containers, p) && p[0] == y && p[|p| - 1] == z;
    var q := [x] + p;
    forall i | 0 < i < |q| ensures q[i] in Children(h, containers, q[i - 1]) {
      if i > 1 { assert q[i] == p[i - 1] && q[i - 1] == p[i - 2]; }
    }
    assert IsPath(h, containers, q);
    assert q[0] == x && q[|q| - 1] == z;
  }

  /** Either the path is trivial or it leaves through a child of its start. */
  lemma {:induction false} ReachFirstStep(h: Heap, containers: bool, x: Id, z: Id) returns (y: Id)
    requires Reachable(h, containers, x, z) && x != z
    ensures y in Children(h, containers, x)
    ensures y in h ==> Reachable(h, containers, y, z)
  {
    var p :| IsPath(h, containers, p) && p[0] == x && p[|p| - 1] == z;
    assert |p| > 1;
    y := p[1];
    if y in h {
      var q := p[1..];
      forall i | 0 < i < |q| ensures q[i] in Children(h, containers, q[i - 1]) {
        assert q[i] == p[i + 1] && q[i - 1] == p[i];
      }
      assert IsPath(h, containers, q);
      assert q[0] == y && q[|q| - 1] == z;
    }
  }

  /** A set closed under the followed edges holds everything reachable from its members. */
  lemma {:induction false} ClosedSetHoldsPath(h: Heap, containers: bool, s: set<Id>, p: seq<Id>, n: nat)
    requires IsPath(h, containers, p) && p[0] in s && n < |p|
    requires forall x, e :: x in s && e in Children(h, containers, x) ==> e in s
    ensures p[n] in s
  {
    if n > 0 {
      ClosedSetHoldsPath(h, containers, s, p, n - 1);
      assert p[n] in Children(h, containers, p[n - 1]);
    }
  }

  /** Two heaps that agree on everything reachable from `x` have the same paths from `x`. */
  lemma {:induction false} AgreeingHeapsSharePath(h: Heap, h': Heap, containers: bool, p: seq<Id>, n: nat)
    requires IsPath(h, containers, p) && n < |p| && p[0] in h'
    requires forall y :: Reachable(h, containers, p[0], y)
               ==> Children(h', containers, y) == Children(h, containers, y)
    ensures IsPath(h', containers, p[..n + 1]) && Reachable(h, containers, p[0], p[n])
  {
    if n == 0 {
      ReachSelf(h, containers, p[0]);
    } else {
      AgreeingHeapsSharePath(h, h', containers, p, n - 1);
      ReachExtend(h, containers, p[0], p[n - 1], p[n]);
      assert p[..n + 1] == p[..n] + [p[n]];
    }
  }

  lemma {:induction false} AgreeingHeapsReach(h: Heap, h': Heap, containers: bool, x: Id, z: Id)
    requires x in h'
    requires forall y :: Reachable(h, containers, x, y)
               ==> Children(h', containers, y) == Children(h, containers, y)
    requires Reachable(h, containers, x, z)
    ensures Reachable(h', containers, x, z)
  {
    var p :| IsPath(h, containers, p) && p[0] == x && p[|p| - 1] == z;
    AgreeingHeapsSharePath(h, h', containers, p, |p| - 1);
    assert p[..|p|] == p;
  }
}
