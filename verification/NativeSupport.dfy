/** Capture of the retained support graph before any callback, and the later
    edge-by-edge comparison (the native support of one Interpretation
    transaction). */
module NativeSupport {
  import opened ObjectGraph

  /** One captured object: a strong reference to it and what was read from it. */
  datatype Captured = Captured(id: Id, cell: Cell)

  predicate Leaf(h: Heap, x: Id) {
    x in h && h[x].kind.Scalar?
  }

  /** The visitor raises on a foreign layout of anything but a leaf or a price series. */
  predicate Refused(h: Heap, x: Id) {
    x in h && !h[x].kind.Scalar? && !h[x].kind.Prices? && h[x].layout.Foreign?
  }

  /** What the second pass rereads from one live object. */
  predicate Matches(was: Cell, now: Cell) {
    && now.kind == was.kind
    && match was.kind
       case Record(_) => now.layout == was.layout && now.edges == was.edges
       case Tuple => now.edges == was.edges
       case List => now.edges == was.edges
       case Dict => now.keys == was.keys && now.edges == was.edges
       case EnumMember => now.storage == was.storage && now.keys == was.keys && now.edges == was.edges
       case Prices => now.storage == was.storage
       case Scalar => true
  }

  /** `caught` holds exactly the objects of `ids`, once each, as they were in `h`. */
  ghost predicate Records(h: Heap, caught: seq<Captured>, ids: set<Id>) {
    && (forall i :: 0 <= i < |caught| ==> caught[i].id in ids && caught[i].id in h && caught[i].cell == h[caught[i].id])
    && (forall i, j :: 0 <= i < j < |caught| ==> caught[i].id != caught[j].id)
    && (forall x :: x in ids ==> exists i :: 0 <= i < |caught| && caught[i].id == x)
  }

  ghost function Nodes(h: Heap, s: set<Id>): set<Id> {
    set x | x in s && x in h && !h[x].kind.Prices?
  }

  ghost function PriceSeries(h: Heap, s: set<Id>): set<Id> {
    set x | x in s && x in h && h[x].kind.Prices?
  }

  /** Everything but leaves that the roots reach. */
  ghost predicate InSupport(h: Heap, roots: seq<Id>, x: Id) {
    x in h && !Leaf(h, x) && ReachableFrom(h, true, roots, x)
  }

  /** What a complete capture of `h` from `roots` holds. */
  ghost predicate IsCapture(h: Heap, roots: seq<Id>, nodes: seq<Captured>, prices: seq<Captured>, s: set<Id>) {
    && (forall x :: x in s <==> InSupport(h, roots, x))
    && Records(h, nodes, Nodes(h, s))
    && Records(h, prices, PriceSeries(h, s))
  }

  /** What was visited since `before` hangs below `value`. */
  ghost predicate Below(h: Heap, value: Id, before: set<Id>, visited: set<Id>) {
    forall x :: x in visited && x !in before ==> Reachable(h, true, value, x)
  }

  /** The children of what was visited since `before` have been visited, leaves aside. */
  ghost predicate Covered(h: Heap, before: set<Id>, visited: set<Id>) {
    forall x, e :: x in visited && x !in before && e in Children(h, true, x) ==> Leaf(h, e) || e in visited
  }

  lemma {:induction false} BelowGrows(h: Heap, value: Id, child: Id, before: set<Id>, seen: set<Id>, visited: set<Id>)
    requires child in Children(h, true, value)
    requires Below(h, value, before, seen) && Below(h, child, seen, visited)
    ensures Below(h, value, before, visited)
  {
    forall x | x in visited && x !in before ensures Reachable(h, true, value, x) {
      if x !in seen { ReachPrepend(h, true, value, child, x); }
    }
  }

  class SupportVisitor {
    var nodes: seq<Captured>
    var prices: seq<Captured>
    var visited: set<Id>

    constructor ()
      ensures nodes == [] && prices == [] && visited == {}
    {
      nodes, prices, visited := [], [], {};
    }

    ghost predicate Valid(h: Heap)
      reads this
    {
      && (forall x :: x in visited ==> x in h && !Leaf(h, x) && !Refused(h, x))
      && Records(h, nodes, Nodes(h, visited))
      && Records(h, prices, PriceSeries(h, visited))
    }

    /** Record one object: price storage apart from the other nodes. */
    method Keep(h: Heap, value: Id)
      requires Valid(h) && value in h && value !in visited && !Leaf(h, value) && !Refused(h, value)
      modifies this
      ensures Valid(h) && visited == old(visited) + {value}
      ensures h[value].kind.Prices? ==> nodes == old(nodes) && prices == old(prices) + [Captured(value, h[value])]
      ensures !h[value].kind.Prices? ==> prices == old(prices) && nodes == old(nodes) + [Captured(value, h[value])]
    {
      ghost var before := visited;
      visited := visited + {value};
      if h[value].kind.Prices? {
        prices := prices + [Captured(value, h[value])];
        AddRecord(h, old(prices), PriceSeries(h, before), value);
        assert PriceSeries(h, visited) == PriceSeries(h, before) + {value};
        assert Nodes(h, visited) == Nodes(h, before);
      } else {
        nodes := nodes + [Captured(value, h[value])];
        AddRecord(h, old(nodes), Nodes(h, before), value);
        assert Nodes(h, visited) == Nodes(h, before) + {value};
        assert PriceSeries(h, visited) == PriceSeries(h, before);
      }
    }

    /** Depth-first visit of one value; `false` is the raised refusal. */
    method Visit(h: Heap, value: Id) returns (ok: bool)
      requires Closed(h) && value in h && Valid(h)
      modifies this
      ensures ok ==> Valid(h) && old(visited) <= visited
      ensures ok ==> Leaf(h, value) || value in visited
      ensures ok ==> Below(h, value, old(visited), visited) && Covered(h, old(visited), visited)
      ensures !ok ==> exists x :: Reachable(h, true, value, x) && Refused(h, x)
      decreases h.Keys - visited
    {
      ReachSelf(h, true, value);
      var cell := h[value];
      if cell.kind.Scalar? || value in visited {
        return true;
      }
      ghost var before := visited;
      if !cell.kind.Prices? && cell.layout.Foreign? {
        visited := visited + {value};
        return false;
      }
      Keep(h, value);
      if cell.kind.Prices? || !Follows(cell.kind, true) {
        return true;
      }
      var i := 0;
      while i < |cell.edges|
        invariant 0 <= i <= |cell.edges|
        invariant Valid(h) && before + {value} <= visited
        invariant forall k :: 0 <= k < i ==> Leaf(h, cell.edges[k]) || cell.edges[k] in visited
        invariant Below(h, value, before, visited)
        invariant Covered(h, before + {value}, visited)
      {
        ghost var seen := visited;
        var child := cell.edges[i];
        assert child in Children(h, true, value);
        ok := Visit(h, child);
        if !ok {
          ghost var x :| Reachable(h, true, child, x) && Refused(h, x);
          ReachPrepend(h, true, value, child, x);
          return;
        }
        BelowGrows(h, value, child, before, seen, visited);
        i := i + 1;
      }
      ok := true;
    }

    /** The complete capture: every root in turn. */
    method Capture(h: Heap, roots: seq<Id>) returns (ok: bool)
      requires Closed(h) && forall r :: r in roots ==> r in h
      requires nodes == [] && prices == [] && visited == {}
      modifies this
      ensures ok ==> IsCapture(h, roots, nodes, prices, visited)
      ensures ok <==> forall x :: ReachableFrom(h, true, roots, x) ==>
        x in h && (h[x].kind.Scalar? || h[x].kind.Prices? || h[x].layout.Native?)
    {
      assert Nodes(h, visited) == {} && PriceSeries(h, visited) == {};
      var i := 0;
      while i < |roots|
        invariant 0 <= i <= |roots| && Valid(h)
        invariant forall k :: 0 <= k < i ==> Leaf(h, roots[k]) || roots[k] in visited
        invariant forall x :: x in visited ==> ReachableFrom(h, true, roots, x)
        invariant forall x, e :: x in visited && e in Children(h, true, x) ==> Leaf(h, e) || e in visited
      {
        ghost var seen := visited;
        ok := Visit(h, roots[i]);
        if !ok {
          ghost var x :| Reachable(h, true, roots[i], x) && Refused(h, x);
          assert ReachableFrom(h, true, roots, x);
          return;
        }
        forall x | x in visited ensures ReachableFrom(h, true, roots, x) {
          if x !in seen { assert Reachable(h, true, roots[i], x); }
        }
        i := i + 1;
      }
      VisitedIsSupport(h, roots, visited);
      ok := true;
    }
  }

  lemma {:induction false} AddRecord(h: Heap, caught: seq<Captured>, ids: set<Id>, x: Id)
    requires Records(h, caught, ids) && x !in ids && x in h
    ensures Records(h, caught + [Captured(x, h[x])], ids + {x})
  {
    var more := caught + [Captured(x, h[x])];
    forall y | y in ids + {x} ensures exists i :: 0 <= i < |more| && more[i].id == y {
      if y == x {
        assert more[|caught|].id == y;
      } else {
        var i :| 0 <= i < |caught| && caught[i].id == y;
        assert more[i].id == y;
      }
    }
  }

  /** A visited set that holds the roots and is closed, leaves aside, holds the whole support. */
  lemma {:induction false} VisitedIsSupport(h: Heap, roots: seq<Id>, s: set<Id>)
    requires Closed(h)
    requires forall r :: r in roots ==> r in h && (Leaf(h, r) || r in s)
    requires forall x :: x in s ==> x in h && !Leaf(h, x) && ReachableFrom(h, true, roots, x)
    requires forall x, e :: x in s && e in Children(h, true, x) ==> Leaf(h, e) || e in s
    ensures forall x :: x in s <==> InSupport(h, roots, x)
    ensures forall x :: ReachableFrom(h, true, roots, x) ==> x in s || Leaf(h, x)
  {
    var all := s + set x | x in h && Leaf(h, x);
    forall x | ReachableFrom(h, true, roots, x) ensures x in s || Leaf(h, x) {
      var r :| r in roots && Reachable(h, true, r, x);
      var p :| IsPath(h, true, p) && p[0] == r && p[|p| - 1] == x;
      ClosedSetHoldsPath(h, true, all, p, |p| - 1);
    }
  }

  /** `t` holds the roots, plain scalars aside. */
  predicate HoldsRoots(h: Heap, roots: seq<Id>, t: set<Id>) {
    forall r :: r in roots && r in h && !h[r].kind.Scalar? ==> r in t
  }

  predicate RefersTo(h: Heap, x: Id, e: Id) {
    x in h && (h[x].kind.Record? || h[x].kind.Tuple? || h[x].kind.List? || h[x].kind.Dict?) && e in h[x].edges
  }

  /** With a record, tuple, list or dictionary it holds all that this refers to. */
  predicate HoldsEdges(h: Heap, t: set<Id>) {
    forall x, e :: x in t && RefersTo(h, x, e) && e in h && !h[e].kind.Scalar? ==> e in t
  }

  /** The support is the least such set. */
  lemma {:induction false} SupportIsLeast(h: Heap, roots: seq<Id>, s: set<Id>)
    requires Closed(h) && (forall r :: r in roots ==> r in h) && (forall x :: x in s <==> InSupport(h, roots, x))
    ensures HoldsRoots(h, roots, s) && HoldsEdges(h, s)
    ensures forall t: set<Id> :: HoldsRoots(h, roots, t) && HoldsEdges(h, t) ==> s <= t
  {
    forall r | r in roots ensures ReachableFrom(h, true, roots, r) { ReachSelf(h, true, r); }
    forall x, e | x in s && RefersTo(h, x, e) ensures ReachableFrom(h, true, roots, e) {
      assert e in Children(h, true, x);
      var r :| r in roots && Reachable(h, true, r, x);
      ReachExtend(h, true, r, x, e);
    }
    forall t: set<Id>, x | HoldsRoots(h, roots, t) && HoldsEdges(h, t) && x in s ensures x in t {
      SupportIsHeld(h, roots, t, x);
    }
  }

  lemma {:induction false} SupportIsHeld(h: Heap, roots: seq<Id>, t: set<Id>, x: Id)
    requires Closed(h) && (forall r :: r in roots ==> r in h) && InSupport(h, roots, x)
    requires HoldsRoots(h, roots, t) && HoldsEdges(h, t)
    ensures x in t
  {
    var scalars := set y | y in h && h[y].kind.Scalar?;
    var inside := (set y | y in t && y in h) + scalars;
    forall y, e | y in inside && e in Children(h, true, y) ensures e in inside {
      assert RefersTo(h, y, e);
    }
    var r :| r in roots && Reachable(h, true, r, x);
    var p :| IsPath(h, true, p) && p[0] == r && p[|p| - 1] == x;
    ClosedSetHoldsPath(h, true, inside, p, |p| - 1);
  }

  /** The second pass: reread every captured object from the live heap. The
      captured tuples pin the objects, so each still exists. */
  method Compare(live: Heap, nodes: seq<Captured>, prices: seq<Captured>) returns (ok: bool)
    requires forall i :: 0 <= i < |nodes| ==> nodes[i].id in live
    requires forall i :: 0 <= i < |prices| ==> prices[i].id in live
    ensures ok <==> && (forall i :: 0 <= i < |nodes| ==> Matches(nodes[i].cell, live[nodes[i].id]))
                    && (forall i :: 0 <= i < |prices| ==> Matches(prices[i].cell, live[prices[i].id]))
  {
    for i := 0 to |nodes|
      invariant forall k :: 0 <= k < i ==> Matches(nodes[k].cell, live[nodes[k].id])
    {
      if !Matches(nodes[i].cell, live[nodes[i].id]) { return false; }
    }
    for i := 0 to |prices|
      invariant forall k :: 0 <= k < i ==> Matches(prices[k].cell, live[prices[k].id])
    {
      if !Matches(prices[i].cell, live[prices[i].id]) { return false; }
    }
    return true;
  }

  /** A heap that may follow the capture: what the roots reached stays alive,
      pinned by the captured tuples, and an exact scalar remains a scalar. All
      other objects may have changed, vanished or appeared. */
  ghost predicate Later(h: Heap, roots: seq<Id>, live: Heap) {
    && Closed(live)
    && forall x :: ReachableFrom(h, true, roots, x) ==> x in live && (Leaf(h, x) ==> Leaf(live, x))
  }

  ghost predicate Accepts(live: Heap, nodes: seq<Captured>, prices: seq<Captured>) {
    && (forall i :: 0 <= i < |nodes| ==> nodes[i].id in live && Matches(nodes[i].cell, live[nodes[i].id]))
    && (forall i :: 0 <= i < |prices| ==> prices[i].id in live && Matches(prices[i].cell, live[prices[i].id]))
  }

  /** The comparison accepts a later heap exactly when no supported object that
      the roots reached has changed type, layout, keys, ordered edges or storage. */
  lemma {:induction false} ComparisonIsExact(h: Heap, roots: seq<Id>, nodes: seq<Captured>, prices: seq<Captured>, s: set<Id>, live: Heap)
    requires IsCapture(h, roots, nodes, prices, s) && Later(h, roots, live)
    ensures Accepts(live, nodes, prices) <==>
      forall x :: InSupport(h, roots, x) ==>
        && live[x].kind == h[x].kind
        && (h[x].kind.Record? ==> live[x].layout == h[x].layout && live[x].edges == h[x].edges)
        && (h[x].kind.Tuple? || h[x].kind.List? ==> live[x].edges == h[x].edges)
        && (h[x].kind.Dict? ==> live[x].keys == h[x].keys && live[x].edges == h[x].edges)
        && (h[x].kind.EnumMember? ==>
              live[x].storage == h[x].storage && live[x].keys == h[x].keys && live[x].edges == h[x].edges)
        && (h[x].kind.Prices? ==> live[x].storage == h[x].storage)
  {
    AcceptanceIsPointwise(h, roots, nodes, prices, s, live);
    forall x | InSupport(h, roots, x) ensures x in live {
      assert ReachableFrom(h, true, roots, x);
    }
  }

  lemma {:induction false} AcceptanceIsPointwise(h: Heap, roots: seq<Id>, nodes: seq<Captured>,
      prices: seq<Captured>, s: set<Id>, live: Heap)
    requires IsCapture(h, roots, nodes, prices, s) && Later(h, roots, live)
    ensures Accepts(live, nodes, prices)
       <==> forall x :: InSupport(h, roots, x) ==> Matches(h[x], live[x])
  {
    if Accepts(live, nodes, prices) {
      forall x | InSupport(h, roots, x) ensures Matches(h[x], live[x]) {
        assert x in s;
        if h[x].kind.Prices? {
          assert x in PriceSeries(h, s);
          var i :| 0 <= i < |prices| && prices[i].id == x;
          assert prices[i].cell == h[x];
        } else {
          assert x in Nodes(h, s);
          var i :| 0 <= i < |nodes| && nodes[i].id == x;
          assert nodes[i].cell == h[x];
        }
      }
    }
  }

  /** Accepted means the whole retained graph is intact: the same supported
      objects are reachable, none added or lost, and each has the same type and what that
      type retains: layout and fields of a record, ordered members of a sequence, keys and
      values of a dictionary, all of an enum member, the storage of a price series. */
  lemma {:induction false} AcceptedGraphIsIntact(h: Heap, roots: seq<Id>, nodes: seq<Captured>,
      prices: seq<Captured>, s: set<Id>, live: Heap)
    requires Closed(h) && (forall r :: r in roots ==> r in h)
    requires IsCapture(h, roots, nodes, prices, s) && Later(h, roots, live)
    requires Accepts(live, nodes, prices)
    ensures forall x :: InSupport(h, roots, x) <==> InSupport(live, roots, x)
    ensures forall x :: InSupport(live, roots, x) ==>
      && x in h && live[x].kind == h[x].kind && Children(live, true, x) == Children(h, true, x)
      && (h[x].kind.Record? ==> live[x].layout == h[x].layout && live[x].edges == h[x].edges)
      && (h[x].kind.Tuple? || h[x].kind.List? ==> live[x].edges == h[x].edges)
      && (h[x].kind.Dict? ==> live[x].keys == h[x].keys && live[x].edges == h[x].edges)
      && (h[x].kind.EnumMember? ==>
            live[x].storage == h[x].storage && live[x].keys == h[x].keys && live[x].edges == h[x].edges)
      && (h[x].kind.Prices? ==> live[x].storage == h[x].storage)
  {
    ComparisonIsExact(h, roots, nodes, prices, s, live);
    AcceptedReachesTheSame(h, roots, nodes, prices, s, live);
  }

  lemma {:induction false} AcceptedReachesTheSame(h: Heap, roots: seq<Id>, nodes: seq<Captured>,
      prices: seq<Captured>, s: set<Id>, live: Heap)
    requires Closed(h) && (forall r :: r in roots ==> r in h)
    requires IsCapture(h, roots, nodes, prices, s) && Later(h, roots, live)
    requires Accepts(live, nodes, prices)
    ensures forall x :: InSupport(h, roots, x) <==> InSupport(live, roots, x)
    ensures forall x :: InSupport(h, roots, x) ==> x in live && Children(live, true, x) == Children(h, true, x)
  {
    AcceptanceIsPointwise(h, roots, nodes, prices, s, live);
    forall r | r in roots ensures r in live { ReachSelf(h, true, r); }
    forall r, y | r in roots && Reachable(h, true, r, y) ensures Children(live, true, y) == Children(h, true, y) {
      ReachedIsPresent(h, r, y);
      assert ReachableFrom(h, true, roots, y);
      if !Leaf(h, y) { assert InSupport(h, roots, y); }
    }
    forall x | InSupport(h, roots, x) ensures InSupport(live, roots, x) {
      var r :| r in roots && Reachable(h, true, r, x);
      AgreeingHeapsReach(h, live, true, r, x);
    }
    forall x | InSupport(live, roots, x) ensures InSupport(h, roots, x) {
      var r :| r in roots && Reachable(live, true, r, x);
      forall y | Reachable(live, true, r, y) ensures Children(h, true, y) == Children(live, true, y) {
        LiveReachIsOld(h, live, r, y);
      }
      AgreeingHeapsReach(live, h, true, r, x);
      ReachedIsPresent(h, r, x);
    }
  }

  lemma {:induction false} ReachedIsPresent(h: Heap, r: Id, y: Id)
    requires Closed(h) && Reachable(h, true, r, y)
    ensures y in h
  {
    var p :| IsPath(h, true, p) && p[0] == r && p[|p| - 1] == y;
    ClosedSetHoldsPath(h, true, h.Keys, p, |p| - 1);
  }

  /** Along a live path every step was already a step when captured. */
  lemma {:induction false} LiveReachIsOld(h: Heap, live: Heap, r: Id, y: Id)
    requires Closed(h) && r in h && Reachable(live, true, r, y)
    requires forall z :: Reachable(h, true, r, z) ==> Children(live, true, z) == Children(h, true, z)
    ensures Reachable(h, true, r, y)
  {
    var p :| IsPath(live, true, p) && p[0] == r && p[|p| - 1] == y;
    LivePathIsOld(h, live, p, |p| - 1);
  }

  lemma {:induction false} LivePathIsOld(h: Heap, live: Heap, p: seq<Id>, n: nat)
    requires Closed(h) && IsPath(live, true, p) && p[0] in h && n < |p|
    requires forall z :: Reachable(h, true, p[0], z) ==> Children(live, true, z) == Children(h, true, z)
    ensures Reachable(h, true, p[0], p[n])
  {
    if n == 0 {
      ReachSelf(h, true, p[0]);
    } else {
      LivePathIsOld(h, live, p, n - 1);
      assert p[n] in Children(live, true, p[n - 1]);
      ReachExtend(h, true, p[0], p[n - 1], p[n]);
    }
  }
}
