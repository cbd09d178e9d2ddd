/** The dataclasses of an Interpretation result, field by field, as a predicate on heaps:
    what the identity check on public copies is applied to. */
module InterpretationSchema {
  import opened ObjectGraph
  import opened CopyIsolation

  datatype Class =
    | Result | Content | Request | ArtifactReference | Policy | Configuration
    | Comparison | Operand | Instrument | Trading

  /** What one field may hold. `Plain` is a string, a number, a bool or a datetime. */
  datatype Shape = Plain | PlainTuple | ComparisonTuple | Instance(record: Class)

  function SchemaOf(c: Class): nat {
    match c
    case Result => 0
    case Content => 1
    case Request => 2
    case ArtifactReference => 3
    case Policy => 4
    case Configuration => 5
    case Comparison => 6
    case Operand => 7
    case Instrument => 8
    case Trading => 9
  }

  function PlainFields(n: nat): (fields: seq<Shape>)
    ensures |fields| == n && forall i :: 0 <= i < n ==> fields[i].Plain?
  {
    seq(n, _ => Plain)
  }

  /** The fields in their declared order. */
  function Fields(c: Class): seq<Shape> {
    match c
    case Result => [Instance(Content)] + PlainFields(8)
    case Content =>
      [Instance(Request), Instance(Instrument), Instance(Trading)] + PlainFields(4)
      + [Instance(Policy), Plain, PlainTuple] + PlainFields(4) + [ComparisonTuple] + PlainFields(2)
    case Request => [Instance(ArtifactReference)] + PlainFields(4)
    case ArtifactReference => PlainFields(7)
    case Policy => PlainFields(4) + [Instance(Configuration)] + PlainFields(2)
    case Configuration => PlainFields(6)
    case Comparison => [Plain, Instance(Operand), Plain, Instance(Operand), Plain]
    case Operand => PlainFields(3)
    case Instrument => PlainFields(1)
    case Trading => PlainFields(4)
  }

  function Height(s: Shape): nat {
    match s
    case Plain => 0
    case PlainTuple => 1
    case ComparisonTuple => 3
    case Instance(c) =>
      match c
      case Result => 5
      case Content => 4
      case Request => 2
      case Policy => 2
      case Comparison => 2
      case _ => 1
  }

  lemma {:induction false} FieldsAreLower(c: Class, i: nat)
    requires i < |Fields(c)|
    ensures Height(Fields(c)[i]) < Height(Instance(c))
  {
  }

  /** The object is laid out as the schema declares. */
  ghost predicate Typed(h: Heap, x: Id, s: Shape)
    decreases Height(s)
  {
    x in h &&
    match s
    case Plain => h[x].kind.Scalar?
    case PlainTuple => h[x].kind.Tuple? && forall i :: 0 <= i < |h[x].edges| ==> Typed(h, h[x].edges[i], Plain)
    case ComparisonTuple =>
      h[x].kind.Tuple? && forall i :: 0 <= i < |h[x].edges| ==> Typed(h, h[x].edges[i], Instance(Comparison))
    case Instance(c) =>
      && h[x].kind == Record(SchemaOf(c)) && |h[x].edges| == |Fields(c)|
      && forall i :: 0 <= i < |h[x].edges| ==>
           assert Height(Fields(c)[i]) < Height(s) by { FieldsAreLower(c, i); }
           Typed(h, h[x].edges[i], Fields(c)[i])
  }

  /** Everything below a typed object is typed. */
  lemma {:induction false} PathIsTyped(h: Heap, p: seq<Id>, n: nat, s: Shape) returns (shape: Shape)
    requires IsPath(h, true, p) && n < |p| && Typed(h, p[0], s)
    ensures Typed(h, p[n], shape)
  {
    if n == 0 {
      shape := s;
    } else {
      var above := PathIsTyped(h, p, n - 1, s);
      assert p[n] in Children(h, true, p[n - 1]);
      var i :| 0 <= i < |h[p[n - 1]].edges| && h[p[n - 1]].edges[i] == p[n];
      match above
      case PlainTuple => shape := Plain;
      case ComparisonTuple => shape := Instance(Comparison);
      case Instance(c) => shape := Fields(c)[i];
    }
  }

  lemma {:induction false} TypedHasNoContainer(h: Heap, r: Id, y: Id, s: Shape)
    requires Typed(h, r, s) && Reachable(h, true, r, y)
    ensures !IsContainer(h, y)
  {
    var p :| IsPath(h, true, p) && p[0] == r && p[|p| - 1] == y;
    var shape := PathIsTyped(h, p, |p| - 1, s);
  }

  lemma {:induction false} TypedRecordHasFields(h: Heap, y: Id, s: Shape)
    requires Typed(h, y, s) && h[y].kind.Record?
    ensures |h[y].edges| > 0
  {
    match s
    case Instance(c) =>
      assert |Fields(c)| > 0;
    case _ =>
      assert false;
  }

  lemma {:induction false} SharedRecordIsWritable(h: Heap, public: Id, retained: Id, y: Id)
    requires Typed(h, public, Instance(Result))
    requires y in TrackedReach(h, false, public) && y in TrackedReach(h, false, retained)
    ensures SharesWritable(h, public, retained)
  {
    var p :| IsPath(h, false, p) && p[0] == public && p[|p| - 1] == y;
    var q :| IsPath(h, false, q) && q[0] == retained && q[|q| - 1] == y;
    WiderPath(h, p);
    WiderPath(h, q);
    var shape := PathIsTyped(h, p, |p| - 1, Instance(Result));
    TypedRecordHasFields(h, y, shape);
    assert Writable(h[y]) && Reachable(h, true, public, y) && Reachable(h, true, retained, y);
  }

  lemma {:induction false} WiderPath(h: Heap, p: seq<Id>)
    requires IsPath(h, false, p)
    ensures IsPath(h, true, p)
  {
    forall i | 0 < i < |p| ensures p[i] in Children(h, true, p[i - 1]) {
      assert p[i] in Children(h, false, p[i - 1]);
    }
  }

  /** The Interpretation check on the results it is applied to: it accepts a public copy
      exactly when no run of caller writes can alter the retained result. */
  lemma {:induction false} InterpretationCheckIsExact(h: Heap, public: Id, retained: Id)
    requires Closed(h) && Typed(h, public, Instance(Result)) && Typed(h, retained, Instance(Result))
    ensures TrackedReach(h, false, public) !! TrackedReach(h, false, retained) <==> Isolated(h, public, retained)
  {
    IsolationIsExact(h, public, retained);
    if TrackedReach(h, false, public) !! TrackedReach(h, false, retained) {
      forall c, r | r in {public, retained} && Reachable(h, true, r, c) ensures !IsContainer(h, c) {
        TypedHasNoContainer(h, r, c, Instance(Result));
      }
      InterpretationIdsIsolateWithoutContainers(h, public, retained);
    } else {
      var y :| y in TrackedReach(h, false, public) && y in TrackedReach(h, false, retained);
      SharedRecordIsWritable(h, public, retained, y);
    }
  }

  // ---- A result laid out so ----

  /** One object per shape. */
  function SampleId(s: Shape): Id {
    match s
    case Plain => 1
    case PlainTuple => 2
    case ComparisonTuple => 3
    case Instance(c) => 10 + SchemaOf(c)
  }

  function SampleCell(s: Shape): Cell {
    match s
    case Plain => Cell(Scalar, Native(0), [], [], 0)
    case PlainTuple => Cell(Tuple, Native(0), [], [SampleId(Plain)], 0)
    case ComparisonTuple => Cell(Tuple, Native(0), [], [SampleId(Instance(Comparison))], 0)
    case Instance(c) =>
      Cell(Record(SchemaOf(c)), Native(0), [], seq(|Fields(c)|, i requires 0 <= i < |Fields(c)| => SampleId(Fields(c)[i])), 0)
  }

  const SHAPES: seq<Shape> := [
    Plain, PlainTuple, ComparisonTuple, Instance(Result), Instance(Content), Instance(Request), Instance(ArtifactReference),
    Instance(Policy), Instance(Configuration), Instance(Comparison), Instance(Operand), Instance(Instrument), Instance(Trading)]

  ghost predicate IsSample(h: Heap) {
    forall s: Shape :: SampleId(s) in h && h[SampleId(s)] == SampleCell(s)
  }

  /** No two classes have one schema number. */
  lemma {:induction false} SchemasDiffer(c: Class, d: Class)
    ensures SchemaOf(c) == SchemaOf(d) <==> c == d
  {
  }

  lemma {:induction false} SampleIdsDiffer(s: Shape, t: Shape)
    ensures SampleId(s) == SampleId(t) <==> s == t
  {
    if s.Instance? && t.Instance? { SchemasDiffer(s.record, t.record); }
  }

  lemma {:induction false} SampleIsTyped(h: Heap, s: Shape)
    requires IsSample(h)
    ensures Typed(h, SampleId(s), s)
    decreases Height(s)
  {
    assert SampleId(s) in h && h[SampleId(s)] == SampleCell(s);
    match s
    case Plain =>
    case PlainTuple => SampleIsTyped(h, Plain);
    case ComparisonTuple => SampleIsTyped(h, Instance(Comparison));
    case Instance(c) =>
      forall i | 0 <= i < |Fields(c)| ensures Typed(h, h[SampleId(s)].edges[i], Fields(c)[i]) {
        FieldsAreLower(c, i);
        SampleIsTyped(h, Fields(c)[i]);
      }
  }

  function SampleHeap(shapes: seq<Shape>): Heap {
    if shapes == [] then map[]
    else SampleHeap(shapes[1..])[SampleId(shapes[0]) := SampleCell(shapes[0])]
  }

  lemma {:induction false} SampleHeapHolds(shapes: seq<Shape>, i: nat)
    requires i < |shapes|
    ensures SampleId(shapes[i]) in SampleHeap(shapes) && SampleHeap(shapes)[SampleId(shapes[i])] == SampleCell(shapes[i])
  {
    SampleIdsDiffer(shapes[i], shapes[0]);
    if i > 0 { SampleHeapHolds(shapes[1..], i - 1); }
  }

  /** There are such heaps, and results on them. */
  lemma {:induction false} SampleExists() returns (h: Heap)
    ensures IsSample(h) && Typed(h, SampleId(Instance(Result)), Instance(Result))
  {
    h := SampleHeap(SHAPES);
    forall s: Shape ensures SampleId(s) in h && h[SampleId(s)] == SampleCell(s) {
      var i := ShapeAt(s);
      SampleHeapHolds(SHAPES, i);
    }
    SampleIsTyped(h, Instance(Result));
  }

  lemma {:induction false} ShapeAt(s: Shape) returns (i: nat)
    ensures i < |SHAPES| && SHAPES[i] == s
  {
    i := match s
      case Plain => 0
      case PlainTuple => 1
      case ComparisonTuple => 2
      case Instance(c) => 3 + SchemaOf(c);
  }
}
