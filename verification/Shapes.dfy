/**
 Python handles on edge-vector shapes: which of them share one mutable shape, which own a copy,
 and what an iterator holds on to, over every sequence of calls.
 */
module Shapes {
  type Point = int

  datatype Edge = Edge(v0: Point, v1: Point)

  /** What an edge vector shape holds. */
  datatype Contents = Contents(edges: seq<Edge>, dim: nat) {
    function WithEdge(e: Edge): Contents {
      Contents(edges + [e], dim)
    }

    function WithDimension(d: nat): Contents {
      Contents(edges, d)
    }
  }

  const POLYLINE: nat := 1

  // ----- the objects -----

  /** The shape behind the reference count and the lock. */
  class SharedShape {
    var contents: Contents

    constructor (c: Contents)
      ensures contents == c
    {
      contents := c;
    }
  }

  datatype ShapeKind = Fixed(contents: Contents) | EdgeVector(shared: SharedShape)

  class PyShape {
    const inner: ShapeKind

    constructor (kind: ShapeKind)
      ensures inner == kind
    {
      inner := kind;
    }

    ghost function Seen(): Contents
      reads this, if inner.EdgeVector? then {inner.shared} else {}
    {
      if inner.EdgeVector? then inner.shared.contents else inner.contents
    }

    /** A shallow copy holds the same shape. */
    method Copy() returns (s: PyShape)
      ensures fresh(s) && s.inner == inner
    {
      s := new PyShape(inner);
    }

    /** A deep copy of an edge vector holds a new shape with the present contents. */
    method DeepCopy() returns (s: PyShape)
      ensures fresh(s) && s.Seen() == Seen()
      ensures inner.Fixed? ==> s.inner == inner
      ensures inner.EdgeVector? ==> s.inner.EdgeVector? && fresh(s.inner.shared)
    {
      match inner
      case Fixed(c) =>
        s := new PyShape(Fixed(c));
      case EdgeVector(shared) =>
        var copy := new SharedShape(shared.contents);
        s := new PyShape(EdgeVector(copy));
    }
  }

  class PyEdgeVectorShape {
    const shared: SharedShape

    constructor FromEdges(edges: seq<Edge>)
      ensures fresh(shared) && shared.contents == Contents(edges, 1)
    {
      shared := new SharedShape(Contents(edges, POLYLINE));
    }

    constructor Holding(s: SharedShape)
      ensures shared == s
    {
      shared := s;
    }

    method Add(a: Point, b: Point)
      modifies shared
      ensures shared.contents == Contents(old(shared.contents.edges) + [Edge(a, b)], old(shared.contents.dim))
    {
      shared.contents := shared.contents.WithEdge(Edge(a, b));
    }

    /** Dimensions above 2 are refused and change nothing. */
    method SetDimension(dim: nat) returns (ok: bool)
      modifies shared
      ensures ok <==> dim <= 2
      ensures shared.contents == if ok then Contents(old(shared.contents.edges), dim) else old(shared.contents)
    {
      ok := dim <= 2;
      if ok {
        shared.contents := shared.contents.WithDimension(dim);
      }
    }

    method AsShape() returns (s: PyShape)
      ensures fresh(s) && s.inner == EdgeVector(shared)
    {
      s := new PyShape(EdgeVector(shared));
    }

    /** Both copies of an edge vector handle own a new shape. */
    method Copy() returns (c: PyEdgeVectorShape)
      ensures fresh(c) && fresh(c.shared) && c.shared.contents == shared.contents
    {
      var copy := new SharedShape(shared.contents);
      c := new PyEdgeVectorShape.Holding(copy);
    }

    /** Indexing from either end, as Python does. */
    method GetItem(i: int) returns (ok: bool, e: Edge)
      ensures ok <==> -|shared.contents.edges| <= i < |shared.contents.edges|
      ensures ok ==> e == shared.contents.edges[if i < 0 then |shared.contents.edges| + i else i]
    {
      var n := |shared.contents.edges|;
      var idx := if i < 0 then i + n else i;
      ok, e := false, Edge(0, 0);
      if !(idx < 0 || idx >= n) {
        ok, e := true, shared.contents.edges[idx];
      }
    }

    method Iter() returns (it: PyEdgeIter)
      ensures fresh(it) && it.edges == shared.contents.edges && it.idx == 0
    {
      it := new PyEdgeIter(shared.contents.edges);
    }
  }

  class PyEdgeIter {
    const edges: seq<Edge>
    var idx: nat

    constructor (es: seq<Edge>)
      ensures edges == es && idx == 0
    {
      edges, idx := es, 0;
    }

    /** The next edge of the snapshot, if any is left. */
    method Next() returns (some: bool, e: Edge)
      modifies this
      ensures some <==> old(idx) < |edges|
      ensures some ==> e == edges[old(idx)] && idx == old(idx) + 1
      ensures !some ==> idx == old(idx)
    {
      some, e := false, Edge(0, 0);
      if idx < |edges| {
        some, e := true, edges[idx];
        idx := idx + 1;
      }
    }
  }

  // ----- runs -----

  datatype Handle =
    | Owner(cell: nat)                       // PyEdgeVectorShape
    | View(cell: nat)                        // PyShape around an edge vector
    | Frozen(contents: Contents)             // PyShape around anything else
    | Iterator(edges: seq<Edge>, idx: nat)   // PyEdgeIter

  datatype State = State(cells: seq<Contents>, handles: seq<Handle>)

  datatype Call =
    | NewShape(es: seq<Edge>)
    | NewFixed(c: Contents)
    | Add(h: nat, e: Edge)
    | SetDimension(h: nat, dim: nat)
    | AsShape(h: nat)
    | CopyOwner(h: nat)
    | CopyShape(h: nat)
    | DeepCopyShape(h: nat)
    | Iterate(h: nat)
    | Next(h: nat)

  predicate IsOwner(s: State, h: nat) {
    h < |s.handles| && s.handles[h].Owner? && s.handles[h].cell < |s.cells|
  }

  predicate IsView(s: State, h: nat) {
    h < |s.handles| && s.handles[h].View? && s.handles[h].cell < |s.cells|
  }

  predicate IsIterator(s: State, h: nat) {
    h < |s.handles| && s.handles[h].Iterator?
  }

  function Update(s: State, h: nat, c: Contents): State
    requires IsOwner(s, h)
  {
    s.(cells := s.cells[s.handles[h].cell := c])
  }

  function Push(s: State, h: Handle): State {
    s.(handles := s.handles + [h])
  }

  /** One call; a call on a handle of the wrong type raises and changes nothing. */
  function Step(s: State, call: Call): State {
    match call
    case NewShape(es) => State(s.cells + [Contents(es, POLYLINE)], s.handles + [Owner(|s.cells|)])
    case NewFixed(c) => Push(s, Frozen(c))
    case Add(h, e) => if IsOwner(s, h) then Update(s, h, s.cells[s.handles[h].cell].WithEdge(e)) else s
    case SetDimension(h, dim) =>
      if IsOwner(s, h) && dim <= 2 then Update(s, h, s.cells[s.handles[h].cell].WithDimension(dim)) else s
    case AsShape(h) => if IsOwner(s, h) then Push(s, View(s.handles[h].cell)) else s
    case CopyOwner(h) =>
      if IsOwner(s, h) then State(s.cells + [s.cells[s.handles[h].cell]], s.handles + [Owner(|s.cells|)]) else s
    case CopyShape(h) =>
      if IsView(s, h) || (h < |s.handles| && s.handles[h].Frozen?) then Push(s, s.handles[h]) else s
    case DeepCopyShape(h) =>
      if IsView(s, h) then State(s.cells + [s.cells[s.handles[h].cell]], s.handles + [View(|s.cells|)])
      else if h < |s.handles| && s.handles[h].Frozen? then Push(s, s.handles[h])
      else s
    case Iterate(h) => if IsOwner(s, h) then Push(s, Iterator(s.cells[s.handles[h].cell].edges, 0)) else s
    case Next(h) =>
      if IsIterator(s, h) && s.handles[h].idx < |s.handles[h].edges|
      then s.(handles := s.handles[h := Iterator(s.handles[h].edges, s.handles[h].idx + 1)])
      else s
  }

  function Run(s: State, calls: seq<Call>): State {
    if calls == [] then s else Step(Run(s, calls[..|calls| - 1]), calls[|calls| - 1])
  }

  const START: State := State([], [])

  ghost predicate Valid(s: State) {
    forall h :: 0 <= h < |s.handles| && (s.handles[h].Owner? || s.handles[h].View?) ==> s.handles[h].cell < |s.cells|
  }

  predicate Mutable(h: Handle) {
    h.Owner? || h.View?
  }

  /** What a handle shows. */
  function Seen(s: State, h: nat): Contents {
    if h < |s.handles| && Mutable(s.handles[h]) && s.handles[h].cell < |s.cells| then s.cells[s.handles[h].cell]
    else if h < |s.handles| && s.handles[h].Frozen? then s.handles[h].contents
    else Contents([], 0)
  }

  lemma StepKeepsHandles(s: State, call: Call)
    requires Valid(s)
    ensures Valid(Step(s, call))
    ensures |s.handles| <= |Step(s, call).handles| <= |s.handles| + 1 && |s.cells| <= |Step(s, call).cells|
    ensures forall h :: 0 <= h < |s.handles| ==>
      || Step(s, call).handles[h] == s.handles[h]
      || (s.handles[h].Iterator? && Step(s, call).handles[h].Iterator? && Step(s, call).handles[h].edges == s.handles[h].edges)
  {
  }

  lemma {:induction false} RunKeepsHandles(s: State, calls: seq<Call>)
    requires Valid(s)
    ensures Valid(Run(s, calls)) && |s.handles| <= |Run(s, calls).handles| && |s.cells| <= |Run(s, calls).cells|
    ensures forall h :: 0 <= h < |s.handles| && !s.handles[h].Iterator? ==> Run(s, calls).handles[h] == s.handles[h]
  {
    if calls != [] {
      hide Step;
      RunKeepsHandles(s, calls[..|calls| - 1]);
      StepKeepsHandles(Run(s, calls[..|calls| - 1]), calls[|calls| - 1]);
    }
  }

  lemma {:induction false} RunIsValid(calls: seq<Call>)
    ensures Valid(Run(START, calls))
  {
    RunKeepsHandles(START, calls);
  }

  // ----- what a handle shows -----

  /** The handle a call is made on is of the right type, or the call needs none. */
  ghost predicate Accepted(s: State, call: Call) {
    match call
    case NewShape(_) => true
    case NewFixed(_) => true
    case CopyShape(h) => h < |s.handles| && (s.handles[h].View? || s.handles[h].Frozen?)
    case DeepCopyShape(h) => h < |s.handles| && (s.handles[h].View? || s.handles[h].Frozen?)
    case Next(h) => h < |s.handles| && s.handles[h].Iterator?
    case _ => call.h < |s.handles| && s.handles[call.h].Owner?
  }

  /** After any calls, one on a handle that is missing or of the wrong type changes nothing. */
  lemma {:induction false} RefusedChangesNothing(calls: seq<Call>, call: Call)
    requires !Accepted(Run(START, calls), call)
    ensures Step(Run(START, calls), call) == Run(START, calls)
  {
    hide Run;
    RunIsValid(calls);
  }

  /**
   The handle that a call makes, after any calls, is of the type the call returns; a new shape
   shows the given edges and dimension 1, and everything made from a handle shows what that shows.
   */
  lemma {:induction false} MadeShowsItsSource(calls: seq<Call>, call: Call)
    requires Accepted(Run(START, calls), call)
    ensures var s, t := Run(START, calls), Step(Run(START, calls), call);
      var n := |s.handles|;
      match call
      case NewShape(es) => |t.handles| == n + 1 && t.handles[n].Owner? && Seen(t, n) == Contents(es, 1)
      case NewFixed(c) => |t.handles| == n + 1 && t.handles[n].Frozen? && Seen(t, n) == c
      case AsShape(h) => |t.handles| == n + 1 && t.handles[n].View? && Seen(t, n) == Seen(s, h)
      case CopyOwner(h) => |t.handles| == n + 1 && t.handles[n].Owner? && Seen(t, n) == Seen(s, h)
      case CopyShape(h) =>
        |t.handles| == n + 1 && (t.handles[n].View? || t.handles[n].Frozen?) && Seen(t, n) == Seen(s, h)
      case DeepCopyShape(h) =>
        |t.handles| == n + 1 && (t.handles[n].View? || t.handles[n].Frozen?) && Seen(t, n) == Seen(s, h)
      case Iterate(h) => |t.handles| == n + 1 && t.handles[n] == Iterator(Seen(s, h).edges, 0)
      case _ => |t.handles| == n
  {
    hide Run;
    RunIsValid(calls);
  }

  /** Only `add` and `set_dimension` change what a handle at hand shows, and only on an edge vector. */
  lemma {:induction false} OthersShowTheSame(calls: seq<Call>, call: Call, h: nat)
    requires h < |Run(START, calls).handles|
    requires call.Add? || call.SetDimension? ==> Run(START, calls).handles[h].Frozen?
    ensures Seen(Step(Run(START, calls), call), h) == Seen(Run(START, calls), h)
  {
    hide Run;
    RunIsValid(calls);
  }

  // ----- who shares with whom -----

  /** The handle whose shape a call passes on, if it passes one on. */
  function PassedOn(s: State, call: Call): int {
    match call
    case AsShape(h) => if IsOwner(s, h) then h else -1
    case CopyShape(h) => if IsView(s, h) then h else -1
    case _ => -1
  }

  /** The family of each handle: `as_shape` and a shallow shape copy join their source's family. */
  function Families(calls: seq<Call>): (f: seq<nat>)
    decreases |calls|
  {
    if calls == [] then []
    else
      var before, s := Families(calls[..|calls| - 1]), Run(START, calls[..|calls| - 1]);
      var call := calls[|calls| - 1];
      if |Step(s, call).handles| == |s.handles| then before
      else if 0 <= PassedOn(s, call) < |before| then before + [before[PassedOn(s, call)]]
      else before + [|s.handles|]
  }

  /** Families, told from the calls alone, are exactly the sets of handles that share a shape. */
  ghost predicate SameCellIffFamily(s: State, f: seq<nat>) {
    && |f| == |s.handles| && (forall h :: 0 <= h < |f| ==> f[h] <= h)
    && forall g, h :: 0 <= g < |f| && 0 <= h < |f| && Mutable(s.handles[g]) && Mutable(s.handles[h]) ==>
         (s.handles[g].cell == s.handles[h].cell <==> f[g] == f[h])
  }

  lemma SharedNext(s: State, f: seq<nat>, call: Call)
    requires Valid(s) && SameCellIffFamily(s, f)
    ensures var t := Step(s, call);
      var from := PassedOn(s, call);
      && (|t.handles| == |s.handles| ==> SameCellIffFamily(t, f))
      && (|t.handles| != |s.handles| && 0 <= from < |f| ==> SameCellIffFamily(t, f + [f[from]]))
      && (|t.handles| != |s.handles| && !(0 <= from < |f|) ==> SameCellIffFamily(t, f + [|s.handles|]))
  {
    hide *;
    if |Step(s, call).handles| == |s.handles| {
      NoNewHandle(s, f, call);
    } else if 0 <= PassedOn(s, call) < |f| {
      PassedHandle(s, f, call);
    } else {
      OwnHandle(s, f, call);
    }
  }

  lemma NoNewHandle(s: State, f: seq<nat>, call: Call)
    requires Valid(s) && SameCellIffFamily(s, f) && |Step(s, call).handles| == |s.handles|
    ensures SameCellIffFamily(Step(s, call), f)
  {
  }

  /** A handle that is passed its source's cell. */
  lemma PassedHandle(s: State, f: seq<nat>, call: Call)
    requires Valid(s) && SameCellIffFamily(s, f) && |Step(s, call).handles| != |s.handles|
    requires 0 <= PassedOn(s, call) < |f|
    ensures SameCellIffFamily(Step(s, call), f + [f[PassedOn(s, call)]])
  {
  }

  /** A handle with a cell of its own, or with none. */
  lemma OwnHandle(s: State, f: seq<nat>, call: Call)
    requires Valid(s) && SameCellIffFamily(s, f) && |Step(s, call).handles| != |s.handles|
    requires !(0 <= PassedOn(s, call) < |f|)
    ensures SameCellIffFamily(Step(s, call), f + [|s.handles|])
  {
  }

  lemma {:induction false} SharedIffFamily(calls: seq<Call>)
    ensures Valid(Run(START, calls)) && SameCellIffFamily(Run(START, calls), Families(calls))
    decreases |calls|
  {
    if calls != [] {
      hide Step, PassedOn, SameCellIffFamily;
      var init := calls[..|calls| - 1];
      SharedIffFamily(init);
      StepKeepsHandles(Run(START, init), calls[|calls| - 1]);
      SharedNext(Run(START, init), Families(init), calls[|calls| - 1]);
      FamilySize(Run(START, init), Families(init));
    } else {
      assert SameCellIffFamily(START, []);
    }
  }

  lemma FamilySize(s: State, f: seq<nat>)
    requires SameCellIffFamily(s, f)
    ensures |f| == |s.handles|
  {
  }

  /**
   After any calls, adding an edge through one handle shows through another exactly when the two
   are of one family; every other handle keeps showing what it showed.
   */
  lemma {:induction false} AddShowsIffFamily(calls: seq<Call>, g: nat, h: nat, e: Edge)
    requires var s := Run(START, calls); g < |s.handles| && s.handles[g].Owner?
    requires var s := Run(START, calls); h < |s.handles| && (s.handles[h].Owner? || s.handles[h].View?)
    ensures g < |Families(calls)| && h < |Families(calls)|
    ensures var s := Run(START, calls);
      Seen(Step(s, Add(g, e)), h)
      == if Families(calls)[g] == Families(calls)[h] then Contents(Seen(s, h).edges + [e], Seen(s, h).dim) else Seen(s, h)
  {
    SharedIffFamily(calls);
  }

  /** The same for a change of dimension; one above 2 is refused and shows nowhere. */
  lemma {:induction false} DimensionShowsIffFamily(calls: seq<Call>, g: nat, h: nat, dim: nat)
    requires var s := Run(START, calls); g < |s.handles| && s.handles[g].Owner?
    requires var s := Run(START, calls); h < |s.handles| && (s.handles[h].Owner? || s.handles[h].View?)
    ensures g < |Families(calls)| && h < |Families(calls)|
    ensures var s := Run(START, calls);
      Seen(Step(s, SetDimension(g, dim)), h)
      == if dim <= 2 && Families(calls)[g] == Families(calls)[h] then Contents(Seen(s, h).edges, dim) else Seen(s, h)
  {
    SharedIffFamily(calls);
  }

  // ----- shapes nobody can change -----

  /** No edge-vector handle holds the cell. */
  ghost predicate Unowned(s: State, cell: nat) {
    cell < |s.cells| && forall h :: 0 <= h < |s.handles| && s.handles[h].Owner? ==> s.handles[h].cell != cell
  }

  lemma StepKeepsUnowned(s: State, call: Call, cell: nat)
    requires Valid(s) && Unowned(s, cell)
    ensures Unowned(Step(s, call), cell) && Step(s, call).cells[cell] == s.cells[cell]
  {
  }

  lemma {:induction false} RunKeepsUnowned(s: State, calls: seq<Call>, cell: nat)
    requires Valid(s) && Unowned(s, cell)
    ensures Unowned(Run(s, calls), cell) && Run(s, calls).cells[cell] == s.cells[cell]
  {
    if calls != [] {
      hide Step;
      RunKeepsHandles(s, calls[..|calls| - 1]);
      RunKeepsUnowned(s, calls[..|calls| - 1], cell);
      StepKeepsUnowned(Run(s, calls[..|calls| - 1]), calls[|calls| - 1], cell);
    }
  }

  /** A deep-copied shape shows, after any further calls, what its source showed when it was copied. */
  lemma {:induction false} DeepCopyNeverChanges(s: State, h: nat, calls: seq<Call>)
    requires Valid(s) && h < |s.handles| && (s.handles[h].View? || s.handles[h].Frozen?)
    ensures var t := Step(s, DeepCopyShape(h));
      |t.handles| == |s.handles| + 1 && Seen(Run(t, calls), |s.handles|) == Seen(s, h)
  {
    var t := Step(s, DeepCopyShape(h));
    StepKeepsHandles(s, DeepCopyShape(h));
    RunKeepsHandles(t, calls);
    if s.handles[h].View? {
      assert Unowned(t, |s.cells|);
      RunKeepsUnowned(t, calls, |s.cells|);
    }
  }

  // ----- iterators -----

  /** What a call of `next` on handle `h` returns: an edge, or nothing. */
  function Given(s: State, call: Call, h: nat): seq<Edge> {
    if call == Next(h) && IsIterator(s, h) && s.handles[h].idx < |s.handles[h].edges|
    then [s.handles[h].edges[s.handles[h].idx]] else []
  }

  /** What the calls of `next` on handle `h` return during a run. */
  function Yielded(s: State, calls: seq<Call>, h: nat): seq<Edge> {
    if calls == [] then []
    else Yielded(s, calls[..|calls| - 1], h) + Given(Run(s, calls[..|calls| - 1]), calls[|calls| - 1], h)
  }

  function NextCalls(calls: seq<Call>, h: nat): nat {
    if calls == [] then 0
    else NextCalls(calls[..|calls| - 1], h) + if calls[|calls| - 1] == Next(h) then 1 else 0
  }

  function Min(a: nat, b: nat): nat {
    if a < b then a else b
  }

  lemma {:induction false} IteratorState(s: State, calls: seq<Call>, it: nat, edges: seq<Edge>)
    requires Valid(s) && it < |s.handles| && s.handles[it] == Iterator(edges, 0)
    ensures it < |Run(s, calls).handles|
    ensures Run(s, calls).handles[it] == Iterator(edges, Min(NextCalls(calls, it), |edges|))
    ensures Yielded(s, calls, it) == edges[..Min(NextCalls(calls, it), |edges|)]
  {
    hide Step;
    if calls != [] {
      var init, call := calls[..|calls| - 1], calls[|calls| - 1];
      IteratorState(s, init, it, edges);
      IteratorStep(Run(s, init), call, it, edges, Min(NextCalls(init, it), |edges|));
    }
  }

  lemma IteratorStep(s: State, call: Call, it: nat, edges: seq<Edge>, i: nat)
    requires it < |s.handles| && s.handles[it] == Iterator(edges, i)
    ensures it < |Step(s, call).handles|
    ensures Step(s, call).handles[it] == Iterator(edges, if call == Next(it) && i < |edges| then i + 1 else i)
  {
  }

  /**
   An iterator yields exactly the edges that were present when it was made, in order, each once,
   whatever happens to the shape in the meantime.
   */
  lemma {:induction false} IteratorYieldsSnapshot(s: State, h: nat, calls: seq<Call>)
    requires Valid(s) && h < |s.handles| && s.handles[h].Owner?
    ensures var t := Step(s, Iterate(h));
      var edges := Seen(s, h).edges;
      Yielded(t, calls, |s.handles|) == edges[..Min(NextCalls(calls, |s.handles|), |edges|)]
  {
    StepKeepsHandles(s, Iterate(h));
    IteratorState(Step(s, Iterate(h)), calls, |s.handles|, Seen(s, h).edges);
  }
}
