/**
 A run of calls on the shape objects themselves. The session holds real handles on the heap; that
 every call changes them as the state machine of `Shapes` says carries the machine's theorems over
 to the objects.
 */
module ShapeSession {
  import opened Shapes

  datatype Ref = OwnerRef(owner: PyEdgeVectorShape) | ShapeRef(shape: PyShape) | IterRef(it: PyEdgeIter)

  ghost predicate Matches(r: Ref, h: Handle, cells: seq<SharedShape>)
    reads if r.IterRef? then {r.it} else {}
  {
    match h
    case Owner(c) => r.OwnerRef? && c < |cells| && r.owner.shared == cells[c]
    case View(c) => r.ShapeRef? && c < |cells| && r.shape.inner == EdgeVector(cells[c])
    case Frozen(k) => r.ShapeRef? && r.shape.inner == Fixed(k)
    case Iterator(es, i) => r.IterRef? && r.it.edges == es && r.it.idx == i
  }

  class Session {
    var refs: seq<Ref>
    ghost var cells: seq<SharedShape>
    ghost var iters: set<PyEdgeIter>
    ghost var model: State

    /** The objects are as the model says: cells in order of creation, one handle object for each handle. */
    ghost predicate Valid()
      reads this, cells, iters
    {
      && |cells| == |model.cells| && |refs| == |model.handles|
      && (forall c, d :: 0 <= c < d < |cells| ==> cells[c] != cells[d])
      && (forall c :: 0 <= c < |cells| ==> cells[c].contents == model.cells[c])
      && (forall h :: 0 <= h < |refs| && refs[h].IterRef? ==> refs[h].it in iters)
      && (forall h :: 0 <= h < |refs| ==> Matches(refs[h], model.handles[h], cells))
      && (forall g, h :: 0 <= g < h < |refs| && refs[g].IterRef? && refs[h].IterRef? ==> refs[g].it != refs[h].it)
    }

    constructor ()
      ensures Valid() && model == START && cells == [] && iters == {}
    {
      refs, cells, iters, model := [], [], {}, START;
    }

    /** What a handle shows is what the model shows. */
    method Show(h: nat) returns (c: Contents)
      requires Valid() && h < |refs| && !refs[h].IterRef?
      ensures c == Seen(model, h)
    {
      assert Matches(refs[h], model.handles[h], cells);
      match refs[h]
      case OwnerRef(o) => c := o.shared.contents;
      case ShapeRef(s) =>
        match s.inner {
          case Fixed(k) => c := k;
          case EdgeVector(shared) => c := shared.contents;
        }
    }

    method NewShape(es: seq<Edge>)
      requires Valid()
      modifies this
      ensures Valid() && model == Step(old(model), Call.NewShape(es)) && iters == old(iters)
      ensures forall c :: 0 <= c < |cells| && cells[c] !in old(cells) ==> fresh(cells[c])
    {
      var o := new PyEdgeVectorShape.FromEdges(es);
      AddOwner(o, es, POLYLINE);
    }

    /** A handle on a shape nobody else holds. */
    method AddOwner(o: PyEdgeVectorShape, es: seq<Edge>, dim: nat)
      requires Valid() && o.shared !in cells && o.shared.contents == Contents(es, dim)
      modifies this
      ensures Valid() && iters == old(iters) && cells == old(cells) + [o.shared]
      ensures model == State(old(model.cells) + [Contents(es, dim)], old(model.handles) + [Owner(|old(model.cells)|)])
    {
      refs, cells := refs + [OwnerRef(o)], cells + [o.shared];
      model := State(model.cells + [Contents(es, dim)], model.handles + [Owner(|model.cells|)]);
    }

    method AddShape(s: PyShape, ghost h: Handle)
      requires Valid() && Matches(ShapeRef(s), h, cells)
      modifies this`refs, this`model
      ensures Valid() && model == Push(old(model), h)
    {
      refs, model := refs + [ShapeRef(s)], Push(model, h);
    }

    method NewFixed(k: Contents)
      requires Valid()
      modifies this
      ensures Valid() && model == Step(old(model), Call.NewFixed(k)) && iters == old(iters) && cells == old(cells)
    {
      var s := new PyShape(Fixed(k));
      AddShape(s, Frozen(k));
    }

    method Add(h: nat, e: Edge)
      requires Valid()
      modifies this, cells
      ensures Valid() && model == Step(old(model), Call.Add(h, e)) && iters == old(iters) && cells == old(cells)
    {
      if h < |refs| {
        assert Matches(refs[h], model.handles[h], cells);
        if refs[h].OwnerRef? {
          refs[h].owner.Add(e.v0, e.v1);
          model := Step(model, Call.Add(h, e));
        }
      }
    }

    method SetDimension(h: nat, dim: nat)
      requires Valid()
      modifies this, cells
      ensures Valid() && model == Step(old(model), Call.SetDimension(h, dim)) && iters == old(iters) && cells == old(cells)
    {
      if h < |refs| {
        assert Matches(refs[h], model.handles[h], cells);
        if refs[h].OwnerRef? {
          var ok := refs[h].owner.SetDimension(dim);
          model := Step(model, Call.SetDimension(h, dim));
        }
      }
    }

    method AsShape(h: nat)
      requires Valid()
      modifies this
      ensures Valid() && model == Step(old(model), Call.AsShape(h)) && iters == old(iters) && cells == old(cells)
    {
      if h < |refs| {
        assert Matches(refs[h], model.handles[h], cells);
        if refs[h].OwnerRef? {
          var s := refs[h].owner.AsShape();
          AddShape(s, View(model.handles[h].cell));
        }
      }
    }

    method CopyOwner(h: nat)
      requires Valid()
      modifies this
      ensures Valid() && model == Step(old(model), Call.CopyOwner(h)) && iters == old(iters)
      ensures forall c :: 0 <= c < |cells| && cells[c] !in old(cells) ==> fresh(cells[c])
    {
      if h < |refs| {
        assert Matches(refs[h], model.handles[h], cells);
        if refs[h].OwnerRef? {
          var o := refs[h].owner.Copy();
          AddOwner(o, o.shared.contents.edges, o.shared.contents.dim);
        }
      }
    }

    method CopyShape(h: nat)
      requires Valid()
      modifies this
      ensures Valid() && model == Step(old(model), Call.CopyShape(h)) && iters == old(iters) && cells == old(cells)
    {
      if h < |refs| {
        assert Matches(refs[h], model.handles[h], cells);
        if refs[h].ShapeRef? {
          var s := refs[h].shape.Copy();
          AddShape(s, model.handles[h]);
        }
      }
    }

    method DeepCopyShape(h: nat)
      requires Valid()
      modifies this
      ensures Valid() && model == Step(old(model), Call.DeepCopyShape(h)) && iters == old(iters)
      ensures forall c :: 0 <= c < |cells| && cells[c] !in old(cells) ==> fresh(cells[c])
    {
      if h < |refs| {
        assert Matches(refs[h], model.handles[h], cells);
        if refs[h].ShapeRef? {
          var s := refs[h].shape.DeepCopy();
          if s.inner.EdgeVector? {
            AddView(s, s.inner.shared);
          } else {
            AddShape(s, model.handles[h]);
          }
        }
      }
    }

    /** A shape around a new edge vector. */
    method AddView(s: PyShape, shared: SharedShape)
      requires Valid() && shared !in cells && s.inner == EdgeVector(shared)
      modifies this
      ensures Valid() && iters == old(iters) && cells == old(cells) + [shared]
      ensures model == State(old(model.cells) + [shared.contents], old(model.handles) + [View(|old(model.cells)|)])
    {
      refs, cells := refs + [ShapeRef(s)], cells + [shared];
      model := State(model.cells + [shared.contents], model.handles + [View(|model.cells|)]);
    }

    method Iterate(h: nat)
      requires Valid()
      modifies this
      ensures Valid() && model == Step(old(model), Call.Iterate(h)) && cells == old(cells)
      ensures forall i :: i in iters && i !in old(iters) ==> fresh(i)
    {
      if h < |refs| {
        assert Matches(refs[h], model.handles[h], cells);
        if refs[h].OwnerRef? {
          var it := refs[h].owner.Iter();
          refs, iters := refs + [IterRef(it)], iters + {it};
          model := Step(model, Call.Iterate(h));
        }
      }
    }

    /** The edge handed out, if any, is the one the model yields. */
    method Next(h: nat) returns (yielded: seq<Edge>)
      requires Valid()
      modifies this, iters
      ensures Valid() && model == Step(old(model), Call.Next(h)) && iters == old(iters) && cells == old(cells)
      ensures yielded == Given(old(model), Call.Next(h), h)
    {
      yielded := [];
      if h < |refs| {
        assert Matches(refs[h], model.handles[h], cells);
        if refs[h].IterRef? {
          var some, e := refs[h].it.Next();
          yielded := if some then [e] else [];
          model := Step(model, Call.Next(h));
        }
      }
    }

    method Perform(call: Call) returns (yielded: seq<Edge>)
      requires Valid()
      modifies this, cells, iters
      ensures Valid() && model == Step(old(model), call)
      ensures call.Next? ==> yielded == Given(old(model), call, call.h)
      ensures forall c :: 0 <= c < |cells| && cells[c] !in old(cells) ==> fresh(cells[c])
      ensures forall i :: i in iters && i !in old(iters) ==> fresh(i)
    {
      hide Valid, Step;
      yielded := [];
      match call
      case NewShape(es) => NewShape(es);
      case NewFixed(c) => NewFixed(c);
      case Add(h, e) => Add(h, e);
      case SetDimension(h, dim) => SetDimension(h, dim);
      case AsShape(h) => AsShape(h);
      case CopyOwner(h) => CopyOwner(h);
      case CopyShape(h) => CopyShape(h);
      case DeepCopyShape(h) => DeepCopyShape(h);
      case Iterate(h) => Iterate(h);
      case Next(h) => yielded := Next(h);
    }
  }

  lemma {:induction false} RunNothing(it: nat)
    ensures Run(START, []) == START && Yielded(START, [], it) == []
  {
  }

  lemma {:induction false} RunNext(calls: seq<Call>, n: nat, it: nat)
    requires n < |calls|
    ensures Run(START, calls[..n + 1]) == Step(Run(START, calls[..n]), calls[n])
    ensures Yielded(START, calls[..n + 1], it)
         == Yielded(START, calls[..n], it) + Given(Run(START, calls[..n]), calls[n], it)
    ensures calls[n] != Call.Next(it) ==> Given(Run(START, calls[..n]), calls[n], it) == []
  {
    assert calls[..n + 1][..n] == calls[..n];
  }

  /**
   A whole run, on objects: it ends as the machine's run does, and what an iterator handle gave
   out along the way is what the machine says it yields.
   */
  method Replay(calls: seq<Call>, it: nat) returns (session: Session, yielded: seq<Edge>)
    ensures fresh(session) && session.Valid() && session.model == Run(START, calls)
    ensures yielded == Yielded(START, calls, it)
  {
    hide Step, Session.Valid, Yielded, Run;
    session := new Session();
    yielded := [];
    RunNothing(it);
    for n := 0 to |calls|
      invariant fresh(session) && session.Valid() && session.model == Run(START, calls[..n])
      invariant forall c :: 0 <= c < |session.cells| ==> fresh(session.cells[c])
      invariant forall i :: i in session.iters ==> fresh(i)
      invariant yielded == Yielded(START, calls[..n], it)
    {
      RunNext(calls, n, it);
      var given := session.Perform(calls[n]);
      if calls[n] == Call.Next(it) {
        yielded := yielded + given;
      }
    }
    assert calls[..|calls|] == calls;
  }
}
