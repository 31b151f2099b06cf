/**
 `Polygon::invert`: the complement of a depth-first polygon, by turning one outermost loop inside
 out and moving its siblings below it and its children up.
 */
module PolygonInvert {
  import opened ShellStack
  import opened Regions

  /** Loop interiors under inversion, and the loop of the whole sphere. */
  datatype Inversion<!R> = Inversion(flip: R -> R, full: R, isFull: R -> bool)

  ghost predicate TurnsOver<R, P>(inside: Interior<R, P>, inv: Inversion<R>, r: R, p: P) {
    inside(inv.flip(r), p) <==> !inside(r, p)
  }

  ghost predicate Complements<R(!new), P(!new)>(inside: Interior<R, P>, inv: Inversion<R>) {
    && (forall r, p :: TurnsOver(inside, inv, r, p))
    && (forall p :: inside(inv.full, p))
    && forall r, p :: inv.isFull(r) ==> inside(r, p)
  }

  /** An interval of integers, or everything outside one. */
  datatype Arc = Arc(lo: int, hi: int, outside: bool)

  /** Arcs under complement are such a family. */
  lemma ArcsComplement()
    ensures Complements((r: Arc, p: int) => (r.lo <= p < r.hi) != r.outside,
              Inversion((r: Arc) => r.(outside := !r.outside), Arc(0, 0, true), (r: Arc) => r.outside && r.hi <= r.lo))
  {
    var inside: Interior<Arc, int> := (r: Arc, p: int) => (r.lo <= p < r.hi) != r.outside;
    var inv := Inversion((r: Arc) => r.(outside := !r.outside), Arc(0, 0, true), (r: Arc) => r.outside && r.hi <= r.lo);
    assert Complements(inside, inv);
  }

  function Shift<R>(items: seq<Item<R>>, delta: int): (out: seq<Item<R>>)
    ensures |out| == |items|
  {
    seq(|items|, i requires 0 <= i < |items| => Item(items[i].depth + delta, items[i].ring))
  }

  /** The last position of the run of deeper loops that follows `k`. */
  function LastDescendant<R>(items: seq<Item<R>>, k: nat): nat
    requires k < |items|
  {
    k + Span(items[k + 1..], items[k].depth)
  }

  function Inverted<R>(inv: Inversion<R>, items: seq<Item<R>>, best: nat): seq<Item<R>>
    requires best < |items|
  {
    var last := LastDescendant(items, best);
    [Item(items[best].depth, inv.flip(items[best].ring))]
    + Shift(items[..best], 1) + Shift(items[last + 1..], 1)
    + Shift(items[best + 1..last + 1], -1)
  }

  function InvertedPolygon<R>(inv: Inversion<R>, items: seq<Item<R>>, best: nat): seq<Item<R>>
    requires items == [] || best < |items|
  {
    if items == [] then [Item(0, inv.full)]
    else if |items| == 1 && inv.isFull(items[0].ring) then []
    else Inverted(inv, items, best)
  }

  lemma {:induction false} SpanNext<R>(items: seq<Item<R>>, j: nat, d: int)
    requires j <= |items|
    ensures Span(items[j..], d) == if j < |items| && d < items[j].depth then 1 + Span(items[j + 1..], d) else 0
  {
    if j < |items| {
      assert items[j..][0] == items[j] && items[j..][1..] == items[j + 1..];
    }
  }

  method FindLastDescendant<R>(items: seq<Item<R>>, k: nat) returns (last: nat)
    requires k < |items|
    ensures k <= last < |items| && last == LastDescendant(items, k)
    ensures forall i :: k < i <= last ==> items[i].depth > items[k].depth
    ensures last + 1 < |items| ==> items[last + 1].depth <= items[k].depth
  {
    hide Span;
    var j := k + 1;
    while j < |items| && items[j].depth > items[k].depth
      invariant k < j <= |items|
      invariant LastDescendant(items, k) == j - 1 + Span(items[j..], items[k].depth)
      invariant forall i :: k < i < j ==> items[i].depth > items[k].depth
    {
      SpanNext(items, j, items[k].depth);
      j := j + 1;
    }
    SpanNext(items, j, items[k].depth);
    last := j - 1;
  }

  /** The choice of `best` among the outermost loops rests on areas and is left to the caller. */
  method Invert<R>(inv: Inversion<R>, items: seq<Item<R>>, best: nat) returns (out: seq<Item<R>>)
    requires items == [] || best < |items|
    ensures out == InvertedPolygon(inv, items, best)
    ensures items == [] ==> out == [Item(0, inv.full)]
    ensures |items| == 1 && inv.isFull(items[0].ring) ==> out == []
  {
    hide LastDescendant, Shift, Span;
    if items == [] {
      return [Item(0, inv.full)];
    }
    if |items| == 1 && inv.isFull(items[0].ring) {
      return [];
    }
    var last := FindLastDescendant(items, best);
    var siblings := FormerSiblings(items, best, last);
    var children := FormerChildren(items, best, last);
    out := [Item(items[best].depth, inv.flip(items[best].ring))] + siblings + children;
    assert out == Inverted(inv, items, best);
  }

  lemma ShiftNext<R>(items: seq<Item<R>>, lo: nat, i: nat, delta: int)
    requires lo <= i < |items|
    ensures Shift(items[lo..i + 1], delta) == Shift(items[lo..i], delta) + [Item(items[i].depth + delta, items[i].ring)]
  {
  }

  /** The loop over the slots outside the chosen loop's run, which go one level down. */
  method FormerSiblings<R>(items: seq<Item<R>>, best: nat, last: nat) returns (siblings: seq<Item<R>>)
    requires best <= last < |items|
    ensures siblings == Shift(items[..best], 1) + Shift(items[last + 1..], 1)
  {
    hide Shift;
    siblings := [];
    assert items[0..0] == items[last + 1..last + 1] == [];
    for i := 0 to |items|
      invariant i <= best ==> siblings == Shift(items[0..i], 1)
      invariant best < i <= last + 1 ==> siblings == Shift(items[0..best], 1)
      invariant i > last + 1 ==> siblings == Shift(items[0..best], 1) + Shift(items[last + 1..i], 1)
    {
      if i < best || i > last {
        ShiftNext(items, if i < best then 0 else last + 1, i, 1);
        siblings := siblings + [Item(items[i].depth + 1, items[i].ring)];
      }
    }
    assert items[last + 1..|items|] == items[last + 1..];
  }

  /** The loop over the chosen loop's descendants, which go one level up. */
  method FormerChildren<R>(items: seq<Item<R>>, best: nat, last: nat) returns (children: seq<Item<R>>)
    requires best <= last < |items|
    ensures children == Shift(items[best + 1..last + 1], -1)
  {
    hide Shift;
    children := [];
    for i := 0 to |items|
      invariant i <= best + 1 ==> children == []
      invariant best + 1 < i <= last + 1 ==> children == Shift(items[best + 1..i], -1)
      invariant i > last + 1 ==> children == Shift(items[best + 1..last + 1], -1)
    {
      if i > best && i <= last {
        ShiftNext(items, best + 1, i, -1);
        children := children + [Item(items[i].depth - 1, items[i].ring)];
      }
    }
  }

  // ----- on forests -----

  lemma {:induction false} FlattenConcat<R>(a: seq<Tree<R>>, b: seq<Tree<R>>, d: int)
    ensures Flatten(a + b, d) == Flatten(a, d) + Flatten(b, d)
  {
    if a == [] {
      assert a + b == b;
    } else {
      assert (a + b)[1..] == a[1..] + b;
      FlattenConcat(a[1..], b, d);
    }
  }

  lemma ShiftConcat<R>(a: seq<Item<R>>, b: seq<Item<R>>, delta: int)
    ensures Shift(a + b, delta) == Shift(a, delta) + Shift(b, delta)
  {
  }

  lemma {:induction false} ShiftFlatten<R>(trees: seq<Tree<R>>, d: int, delta: int)
    ensures Shift(Flatten(trees, d), delta) == Flatten(trees, d + delta)
    decreases trees
  {
    if trees != [] {
      hide Shift;
      var head := [Item(d, trees[0].ring)];
      var below, after := Flatten(trees[0].children, d + 1), Flatten(trees[1..], d);
      ShiftFlatten(trees[0].children, d + 1, delta);
      ShiftFlatten(trees[1..], d, delta);
      ShiftConcat(head + below, after, delta);
      ShiftConcat(head, below, delta);
      ShiftOne(head[0], delta);
    }
  }

  lemma ShiftOne<R>(item: Item<R>, delta: int)
    ensures Shift([item], delta) == [Item(item.depth + delta, item.ring)]
  {
  }

  /** The forest of the complement: the chosen root turned over, above its siblings, beside its children. */
  function Complement<R>(inv: Inversion<R>, a: seq<Tree<R>>, t: Tree<R>, b: seq<Tree<R>>): seq<Tree<R>> {
    [Node(inv.flip(t.ring), a + b)] + t.children
  }

  /** On a depth-first list inversion is the complement of the forest. */
  lemma {:induction false} InvertedIsComplement<R>(inv: Inversion<R>, a: seq<Tree<R>>, t: Tree<R>, b: seq<Tree<R>>)
    ensures |Flatten(a, 0)| < |Flatten(a + [t] + b, 0)|
    ensures Inverted(inv, Flatten(a + [t] + b, 0), |Flatten(a, 0)|) == Flatten(Complement(inv, a, t, b), 0)
  {
    hide Flatten, Shift, Span, Inverted;
    var fa, fb, ft := Flatten(a, 0), Flatten(b, 0), Flatten(t.children, 1);
    var head := Item(0, t.ring);
    assert [t] + b == [Node(t.ring, t.children)] + b && a + [t] + b == a + ([t] + b);
    FlattenCons(t.ring, t.children, b, 0);
    FlattenConcat(a, [t] + b, 0);
    assert fa + ([head] + ft + fb) == fa + [head] + ft + fb;
    FlattenDepths(t.children, 1);
    FlattenDepths(b, 0);
    InvertedPieces(inv, fa, head, ft, fb);
    ShiftFlatten(a, 0, 1);
    ShiftFlatten(b, 0, 1);
    ShiftFlatten(t.children, 1, -1);
    FlattenConcat(a, b, 1);
    FlattenCons(inv.flip(t.ring), a + b, t.children, 0);
    var flipped := [Item(0, inv.flip(t.ring))];
    assert flipped + (Flatten(a, 1) + Flatten(b, 1)) + Flatten(t.children, 0)
        == flipped + Flatten(a, 1) + Flatten(b, 1) + Flatten(t.children, 0);
  }

  /** Inversion of a list cut before a loop, after it, and after its descendants. */
  lemma InvertedPieces<R>(inv: Inversion<R>, before: seq<Item<R>>, head: Item<R>, below: seq<Item<R>>, after: seq<Item<R>>)
    requires (forall i :: 0 <= i < |below| ==> head.depth < below[i].depth) && (after != [] ==> after[0].depth <= head.depth)
    ensures Inverted(inv, before + [head] + below + after, |before|)
         == [Item(head.depth, inv.flip(head.ring))] + Shift(before, 1) + Shift(after, 1) + Shift(below, -1)
  {
    hide Shift, Span;
    var items, best := before + [head] + below + after, |before|;
    assert items[best..] == [head] + below + after && items[..best] == before;
    CutPieces(head, below, after);
    assert items[best + 1..] == items[best..][1..];
    SpanOfConcat(below, after, head.depth);
    assert items[best + |below| + 1..] == items[best..][|below| + 1..];
    assert items[best + 1..best + |below| + 1] == items[best..][1..|below| + 1];
  }

  /** Every loop at depth zero is the root of a tree of the forest. */
  lemma {:induction false} RootOf<R>(trees: seq<Tree<R>>, k: nat) returns (i: nat)
    requires k < |Flatten(trees, 0)| && Flatten(trees, 0)[k].depth == 0
    ensures i < |trees| && k == |Flatten(trees[..i], 0)|
  {
    var below := Flatten(trees[0].children, 1);
    FlattenDepths(trees[0].children, 1);
    if k == 0 {
      i := 0;
    } else {
      assert Flatten(trees, 0) == [Item(0, trees[0].ring)] + below + Flatten(trees[1..], 0);
      assert k > |below|;
      i := RootOf(trees[1..], k - |below| - 1);
      assert trees[..i + 1][1..] == trees[1..][..i];
      i := i + 1;
    }
  }

  // ----- well-nestedness and region -----

  ghost predicate NodeNested<R, P(!new)>(inside: Interior<R, P>, t: Tree<R>) {
    && WellNested(inside, t.children)
    && forall i :: 0 <= i < |t.children| ==> RegionWithin(inside, t.children[i].ring, t.ring)
  }

  /** Well-nestedness of a list of trees, tree by tree and pair by pair. */
  lemma {:induction false} WellNestedIff<R, P(!new)>(inside: Interior<R, P>, trees: seq<Tree<R>>)
    ensures WellNested(inside, trees) <==>
      && (forall i :: 0 <= i < |trees| ==> NodeNested(inside, trees[i]))
      && forall i, j :: 0 <= i < j < |trees| ==> RegionsApart(inside, trees[i].ring, trees[j].ring)
  {
    if trees != [] {
      var rest := trees[1..];
      WellNestedIff(inside, rest);
      hide RegionsApart, RegionWithin;
      assert forall i :: 1 <= i < |trees| ==> trees[i] == rest[i - 1];
      if forall i :: 0 <= i < |trees| ==> NodeNested(inside, trees[i]) {
        assert NodeNested(inside, trees[0]);
        assert forall i :: 0 <= i < |rest| ==> rest[i] == trees[i + 1];
      }
    }
  }

  /** The complement of a well-nested forest is well nested. */
  lemma {:induction false} ComplementIsNested<R(!new), P(!new)>(inside: Interior<R, P>, inv: Inversion<R>, a: seq<Tree<R>>, t: Tree<R>, b: seq<Tree<R>>)
    requires Complements(inside, inv) && WellNested(inside, a + [t] + b)
    ensures WellNested(inside, Complement(inv, a, t, b))
  {
    hide WellNested, RegionWithin, RegionsApart, Complements;
    var trees, rest, out := a + [t] + b, a + b, Complement(inv, a, t, b);
    WellNestedIff(inside, trees);
    WellNestedIff(inside, rest);
    WellNestedIff(inside, t.children);
    WellNestedIff(inside, out);
    assert trees[|a|] == t;
    forall i | 0 <= i < |rest|
      ensures NodeNested(inside, rest[i]) && RegionWithin(inside, rest[i].ring, inv.flip(t.ring))
    {
      var k := if i < |a| then i else i + 1;
      assert rest[i] == trees[k] && NodeNested(inside, trees[k]);
      assert RegionsApart(inside, trees[if k < |a| then k else |a|].ring, trees[if k < |a| then |a| else k].ring);
      TurnedRegion(inside, inv, rest[i].ring, t.ring);
    }
    forall i, j | 0 <= i < j < |rest| ensures RegionsApart(inside, rest[i].ring, rest[j].ring) {
      var k, l := if i < |a| then i else i + 1, if j < |a| then j else j + 1;
      assert rest[i] == trees[k] && rest[j] == trees[l];
    }
    assert NodeNested(inside, t);
    forall i | 0 <= i < |out| ensures NodeNested(inside, out[i]) {
      assert i > 0 ==> out[i] == t.children[i - 1] && NodeNested(inside, t.children[i - 1]);
    }
    forall i, j | 0 <= i < j < |out| ensures RegionsApart(inside, out[i].ring, out[j].ring) {
      assert out[j] == t.children[j - 1] && RegionWithin(inside, t.children[j - 1].ring, t.ring);
      TurnedRegion(inside, inv, out[j].ring, t.ring);
      assert i > 0 ==> out[i] == t.children[i - 1];
    }
  }

  lemma {:induction false} OddIgnoresDepth<R, P>(inside: Interior<R, P>, items: seq<Item<R>>, delta: int, p: P)
    ensures InOdd(inside, Shift(items, delta), p) == InOdd(inside, items, p)
  {
    if items != [] {
      assert Shift(items, delta)[1..] == Shift(items[1..], delta);
      OddIgnoresDepth(inside, items[1..], delta, p);
    }
  }

  /** The four pieces an inversion cuts a list into, and the list it puts together again. */
  lemma InvertedShape<R>(inv: Inversion<R>, items: seq<Item<R>>, best: nat) returns (below: seq<Item<R>>, after: seq<Item<R>>)
    requires best < |items|
    ensures items == items[..best] + [items[best]] + below + after
    ensures Inverted(inv, items, best) == [Item(items[best].depth, inv.flip(items[best].ring))]
         + Shift(items[..best], 1) + Shift(after, 1) + Shift(below, -1)
  {
    hide Shift;
    var last := LastDescendant(items, best);
    below, after := items[best + 1..last + 1], items[last + 1..];
  }

  /** Whatever the list, inversion turns the point test around. */
  lemma {:induction false} InvertedFlipsPointTest<R(!new), P(!new)>(inside: Interior<R, P>, inv: Inversion<R>, items: seq<Item<R>>, best: nat, p: P)
    requires Complements(inside, inv) && best < |items|
    ensures InOdd(inside, Inverted(inv, items, best), p) == !InOdd(inside, items, p)
  {
    hide InOdd, Shift, Inverted, Complements;
    TurnsOverAt(inside, inv, items[best].ring, p);
    var below, after := InvertedShape(inv, items, best);
    var head, flipped, before := items[best], Item(items[best].depth, inv.flip(items[best].ring)), items[..best];
    OddOfOne(inside, head, p);
    OddOfOne(inside, flipped, p);
    OddOfFourPieces(inside, before, [head], below, after, p);
    OddIgnoresDepth(inside, before, 1, p);
    OddIgnoresDepth(inside, after, 1, p);
    OddIgnoresDepth(inside, below, -1, p);
    OddOfFourPieces(inside, [flipped], Shift(before, 1), Shift(after, 1), Shift(below, -1), p);
  }

  lemma TurnsOverAt<R(!new), P(!new)>(inside: Interior<R, P>, inv: Inversion<R>, r: R, p: P)
    requires Complements(inside, inv)
    ensures inside(inv.flip(r), p) <==> !inside(r, p)
  {
    assert TurnsOver(inside, inv, r, p);
  }

  /** What lies beside a loop lies within its inverse; what lies within it lies beside its inverse. */
  lemma TurnedRegion<R(!new), P(!new)>(inside: Interior<R, P>, inv: Inversion<R>, r: R, t: R)
    requires Complements(inside, inv)
    ensures RegionsApart(inside, r, t) || RegionsApart(inside, t, r) ==> RegionWithin(inside, r, inv.flip(t))
    ensures RegionWithin(inside, r, t) ==> RegionsApart(inside, inv.flip(t), r)
  {
    forall p ensures inside(inv.flip(t), p) <==> !inside(t, p) {
      TurnsOverAt(inside, inv, t, p);
    }
  }

  lemma OddOfOne<R, P>(inside: Interior<R, P>, item: Item<R>, p: P)
    ensures InOdd(inside, [item], p) == inside(item.ring, p)
  {
    assert [item][1..] == [];
  }

  lemma {:induction false} OddOfFourPieces<R, P>(inside: Interior<R, P>, a: seq<Item<R>>, b: seq<Item<R>>, c: seq<Item<R>>, d: seq<Item<R>>, p: P)
    ensures InOdd(inside, a + b + c + d, p)
         == (((InOdd(inside, a, p) != InOdd(inside, b, p)) != InOdd(inside, c, p)) != InOdd(inside, d, p))
  {
    hide InOdd;
    InOddConcat(inside, a + b + c, d, p);
    InOddConcat(inside, a + b, c, p);
    InOddConcat(inside, a, b, p);
  }

  /**
   Inverting a depth-first, well-nested polygon at any outermost loop gives a depth-first,
   well-nested polygon, whose conversion is the complement of the original's, point by point.
   */
  lemma {:induction false} InversionConvertsToComplement<R(!new), P(!new)>(inside: Interior<R, P>, inv: Inversion<R>, items: seq<Item<R>>, best: nat, p: P)
    requires Complements(inside, inv) && ValidDepths(items) && WellNested(inside, Forest(items, 0))
    requires best < |items| && items[best].depth == 0
    ensures var out := Inverted(inv, items, best);
      && ValidDepths(out) && WellNested(inside, Forest(out, 0))
      && (SomePoly(inside, Converted(out), p) <==> !SomePoly(inside, Converted(items), p))
      && AtMostOnePoly(inside, Converted(out), p)
  {
    hide Flatten, Forest, WellNested, ValidDepths, Converted, Inverted, SomePoly, AtMostOnePoly, InOdd, Complements;
    var trees := Forest(items, 0);
    ConvertedIsTraversal(items);
    var i := RootOf(trees, best);
    var a, t, b := trees[..i], trees[i], trees[i + 1..];
    assert trees == a + [t] + b;
    InvertedIsComplement(inv, a, t, b);
    ComplementIsNested(inside, inv, a, t, b);
    var out := Inverted(inv, items, best);
    ForestOfFlatten(Complement(inv, a, t, b), 0);
    ValidIffForest(out);
    InvertedFlipsPointTest(inside, inv, items, best, p);
    ConversionPreservesRegion(inside, items, p);
    ConversionPreservesRegion(inside, out, p);
  }

  /** The empty polygon and the full one are each other's inverses. */
  lemma {:induction false} EmptyAndFull<R(!new), P(!new)>(inside: Interior<R, P>, inv: Inversion<R>, items: seq<Item<R>>, best: nat, p: P)
    requires Complements(inside, inv) && (items == [] || best < |items|)
    ensures InOdd(inside, InvertedPolygon(inv, items, best), p) == !InOdd(inside, items, p)
  {
    if items == [] {
      assert [Item(0, inv.full)][1..] == [];
    } else if |items| == 1 && inv.isFull(items[0].ring) {
      assert items[1..] == [];
    } else {
      InvertedFlipsPointTest(inside, inv, items, best, p);
    }
  }
}
