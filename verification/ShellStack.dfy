/**
 The conversion of a polygon's loop list into polygons with holes: a one-pass stack machine, the
 recursive traversal of the nesting forest that it refines, and the region both denote.
 */
module ShellStack {
  /** One loop of the list: its nesting depth and its ring. */
  datatype Item<R> = Item(depth: int, ring: R)

  /** A shell whose holes are still being collected. */
  datatype ShellBuilder<R> = ShellBuilder(exterior: R, holes: seq<R>, depth: int)

  datatype GeoPoly<R> = GeoPoly(exterior: R, holes: seq<R>)

  datatype State<R> = State(stack: seq<ShellBuilder<R>>, result: seq<GeoPoly<R>>)

  function Finished<R>(sb: ShellBuilder<R>): GeoPoly<R> {
    GeoPoly(sb.exterior, sb.holes)
  }

  function Pop<R>(s: State<R>): State<R>
    requires s.stack != []
  {
    State(s.stack[..|s.stack| - 1], s.result + [Finished(s.stack[|s.stack| - 1])])
  }

  /** Finish the shells on top of the stack whose depth is at least `minDepth`. */
  function Flush<R>(s: State<R>, minDepth: int): State<R>
    decreases |s.stack|
  {
    if s.stack != [] && s.stack[|s.stack| - 1].depth >= minDepth then Flush(Pop(s), minDepth) else s
  }

  function AddHole<R>(stack: seq<ShellBuilder<R>>, ring: R): seq<ShellBuilder<R>>
    requires stack != []
  {
    var top := stack[|stack| - 1];
    stack[|stack| - 1 := top.(holes := top.holes + [ring])]
  }

  function Step<R>(s: State<R>, item: Item<R>): State<R> {
    var f := Flush(s, item.depth);
    if item.depth % 2 == 0 then f.(stack := f.stack + [ShellBuilder(item.ring, [], item.depth)])
    else if f.stack != [] then f.(stack := AddHole(f.stack, item.ring))
    else f
  }

  function Run<R>(items: seq<Item<R>>, s: State<R>): State<R> {
    if items == [] then s else Step(Run(items[..|items| - 1], s), items[|items| - 1])
  }

  function Drain<R>(s: State<R>): seq<GeoPoly<R>>
    decreases |s.stack|
  {
    if s.stack == [] then s.result else Drain(Pop(s))
  }

  function Converted<R>(items: seq<Item<R>>): seq<GeoPoly<R>> {
    Drain(Run(items, State([], [])))
  }

  // ----- the loops of the conversion -----

  method FlushUntil<R>(stack: seq<ShellBuilder<R>>, result: seq<GeoPoly<R>>, minDepth: int)
    returns (stack': seq<ShellBuilder<R>>, result': seq<GeoPoly<R>>)
    ensures State(stack', result') == Flush(State(stack, result), minDepth)
    ensures stack' <= stack && (stack' != [] ==> stack'[|stack'| - 1].depth < minDepth)
  {
    stack', result' := stack, result;
    while stack' != [] && stack'[|stack'| - 1].depth >= minDepth
      invariant stack' <= stack
      invariant Flush(State(stack', result'), minDepth) == Flush(State(stack, result), minDepth)
      decreases |stack'|
    {
      var sb := stack'[|stack'| - 1];
      stack', result' := stack'[..|stack'| - 1], result' + [Finished(sb)];
    }
  }

  method ToMultiPolygon<R>(items: seq<Item<R>>) returns (result: seq<GeoPoly<R>>)
    ensures result == Converted(items)
  {
    result := [];
    var stack: seq<ShellBuilder<R>> := [];
    for n := 0 to |items|
      invariant State(stack, result) == Run(items[..n], State([], []))
    {
      assert items[..n + 1][..n] == items[..n];
      var depth, ring := items[n].depth, items[n].ring;
      if depth % 2 == 0 {
        stack, result := FlushUntil(stack, result, depth);
        stack := stack + [ShellBuilder(ring, [], depth)];
      } else {
        stack, result := FlushUntil(stack, result, depth);
        if stack != [] {
          stack := AddHole(stack, ring);
        }
      }
    }
    assert items[..|items|] == items;
    while stack != []
      invariant Drain(State(stack, result)) == Converted(items)
      decreases |stack|
    {
      var sb := stack[|stack| - 1];
      stack, result := stack[..|stack| - 1], result + [Finished(sb)];
    }
  }

  // ----- laws of the machine -----

  lemma {:induction false} RunConcat<R>(a: seq<Item<R>>, b: seq<Item<R>>, s: State<R>)
    ensures Run(a + b, s) == Run(b, Run(a, s))
  {
    if b == [] {
      assert a + b == a;
    } else {
      assert (a + b)[..|a + b| - 1] == a + b[..|b| - 1];
      RunConcat(a, b[..|b| - 1], s);
    }
  }

  lemma {:induction false} FlushTwice<R>(s: State<R>, high: int, low: int)
    requires low <= high
    ensures Flush(Flush(s, high), low) == Flush(s, low)
    decreases |s.stack|
  {
    if s.stack != [] && s.stack[|s.stack| - 1].depth >= high {
      FlushTwice(Pop(s), high, low);
    }
  }

  /** A loop of the list flushes first, so a flush to the same depth before it changes nothing. */
  lemma {:induction false} FlushFirst<R>(items: seq<Item<R>>, s: State<R>, d: int)
    requires items != [] ==> items[0].depth == d
    ensures Flush(Run(items, s), d) == Flush(Run(items, Flush(s, d)), d)
  {
    FlushTwice(s, d, d);
    if items != [] {
      assert items == items[..1] + items[1..];
      RunConcat(items[..1], items[1..], s);
      RunConcat(items[..1], items[1..], Flush(s, d));
      RunOne(items[0], s);
      RunOne(items[0], Flush(s, d));
      assert items[..1] == [items[0]];
    }
  }

  lemma {:induction false} RunOne<R>(item: Item<R>, s: State<R>)
    ensures Run([item], s) == Step(s, item)
  {
    assert [item][..0] == [];
  }

  lemma {:induction false} DrainAfterFlush<R>(s: State<R>, d: int)
    ensures Drain(Flush(s, d)) == Drain(s)
    decreases |s.stack|
  {
    if s.stack != [] && s.stack[|s.stack| - 1].depth >= d {
      DrainAfterFlush(Pop(s), d);
    }
  }

  // ----- the nesting forest -----

  datatype Tree<R> = Node(ring: R, children: seq<Tree<R>>)

  /** The depth-first list of a forest whose roots have the given depth. */
  function Flatten<R>(trees: seq<Tree<R>>, depth: int): seq<Item<R>> {
    if trees == [] then []
    else [Item(depth, trees[0].ring)] + Flatten(trees[0].children, depth + 1) + Flatten(trees[1..], depth)
  }

  function RootRings<R>(trees: seq<Tree<R>>): seq<R> {
    if trees == [] then [] else [trees[0].ring] + RootRings(trees[1..])
  }

  /** The recursive traversal: a shell comes after the islands inside its holes. */
  function Polys<R>(shells: seq<Tree<R>>): seq<GeoPoly<R>> {
    if shells == [] then []
    else
      Islands(shells[0].children)
      + [GeoPoly(shells[0].ring, RootRings(shells[0].children))]
      + Polys(shells[1..])
  }

  function Islands<R>(holes: seq<Tree<R>>): seq<GeoPoly<R>> {
    if holes == [] then [] else Polys(holes[0].children) + Islands(holes[1..])
  }

  ghost predicate AllShallower<R>(stack: seq<ShellBuilder<R>>, d: int) {
    forall i :: 0 <= i < |stack| ==> stack[i].depth < d
  }

  /** A run over a tree and its later siblings, cut after the tree. */
  lemma RunTree<R>(t: Tree<R>, rest: seq<Tree<R>>, d: int, s: State<R>)
    ensures Flush(Run(Flatten([t] + rest, d), s), d)
         == Flush(Run(Flatten(rest, d), Flush(Run(Flatten(t.children, d + 1), Step(s, Item(d, t.ring))), d)), d)
  {
    hide Flush, Step, Run;
    var head, below, after := Item(d, t.ring), Flatten(t.children, d + 1), Flatten(rest, d);
    assert ([t] + rest)[1..] == rest;
    RunConcat([head] + below, after, s);
    RunConcat([head], below, s);
    RunOne(head, s);
    FlushFirst(after, Run(below, Step(s, head)), d);
  }

  lemma StepShell<R>(s: State<R>, d: int, ring: R)
    requires d % 2 == 0 && AllShallower(s.stack, d)
    ensures Step(s, Item(d, ring)) == State(s.stack + [ShellBuilder(ring, [], d)], s.result)
  {
  }

  lemma StepHole<R>(s: State<R>, d: int, ring: R)
    requires d % 2 == 1 && AllShallower(s.stack, d) && s.stack != []
    ensures Step(s, Item(d, ring)) == State(AddHole(s.stack, ring), s.result)
  {
  }

  lemma {:induction false} FlushTop<R>(s: State<R>, sb: ShellBuilder<R>, d: int)
    requires AllShallower(s.stack, d) && d <= sb.depth
    ensures Flush(State(s.stack + [sb], s.result), d) == State(s.stack, s.result + [Finished(sb)])
  {
    var x := State(s.stack + [sb], s.result);
    assert x.stack[..|x.stack| - 1] == s.stack;
    assert Pop(x) == State(s.stack, s.result + [Finished(sb)]);
  }

  lemma {:induction false} FlushNone<R>(s: State<R>, d: int)
    requires AllShallower(s.stack, d)
    ensures Flush(s, d) == s
  {
  }

  lemma {:induction false} PassNothing<R>(d: int, s: State<R>)
    requires AllShallower(s.stack, d)
    ensures Flush(Run(Flatten([], d), s), d) == s && Polys<R>([]) == [] && State(s.stack, s.result + []) == s
  {
    FlushNone(s, d);
    assert s.result + [] == s.result;
  }

  lemma {:induction false} PolysNext<R>(t: Tree<R>, rest: seq<Tree<R>>, before: seq<GeoPoly<R>>)
    ensures before + Islands(t.children) + [GeoPoly(t.ring, RootRings(t.children))] + Polys(rest)
         == before + Polys([t] + rest)
  {
    hide Islands, RootRings;
    assert ([t] + rest)[1..] == rest;
  }

  /** What a run over a list of sibling shells leaves behind, once flushed. */
  lemma {:induction false} ShellPass<R>(shells: seq<Tree<R>>, d: int, s: State<R>)
    requires d % 2 == 0 && AllShallower(s.stack, d)
    ensures Flush(Run(Flatten(shells, d), s), d) == State(s.stack, s.result + Polys(shells))
    decreases shells, 1
  {
    hide Flush, Step, Flatten, Run, RootRings, Islands, Polys;
    if shells == [] {
      PassNothing(d, s);
    } else {
      var t, rest := shells[0], shells[1..];
      assert shells == [t] + rest;
      RunTree(t, rest, d, s);
      StepShell(s, d, t.ring);
      var started := State(s.stack + [ShellBuilder(t.ring, [], d)], s.result);
      HolePass(t.children, d + 1, started);
      var x := Run(Flatten(t.children, d + 1), started);
      FlushTwice(x, d + 1, d);
      var sb := ShellBuilder(t.ring, RootRings(t.children), d);
      assert started.stack[|s.stack| := sb] == s.stack + [sb];
      assert [] + RootRings(t.children) == RootRings(t.children);
      var closed := State(s.stack, s.result + Islands(t.children));
      FlushTop(closed, sb, d);
      ShellPass(rest, d, State(s.stack, closed.result + [Finished(sb)]));
      PolysNext(t, rest, s.result);
    }
  }

  /** What a run over the sibling holes of the shell on top of the stack leaves behind. */
  lemma {:induction false} HolePass<R>(holes: seq<Tree<R>>, d: int, s: State<R>)
    requires d % 2 == 1 && AllShallower(s.stack, d) && s.stack != []
    ensures Flush(Run(Flatten(holes, d), s), d) == WithHoles(s, RootRings(holes), Islands(holes))
    decreases holes, 0
  {
    hide Flush, Step;
    if holes == [] {
      FlushNone(s, d);
      var top := s.stack[|s.stack| - 1];
      assert top.holes + [] == top.holes && s.result + [] == s.result;
      assert s.stack[|s.stack| - 1 := top] == s.stack;
    } else {
      hide Flatten, Run;
      var t, rest := holes[0], holes[1..];
      assert holes == [t] + rest;
      RunTree(t, rest, d, s);
      StepHole(s, d, t.ring);
      var added := State(AddHole(s.stack, t.ring), s.result);
      ShellPass(t.children, d + 1, added);
      var x := Run(Flatten(t.children, d + 1), added);
      FlushTwice(x, d + 1, d);
      var passed := State(added.stack, added.result + Polys(t.children));
      FlushNone(passed, d);
      HolePass(rest, d, passed);
      WithHolesTwice(s, t.ring, Polys(t.children), RootRings(rest), Islands(rest));
    }
  }

  /** A state whose top shell has gained holes and whose result has gained polygons. */
  function WithHoles<R>(s: State<R>, rings: seq<R>, polys: seq<GeoPoly<R>>): State<R>
    requires s.stack != []
  {
    var top := s.stack[|s.stack| - 1];
    State(s.stack[|s.stack| - 1 := top.(holes := top.holes + rings)], s.result + polys)
  }

  lemma WithHolesTwice<R>(s: State<R>, ring: R, first: seq<GeoPoly<R>>, rings: seq<R>, polys: seq<GeoPoly<R>>)
    requires s.stack != []
    ensures WithHoles(State(AddHole(s.stack, ring), s.result + first), rings, polys)
         == WithHoles(s, [ring] + rings, first + polys)
  {
    var top := s.stack[|s.stack| - 1];
    assert top.holes + [ring] + rings == top.holes + ([ring] + rings);
    assert s.result + first + polys == s.result + (first + polys);
  }

  /** On a depth-first list the one-pass machine computes the recursive traversal. */
  lemma {:induction false} MachineIsTraversal<R>(shells: seq<Tree<R>>)
    ensures Converted(Flatten(shells, 0)) == Polys(shells)
  {
    var empty: State<R> := State([], []);
    ShellPass(shells, 0, empty);
    DrainAfterFlush(Run(Flatten(shells, 0), empty), 0);
    assert [] + Polys(shells) == Polys(shells);
  }

  // ----- which depth lists encode a forest -----

  function LastDepth<R>(items: seq<Item<R>>, i: nat): int
    requires i <= |items|
  {
    if i == 0 then -1 else items[i - 1].depth
  }

  /** The polygon validity test on depths: none negative, none more than one above its predecessor. */
  predicate ValidDepths<R>(items: seq<Item<R>>) {
    forall i :: 0 <= i < |items| ==> 0 <= items[i].depth <= LastDepth(items, i) + 1
  }

  ghost predicate ForestAt<R>(items: seq<Item<R>>, d: int) {
    && (items != [] ==> items[0].depth == d)
    && (forall i :: 0 <= i < |items| ==> d <= items[i].depth)
    && (forall i :: 1 <= i < |items| ==> items[i].depth <= items[i - 1].depth + 1)
  }

  function Span<R>(items: seq<Item<R>>, d: int): (n: nat)
    ensures n <= |items| && (forall i :: 0 <= i < n ==> d < items[i].depth)
    ensures n < |items| ==> items[n].depth <= d
  {
    if items == [] || items[0].depth <= d then 0 else 1 + Span(items[1..], d)
  }

  /** The forest a depth list encodes. */
  function Forest<R>(items: seq<Item<R>>, d: int): seq<Tree<R>>
    decreases |items|
  {
    if items == [] then []
    else
      var n := Span(items[1..], d);
      [Node(items[0].ring, Forest(items[1..n + 1], d + 1))] + Forest(items[n + 1..], d)
  }

  lemma {:induction false} ForestFlattens<R>(items: seq<Item<R>>, d: int)
    requires ForestAt(items, d)
    ensures Flatten(Forest(items, d), d) == items
    decreases |items|
  {
    hide Flatten, Span, ForestAt, Forest;
    if items == [] {
      ForestNil<R>(d);
    } else {
      FirstDepth(items, d);
      var n := Span(items[1..], d);
      var below, after := items[1..n + 1], items[n + 1..];
      SpanIsForest(items, d, n);
      ForestCons(items, d, n);
      ForestFlattens(below, d + 1);
      ForestFlattens(after, d);
      FlattenCons(items[0].ring, Forest(below, d + 1), Forest(after, d), d);
      assert items == [items[0]] + below + after;
    }
  }

  lemma {:induction false} ForestNil<R>(d: int)
    ensures Flatten(Forest<R>([], d), d) == []
  {
  }

  lemma ForestCons<R>(items: seq<Item<R>>, d: int, n: nat)
    requires items != [] && n == Span(items[1..], d)
    ensures Forest(items, d) == [Node(items[0].ring, Forest(items[1..n + 1], d + 1))] + Forest(items[n + 1..], d)
  {
  }

  lemma FirstDepth<R>(items: seq<Item<R>>, d: int)
    requires ForestAt(items, d) && items != []
    ensures items[0].depth == d
  {
  }

  lemma FlattenCons<R>(ring: R, children: seq<Tree<R>>, rest: seq<Tree<R>>, d: int)
    ensures Flatten([Node(ring, children)] + rest, d)
         == [Item(d, ring)] + Flatten(children, d + 1) + Flatten(rest, d)
  {
    var trees := [Node(ring, children)] + rest;
    assert trees[1..] == rest;
  }

  lemma {:induction false} SpanIsForest<R>(items: seq<Item<R>>, d: int, n: nat)
    requires ForestAt(items, d) && items != [] && n == Span(items[1..], d)
    ensures ForestAt(items[1..n + 1], d + 1) && ForestAt(items[n + 1..], d)
  {
    assert forall i :: 0 <= i < n ==> items[1..n + 1][i] == items[1..][i];
    assert n > 0 ==> items[1].depth <= items[0].depth + 1;
    assert n + 1 < |items| ==> items[n + 1] == items[1..][n];
  }

  lemma {:induction false} FlattenIsForest<R>(trees: seq<Tree<R>>, d: int)
    ensures ForestAt(Flatten(trees, d), d)
    decreases trees
  {
    if trees != [] {
      FlattenIsForest(trees[0].children, d + 1);
      FlattenIsForest(trees[1..], d);
    }
  }

  lemma {:induction false} SpanOfConcat<R>(below: seq<Item<R>>, after: seq<Item<R>>, d: int)
    requires (forall i :: 0 <= i < |below| ==> d < below[i].depth) && (after != [] ==> after[0].depth <= d)
    ensures Span(below + after, d) == |below|
  {
    if below == [] {
      assert below + after == after;
    } else {
      assert (below + after)[1..] == below[1..] + after;
      SpanOfConcat(below[1..], after, d);
    }
  }

  /** The depth-first list determines the forest. */
  lemma {:induction false} ForestOfFlatten<R>(trees: seq<Tree<R>>, d: int)
    ensures Forest(Flatten(trees, d), d) == trees
    decreases trees
  {
    hide Flatten, Forest, Span, ForestAt;
    if trees == [] {
      ForestNil<R>(d);
      FlattenNil<R>(d);
    } else {
      var below, after := Flatten(trees[0].children, d + 1), Flatten(trees[1..], d);
      var items := [Item(d, trees[0].ring)] + below + after;
      assert trees == [Node(trees[0].ring, trees[0].children)] + trees[1..];
      FlattenCons(trees[0].ring, trees[0].children, trees[1..], d);
      FlattenDepths(trees[0].children, d + 1);
      FlattenDepths(trees[1..], d);
      SpanOfConcat(below, after, d);
      CutPieces(items[0], below, after);
      ForestCons(items, d, |below|);
      ForestOfFlatten(trees[0].children, d + 1);
      ForestOfFlatten(trees[1..], d);
    }
  }

  lemma {:induction false} FlattenNil<R>(d: int)
    ensures Flatten<R>([], d) == [] && Forest<R>([], d) == []
  {
  }

  lemma CutPieces<T>(head: T, below: seq<T>, after: seq<T>)
    ensures var items := [head] + below + after;
      items[1..] == below + after && items[1..|below| + 1] == below && items[|below| + 1..] == after
  {
  }

  lemma {:induction false} FlattenDepths<R>(trees: seq<Tree<R>>, d: int)
    ensures forall i :: 0 <= i < |Flatten(trees, d)| ==> d <= Flatten(trees, d)[i].depth
    ensures Flatten(trees, d) != [] ==> Flatten(trees, d)[0].depth == d
  {
    FlattenIsForest(trees, d);
  }

  /** A depth list passes the validity test exactly when it is the depth-first list of a forest. */
  lemma ValidIffForest<R>(items: seq<Item<R>>)
    ensures ValidDepths(items) <==> exists trees :: Flatten(trees, 0) == items
  {
    if ValidDepths(items) {
      ForestFlattens(items, 0);
    }
    if trees :| Flatten(trees, 0) == items {
      FlattenIsForest(trees, 0);
    }
  }

  /** For every list with valid depths, the conversion is the traversal of the forest it encodes. */
  lemma {:induction false} ConvertedIsTraversal<R>(items: seq<Item<R>>)
    requires ValidDepths(items)
    ensures Flatten(Forest(items, 0), 0) == items
    ensures Converted(items) == Polys(Forest(items, 0))
  {
    ForestFlattens(items, 0);
    MachineIsTraversal(Forest(items, 0));
  }
}
