/**
 `Polygon::from_loops`: nesting depths counted by containment, loops reordered by depth, and what
 that order means for the conversion to polygons with holes.
 */
module PolygonNesting {
  import opened Rings
  import opened ShellStack
  import opened Regions
  import opened Hosts
  import opened LoopFamily

  datatype Loop<P> = Loop(vertices: seq<P>, depth: int)

  /** The geometric tests, which this project treats as opaque. */
  datatype Geometry<!P> = Geometry(
    inside: Interior<seq<P>, P>,
    containsNested: (seq<P>, seq<P>) -> bool,
    isEmptyLoop: seq<P> -> bool)

  // ----- depths by counting -----

  function DepthUpTo<P>(geo: Geometry<P>, loops: seq<seq<P>>, i: nat, n: nat): (c: nat)
    requires i < |loops| && n <= |loops|
  {
    if n == 0 then 0
    else DepthUpTo(geo, loops, i, n - 1)
         + if i != n - 1 && geo.containsNested(loops[n - 1], loops[i]) then 1 else 0
  }

  function NestingDepth<P>(geo: Geometry<P>, loops: seq<seq<P>>, i: nat): nat
    requires i < |loops|
  {
    if loops[i] == [] then 0 else DepthUpTo(geo, loops, i, |loops|)
  }

  /** The other loops that contain loop `i`, by the containment test. */
  ghost function TestedContainers<P>(geo: Geometry<P>, loops: seq<seq<P>>, i: nat, n: nat): set<nat>
    requires i < |loops| && n <= |loops|
  {
    set j: nat | j < n && j != i && geo.containsNested(loops[j], loops[i])
  }

  lemma {:induction false} DepthIsSize<P>(geo: Geometry<P>, loops: seq<seq<P>>, i: nat, n: nat)
    requires i < |loops| && n <= |loops|
    ensures DepthUpTo(geo, loops, i, n) == |TestedContainers(geo, loops, i, n)|
  {
    if n == 0 {
      assert TestedContainers(geo, loops, i, n) == {};
    } else {
      DepthIsSize(geo, loops, i, n - 1);
      TestedNext(geo, loops, i, n - 1);
      hide TestedContainers;
    }
  }

  lemma TestedNext<P>(geo: Geometry<P>, loops: seq<seq<P>>, i: nat, n: nat)
    requires i < |loops| && n < |loops|
    ensures |TestedContainers(geo, loops, i, n + 1)|
         == |TestedContainers(geo, loops, i, n)| + if i != n && geo.containsNested(loops[n], loops[i]) then 1 else 0
  {
    var before, here := TestedContainers(geo, loops, i, n), TestedContainers(geo, loops, i, n + 1);
    assert here == if i != n && geo.containsNested(loops[n], loops[i]) then before + {n} else before;
  }

  method ComputeNestingDepths<P>(geo: Geometry<P>, loops: seq<seq<P>>) returns (depths: seq<nat>)
    ensures |depths| == |loops| && forall i :: 0 <= i < |loops| ==> depths[i] == NestingDepth(geo, loops, i)
    ensures forall i :: 0 <= i < |loops| ==>
              depths[i] == if loops[i] == [] then 0 else |TestedContainers(geo, loops, i, |loops|)|
  {
    depths := seq(|loops|, _ => 0);
    for i := 0 to |loops|
      invariant |depths| == |loops|
      invariant forall k :: 0 <= k < |loops| ==> depths[k] == if k < i then NestingDepth(geo, loops, k) else 0
    {
      if |loops[i]| == 0 {
        continue;
      }
      for j := 0 to |loops|
        invariant |depths| == |loops| && depths[i] == DepthUpTo(geo, loops, i, j)
        invariant forall k :: 0 <= k < |loops| && k != i ==> depths[k] == if k < i then NestingDepth(geo, loops, k) else 0
      {
        if i != j && geo.containsNested(loops[j], loops[i]) {
          depths := depths[i := depths[i] + 1];
        }
      }
    }
    forall i | 0 <= i < |loops| && loops[i] != [] ensures depths[i] == |TestedContainers(geo, loops, i, |loops|)| {
      DepthIsSize(geo, loops, i, |loops|);
    }
  }

  // ----- the stable sort by depth -----

  function InsertByDepth(d: seq<int>, order: seq<nat>, i: nat): (out: seq<nat>)
    requires i < |d| && forall k :: 0 <= k < |order| ==> order[k] < |d|
    ensures |out| == |order| + 1 && forall k :: 0 <= k < |out| ==> out[k] < |d|
    ensures forall x :: x in out <==> x == i || x in order
  {
    if order == [] || d[order[|order| - 1]] <= d[i] then order + [i]
    else
      assert order == order[..|order| - 1] + [order[|order| - 1]];
      InsertByDepth(d, order[..|order| - 1], i) + [order[|order| - 1]]
  }

  /** The positions below `n`, by depth and then by position. */
  function DepthOrder(d: seq<int>, n: nat): (order: seq<nat>)
    requires n <= |d|
    ensures |order| == n && forall k :: 0 <= k < n ==> order[k] < |d|
  {
    if n == 0 then [] else InsertByDepth(d, DepthOrder(d, n - 1), n - 1)
  }

  ghost predicate Before(d: seq<int>, x: nat, y: nat) {
    x < |d| && y < |d| && (d[x] < d[y] || (d[x] == d[y] && x < y))
  }

  ghost predicate Stable(d: seq<int>, order: seq<nat>) {
    forall a, b :: 0 <= a < b < |order| ==> Before(d, order[a], order[b])
  }

  lemma {:induction false} InsertIsStable(d: seq<int>, order: seq<nat>, i: nat)
    requires i < |d| && Stable(d, order) && forall k :: 0 <= k < |order| ==> order[k] < i
    ensures Stable(d, InsertByDepth(d, order, i))
  {
    var out := InsertByDepth(d, order, i);
    if order == [] || d[order[|order| - 1]] <= d[i] {
      forall a, b | 0 <= a < b < |out| ensures Before(d, out[a], out[b]) {
        assert b == |order| && a < |order| - 1 ==> Before(d, order[a], order[|order| - 1]);
      }
    } else {
      var init, last := order[..|order| - 1], order[|order| - 1];
      InsertIsStable(d, init, i);
      var placed := InsertByDepth(d, init, i);
      forall a, b | 0 <= a < b < |out| ensures Before(d, out[a], out[b]) {
        if b == |placed| {
          assert placed[a] in placed;
          assert placed[a] in init ==> Before(d, placed[a], last);
        }
      }
    }
  }

  lemma {:induction false} DepthOrderIsStable(d: seq<int>, n: nat)
    requires n <= |d|
    ensures Stable(d, DepthOrder(d, n))
    ensures forall x :: x in DepthOrder(d, n) <==> 0 <= x < n
  {
    if n > 0 {
      DepthOrderIsStable(d, n - 1);
      var order := DepthOrder(d, n - 1);
      forall k | 0 <= k < |order| ensures order[k] < n - 1 {
        assert order[k] in order;
      }
      InsertIsStable(d, order, n - 1);
    }
  }

  function Depths<P>(geo: Geometry<P>, loops: seq<seq<P>>): (d: seq<int>)
    ensures |d| == |loops| && forall i :: 0 <= i < |loops| ==> d[i] == NestingDepth(geo, loops, i)
  {
    seq(|loops|, i requires 0 <= i < |loops| => NestingDepth(geo, loops, i))
  }

  function Pick<T>(s: seq<T>, order: seq<nat>): (out: seq<T>)
    requires forall k :: 0 <= k < |order| ==> order[k] < |s|
    ensures |out| == |order| && forall k :: 0 <= k < |out| ==> out[k] == s[order[k]]
  {
    seq(|order|, k requires 0 <= k < |order| => s[order[k]])
  }

  /** The loops after nesting: each with its depth, shallowest first. */
  function Nested<P>(geo: Geometry<P>, loops: seq<seq<P>>): (out: seq<Loop<P>>)
    ensures |out| == |loops|
  {
    var d := Depths(geo, loops);
    var order := DepthOrder(d, |loops|);
    seq(|loops|, k requires 0 <= k < |loops| => Loop(loops[order[k]], d[order[k]]))
  }

  /** Nesting moves every loop, with its depth, to its place in the stable order by depth. */
  lemma {:induction false} NestedPlaces<P>(geo: Geometry<P>, loops: seq<seq<P>>)
    ensures var d := Depths(geo, loops);
      var order := DepthOrder(d, |loops|);
      && Reordering(order, |loops|) && Stable(d, order)
      && forall k :: 0 <= k < |loops| ==> Nested(geo, loops)[k] == Loop(loops[order[k]], NestingDepth(geo, loops, order[k]))
  {
    hide NestingDepth;
    DepthOrderIsReordering(Depths(geo, loops));
  }

  method InitNesting<P>(geo: Geometry<P>, loops: seq<seq<P>>) returns (out: seq<Loop<P>>)
    ensures out == Nested(geo, loops)
  {
    hide TestedContainers, DepthOrder, InsertByDepth;
    var depths := ComputeNestingDepths(geo, loops);
    var d: seq<int> := depths;
    assert d == Depths(geo, loops);
    var indices := DepthOrder(d, |loops|);
    out := [];
    for i := 0 to |loops|
      invariant out == Nested(geo, loops)[..i]
    {
      out := out + [Loop(loops[indices[i]], d[indices[i]])];
    }
  }

  function Kept<P>(geo: Geometry<P>, loops: seq<seq<P>>): seq<seq<P>> {
    if loops == [] then []
    else
      var last := loops[|loops| - 1];
      Kept(geo, loops[..|loops| - 1]) + if !geo.isEmptyLoop(last) && |last| > 0 then [last] else []
  }

  lemma SingleLoop<P>(geo: Geometry<P>, loops: seq<seq<P>>)
    requires |loops| == 1
    ensures Nested(geo, loops) == [Loop(loops[0], 0)]
  {
    assert DepthUpTo(geo, loops, 0, 1) == 0;
    assert DepthOrder(Depths(geo, loops), 1) == [0];
  }

  /** The loops of the polygon built from a list of loops. */
  method FromLoops<P>(geo: Geometry<P>, loops: seq<seq<P>>) returns (out: seq<Loop<P>>)
    ensures out == Nested(geo, Kept(geo, loops))
  {
    hide Kept, Nested, DepthOrder;
    var kept := RetainNonEmpty(geo, loops);
    if kept == [] {
      return [];
    }
    if |kept| == 1 {
      SingleLoop(geo, kept);
      out := [Loop(kept[0], 0)];
    } else {
      out := InitNesting(geo, kept);
    }
  }

  /** The positions of the loops that are neither empty nor without vertices, in order. */
  ghost predicate GoodPlaces<P>(geo: Geometry<P>, loops: seq<seq<P>>, places: seq<nat>) {
    && (forall i :: 0 <= i < |places| ==> places[i] < |loops|)
    && (forall i, j :: 0 <= i < j < |places| ==> places[i] < places[j])
    && forall k: nat :: k in places <==> k < |loops| && !geo.isEmptyLoop(loops[k]) && loops[k] != []
  }

  /** `found` lists what stands at the given places. */
  ghost predicate FoundAt<T>(s: seq<T>, places: seq<nat>, found: seq<T>) {
    |found| == |places| && forall i :: 0 <= i < |places| ==> places[i] < |s| && found[i] == s[places[i]]
  }

  /** The loops kept are those at the good places, one by one and in order. */
  lemma {:induction false} KeptPlaces<P>(geo: Geometry<P>, loops: seq<seq<P>>) returns (places: seq<nat>)
    ensures GoodPlaces(geo, loops, places) && FoundAt(loops, places, Kept(geo, loops))
  {
    places := [];
    if loops != [] {
      var n := |loops| - 1;
      var init := loops[..n];
      var before := KeptPlaces(geo, init);
      places := before;
      if !geo.isEmptyLoop(loops[n]) && loops[n] != [] {
        places := before + [n];
      }
      forall k: nat ensures k in places <==> k < |loops| && !geo.isEmptyLoop(loops[k]) && loops[k] != [] {
        assert k < n ==> loops[k] == init[k];
      }
    }
  }

  method RetainNonEmpty<P>(geo: Geometry<P>, loops: seq<seq<P>>) returns (kept: seq<seq<P>>)
    ensures kept == Kept(geo, loops)
    ensures exists places :: GoodPlaces(geo, loops, places) && FoundAt(loops, places, kept)
  {
    kept := [];
    for n := 0 to |loops|
      invariant kept == Kept(geo, loops[..n])
    {
      assert loops[..n + 1][..n] == loops[..n];
      if !geo.isEmptyLoop(loops[n]) && |loops[n]| > 0 {
        kept := kept + [loops[n]];
      }
    }
    assert loops[..|loops|] == loops;
    ghost var places := KeptPlaces(geo, loops);
  }

  // ----- depth is the number of containing loops -----

  /** Loops that are nested or apart, on which the containment test is right. */
  ghost predicate Nestable<P(!new)>(geo: Geometry<P>, vs: seq<seq<P>>) {
    && Laminar(geo.inside, vs)
    && (forall i :: 0 <= i < |vs| ==> vs[i] != [])
    && forall i, j :: 0 <= i < |vs| && 0 <= j < |vs| && i != j ==>
         (geo.containsNested(vs[j], vs[i]) <==> RegionWithin(geo.inside, vs[i], vs[j]))
  }

  lemma DepthsAreCounts<P(!new)>(geo: Geometry<P>, vs: seq<seq<P>>)
    requires Nestable(geo, vs)
    ensures DepthsCount(geo.inside, vs, Depths(geo, vs))
  {
    forall i | 0 <= i < |vs| ensures Depths(geo, vs)[i] == |Containers(geo.inside, vs, i)| {
      DepthIsSize(geo, vs, i, |vs|);
      TestedIsContained(geo, vs, i);
    }
  }

  lemma TestedIsContained<P(!new)>(geo: Geometry<P>, vs: seq<seq<P>>, i: nat)
    requires Nestable(geo, vs) && i < |vs|
    ensures TestedContainers(geo, vs, i, |vs|) == Containers(geo.inside, vs, i)
  {
    hide Laminar, RegionWithin;
  }

  // ----- reordering keeps the family -----

  lemma {:induction false} ImageSize(a: set<nat>, f: seq<nat>)
    requires forall x :: x in a ==> x < |f|
    requires forall x, y :: x in a && y in a && x != y ==> f[x] != f[y]
    ensures |set x | x in a :: f[x]| == |a|
    decreases |a|
  {
    var image := set x | x in a :: f[x];
    if x :| x in a {
      var rest := a - {x};
      ImageSize(rest, f);
      assert image == (set y | y in rest :: f[y]) + {f[x]};
    } else {
      assert image == {};
    }
  }

  ghost predicate Reordering(order: seq<nat>, n: nat) {
    && |order| == n
    && (forall k :: 0 <= k < n ==> order[k] < n)
    && (forall j, k :: 0 <= j < k < n ==> order[j] != order[k])
    && forall x: nat :: x < n ==> x in order
  }

  lemma {:induction false} DepthOrderIsReordering(d: seq<int>)
    ensures Reordering(DepthOrder(d, |d|), |d|)
    ensures Stable(d, DepthOrder(d, |d|))
    ensures LevelOrdered(Pick(d, DepthOrder(d, |d|)))
  {
    DepthOrderIsStable(d, |d|);
    var order := DepthOrder(d, |d|);
    forall j, k | 0 <= j < k < |order| ensures order[j] != order[k] && d[order[j]] <= d[order[k]] {
      assert Before(d, order[j], order[k]);
    }
  }

  lemma LaminarReordered<R, P(!new)>(inside: Interior<R, P>, rs: seq<R>, order: seq<nat>)
    requires Laminar(inside, rs) && Reordering(order, |rs|)
    ensures Laminar(inside, Pick(rs, order))
  {
    hide NestedOrApart, NonEmpty;
  }

  lemma DepthsReordered<R, P(!new)>(inside: Interior<R, P>, rs: seq<R>, d: seq<int>, order: seq<nat>)
    requires DepthsCount(inside, rs, d) && Reordering(order, |rs|)
    ensures DepthsCount(inside, Pick(rs, order), Pick(d, order))
  {
    hide RegionWithin;
    forall k | 0 <= k < |rs| ensures Pick(d, order)[k] == |Containers(inside, Pick(rs, order), k)| {
      ContainersReordered(inside, rs, order, k);
    }
  }

  lemma ContainersReordered<R, P(!new)>(inside: Interior<R, P>, rs: seq<R>, order: seq<nat>, k: nat)
    requires Reordering(order, |rs|) && k < |rs|
    ensures |Containers(inside, Pick(rs, order), k)| == |Containers(inside, rs, order[k])|
  {
    hide RegionWithin;
    var there, here := Containers(inside, rs, order[k]), Containers(inside, Pick(rs, order), k);
    ImageSize(here, order);
    var image := set x | x in here :: order[x];
    forall y | y in there ensures y in image {
      assert y in order;
      var x :| 0 <= x < |order| && order[x] == y;
      assert x in here;
    }
    assert there == image;
  }

  /** A stable sort by depth keeps which loop comes last at each depth. */
  lemma LastReordered(d: seq<int>, order: seq<nat>, k: nat)
    requires Stable(d, order) && Reordering(order, |d|) && k < |d|
    ensures LastAtDepth(Pick(d, order), k) <==> LastAtDepth(d, order[k])
  {
    var e := Pick(d, order);
    if LastAtDepth(d, order[k]) {
      forall i | k < i < |d| ensures e[i] != e[k] {
        assert Before(d, order[k], order[i]);
      }
    }
    if LastAtDepth(e, k) {
      forall x | order[k] < x < |d| ensures d[x] != d[order[k]] {
        assert x in order;
        var i :| 0 <= i < |order| && order[i] == x;
        if i < k {
          assert Before(d, order[i], order[k]);
        } else {
          assert i > k && e[i] != e[k];
        }
      }
    }
  }

  lemma OnlyLastReordered<R, P(!new)>(inside: Interior<R, P>, rs: seq<R>, d: seq<int>, order: seq<nat>, odd: bool)
    requires |d| == |rs| && Stable(d, order) && Reordering(order, |d|)
    ensures OnlyLastContains(inside, Pick(rs, order), Pick(d, order), odd) <==> OnlyLastContains(inside, rs, d, odd)
  {
    hide RegionWithin, LastAtDepth, Stable, Even;
    var rs', d' := Pick(rs, order), Pick(d, order);
    if OnlyLastContains(inside, rs, d, odd) {
      forall j: nat, k: nat | j < |d| && k < |d| && Even(d'[k]) != odd && d'[j] == d'[k] - 1 && RegionWithin(inside, rs'[k], rs'[j])
        ensures LastAtDepth(d', j)
      {
        LastReordered(d, order, j);
        assert LastAtDepth(d, order[j]);
      }
    }
    if OnlyLastContains(inside, rs', d', odd) {
      forall x: nat, y: nat | x < |d| && y < |d| && Even(d[y]) != odd && d[x] == d[y] - 1 && RegionWithin(inside, rs[y], rs[x])
        ensures LastAtDepth(d, x)
      {
        assert x in order && y in order;
        var j :| 0 <= j < |order| && order[j] == x;
        var k :| 0 <= k < |order| && order[k] == y;
        LastReordered(d, order, j);
        assert LastAtDepth(d', j);
      }
    }
  }

  // ----- the polygon as polygons with holes -----

  function LoopItems<P>(loops: seq<Loop<P>>): (items: seq<Item<seq<P>>>)
    ensures |items| == |loops|
    ensures forall k :: 0 <= k < |loops| ==> items[k].depth == loops[k].depth && items[k].ring == loops[k].vertices
  {
    seq(|loops|, k requires 0 <= k < |loops| => Item(loops[k].depth, loops[k].vertices))
  }

  function RingItems<P, C>(conv: Conversion<P, C>, loops: seq<Loop<P>>): (items: seq<Item<seq<C>>>)
    ensures |items| == |loops|
    ensures forall k :: 0 <= k < |loops| ==> items[k].depth == loops[k].depth && items[k].ring == RingOf(conv, loops[k].vertices)
  {
    seq(|loops|, k requires 0 <= k < |loops| => Item(loops[k].depth, RingOf(conv, loops[k].vertices)))
  }

  /** `From<Polygon> for MultiPolygon`. */
  method MultiPolygonFrom<P, C>(conv: Conversion<P, C>, loops: seq<Loop<P>>) returns (polys: seq<GeoPoly<seq<C>>>)
    ensures polys == Converted(RingItems(conv, loops))
  {
    var items := [];
    for n := 0 to |loops|
      invariant items == RingItems(conv, loops)[..n]
    {
      var ring := LoopToRing(conv, loops[n].vertices);
      items := items + [Item(loops[n].depth, ring)];
    }
    assert items == RingItems(conv, loops);
    polys := ToMultiPolygon(items);
  }

  /** What a ring holds, read back as the library reads a ring. */
  function InRing<P, C(==)>(geo: Geometry<P>, conv: Conversion<P, C>): Interior<seq<C>, P> {
    (ring, p) => geo.inside(LoopOf(conv, ring), p)
  }

  /** The converted polygons hold a point iff the polygon does, and never two of them at once. */
  ghost predicate ConvertsFaithfully<P(!new), C>(geo: Geometry<P>, conv: Conversion<P, C>, loops: seq<Loop<P>>) {
    forall p :: FaithfulAt(geo, conv, loops, p)
  }

  ghost predicate FaithfulAt<P, C>(geo: Geometry<P>, conv: Conversion<P, C>, loops: seq<Loop<P>>, p: P) {
    var polys := Converted(RingItems(conv, loops));
    && (InOdd(geo.inside, LoopItems(loops), p) <==> SomePoly(InRing(geo, conv), polys, p))
    && AtMostOnePoly(InRing(geo, conv), polys, p)
  }

  lemma {:induction false} SameOdd<P(!new), C>(geo: Geometry<P>, conv: Conversion<P, C>, loops: seq<Loop<P>>, p: P)
    requires PointsSurvive(conv)
    ensures InOdd(InRing(geo, conv), RingItems(conv, loops), p) == InOdd(geo.inside, LoopItems(loops), p)
  {
    if loops != [] {
      hide RingOf, LoopOf;
      assert RingItems(conv, loops)[1..] == RingItems(conv, loops[1..]);
      assert LoopItems(loops)[1..] == LoopItems(loops[1..]);
      LoopSurvives(conv, loops[0].vertices);
      SameOdd(geo, conv, loops[1..], p);
    }
  }

  /** The rings of the loops, read back, and the loops themselves are kept and contained alike. */
  lemma RingsAsLoops<P(!new), C>(geo: Geometry<P>, conv: Conversion<P, C>, loops: seq<Loop<P>>, vs: seq<seq<P>>, d: seq<int>, p: P)
      returns (rings: seq<seq<C>>)
    requires PointsSurvive(conv) && |vs| == |d| == |loops|
    requires forall k :: 0 <= k < |loops| ==> loops[k] == Loop(vs[k], d[k])
    ensures |rings| == |vs| && RingItems(conv, loops) == ItemsOf(rings, d)
    ensures HitSet(InRing(geo, conv), rings, d, p) == HitSet(geo.inside, vs, d, p)
    ensures Chain(InRing(geo, conv), rings, p) == Chain(geo.inside, vs, p)
  {
    hide RingOf, LoopOf, HolesOf;
    rings := seq(|vs|, k requires 0 <= k < |vs| => RingOf(conv, vs[k]));
    var inRing := InRing(geo, conv);
    forall k | 0 <= k < |vs| ensures inRing(rings[k], p) == geo.inside(vs[k], p) {
      LoopSurvives(conv, vs[k]);
    }
  }

  /** A converted polygon holds a point exactly when some shell keeps it. */
  lemma SomePolyByCounting<P(!new), C>(geo: Geometry<P>, conv: Conversion<P, C>, loops: seq<Loop<P>>, vs: seq<seq<P>>, d: seq<int>, p: P)
    requires PointsSurvive(conv) && |vs| == |d| == |loops|
    requires forall k :: 0 <= k < |loops| ==> loops[k] == Loop(vs[k], d[k])
    ensures SomePoly(InRing(geo, conv), Converted(RingItems(conv, loops)), p) <==> HitSet(geo.inside, vs, d, p) != {}
  {
    hide HitSet, Converted, SomePoly, InRing;
    var rings := RingsAsLoops(geo, conv, loops, vs, d, p);
    HitsAreCounted(InRing(geo, conv), rings, d, p);
    HitsMeaning(InRing(geo, conv), Converted(RingItems(conv, loops)), p);
  }

  /** Faithfulness at a point, in terms of the loops' own interiors. */
  lemma FaithfulByCounting<P(!new), C>(geo: Geometry<P>, conv: Conversion<P, C>, loops: seq<Loop<P>>, vs: seq<seq<P>>, d: seq<int>, p: P)
    requires PointsSurvive(conv) && |vs| == |d| == |loops|
    requires forall k :: 0 <= k < |loops| ==> loops[k] == Loop(vs[k], d[k])
    ensures FaithfulAt(geo, conv, loops, p) <==> AgreesAt(geo.inside, vs, d, p)
  {
    hide HitSet, Chain, Converted, InRing;
    var rings := RingsAsLoops(geo, conv, loops, vs, d, p);
    SameOdd(geo, conv, loops, p);
    AgreesByCounting(InRing(geo, conv), rings, d, p);
    AgreesMeaning(InRing(geo, conv), RingItems(conv, loops), Converted(RingItems(conv, loops)), p);
  }

  /**
   When the library's own polygons convert faithfully. `from_loops` lists loops by depth, not
   depth first, so the conversion gives every hole to the last shell one level up: it keeps the
   region exactly when, at each shell level, only the last loop contains loops one level down.
   */
  lemma {:induction false} FromLoopsConvertsIff<P(!new), C>(geo: Geometry<P>, conv: Conversion<P, C>, loops: seq<seq<P>>)
    requires PointsSurvive(conv) && Nestable(geo, Kept(geo, loops))
    ensures ConvertsFaithfully(geo, conv, Nested(geo, Kept(geo, loops)))
       <==> OnlyLastHasHoles(geo.inside, Kept(geo, loops), Depths(geo, Kept(geo, loops)))
  {
    hide Kept, Nestable, AgreesAt, FaithfulAt, OnlyLastHasHoles, Laminar, DepthsCount, LevelOrdered;
    var vs := Kept(geo, loops);
    var d := Depths(geo, vs);
    var order := DepthOrder(d, |d|);
    SortedFamily(geo, vs);
    LevelOrderIff(geo.inside, Pick(vs, order), Pick(d, order));
    forall p ensures FaithfulAt(geo, conv, Nested(geo, vs), p) <==> AgreesAt(geo.inside, Pick(vs, order), Pick(d, order), p) {
      FaithfulByCounting(geo, conv, Nested(geo, vs), Pick(vs, order), Pick(d, order), p);
    }
  }

  lemma SortedFamily<P(!new)>(geo: Geometry<P>, vs: seq<seq<P>>)
    requires Nestable(geo, vs)
    ensures var d := Depths(geo, vs);
      var order := DepthOrder(d, |d|);
      && Laminar(geo.inside, Pick(vs, order)) && DepthsCount(geo.inside, Pick(vs, order), Pick(d, order))
      && LevelOrdered(Pick(d, order))
      && (OnlyLastHasHoles(geo.inside, Pick(vs, order), Pick(d, order)) <==> OnlyLastHasHoles(geo.inside, vs, d))
      && (OnlyLastHasIslands(geo.inside, Pick(vs, order), Pick(d, order)) <==> OnlyLastHasIslands(geo.inside, vs, d))
  {
    hide Nestable, OnlyLastContains, Laminar, DepthsCount, LevelOrdered, Reordering, Stable;
    var d := Depths(geo, vs);
    var order := DepthOrder(d, |d|);
    NestableIsLaminar(geo, vs);
    DepthsAreCounts(geo, vs);
    DepthOrderIsReordering(d);
    LaminarReordered(geo.inside, vs, order);
    DepthsReordered(geo.inside, vs, d, order);
    OnlyLastReordered(geo.inside, vs, d, order, true);
    OnlyLastReordered(geo.inside, vs, d, order, false);
  }

  lemma NestableIsLaminar<P(!new)>(geo: Geometry<P>, vs: seq<seq<P>>)
    requires Nestable(geo, vs)
    ensures Laminar(geo.inside, vs)
  {
  }

  /** A depth-first polygon, whose loops are well nested, converts faithfully. */
  lemma DepthFirstConverts<P(!new), C>(geo: Geometry<P>, conv: Conversion<P, C>, loops: seq<Loop<P>>)
    requires PointsSurvive(conv)
    requires ValidDepths(LoopItems(loops)) && WellNested(geo.inside, Forest(LoopItems(loops), 0))
    ensures ConvertsFaithfully(geo, conv, loops)
  {
    hide ValidDepths, WellNested, Forest, Converted, AgreesAt, FaithfulAt, Agrees, AtMostOnePoly, SomePoly;
    var vs := seq(|loops|, k requires 0 <= k < |loops| => loops[k].vertices);
    var d := seq(|loops|, k requires 0 <= k < |loops| => loops[k].depth);
    assert LoopItems(loops) == ItemsOf(vs, d);
    forall p ensures FaithfulAt(geo, conv, loops, p) {
      FaithfulByCounting(geo, conv, loops, vs, d, p);
      ConversionPreservesRegion(geo.inside, LoopItems(loops), p);
      AgreesMeaning(geo.inside, LoopItems(loops), Converted(LoopItems(loops)), p);
      AgreesByCounting(geo.inside, vs, d, p);
    }
  }
}
