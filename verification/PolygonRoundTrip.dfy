/**
 A polygon with holes taken in and given back, and the smallest multi-shell polygon on which the
 conversion goes wrong.
 */
module PolygonRoundTrip {
  import opened Rings
  import opened ShellStack
  import opened Regions
  import opened Hosts
  import opened LoopFamily
  import opened PolygonNesting

  /** Depths already in order are left in order by the stable sort. */
  lemma {:induction false} SortedStays(d: seq<int>, n: nat)
    requires LevelOrdered(d) && n <= |d|
    ensures forall k :: 0 <= k < n ==> DepthOrder(d, n)[k] == k
  {
    if n > 0 {
      SortedStays(d, n - 1);
    }
  }

  // ----- taking a polygon with holes in -----

  function LoopsOf<P, C(==)>(conv: Conversion<P, C>, g: GeoPoly<seq<C>>): (loops: seq<seq<P>>)
    ensures |loops| == 1 + |g.holes|
  {
    [LoopOf(conv, g.exterior)] + seq(|g.holes|, i requires 0 <= i < |g.holes| => LoopOf(conv, g.holes[i]))
  }

  /** `From<geo_types::Polygon> for Polygon`. */
  method FromGeoPolygon<P, C(==)>(geo: Geometry<P>, conv: Conversion<P, C>, g: GeoPoly<seq<C>>) returns (out: seq<Loop<P>>)
    ensures out == Nested(geo, Kept(geo, LoopsOf(conv, g)))
  {
    var exterior := RingToLoop(conv, g.exterior);
    var loops := [exterior];
    for i := 0 to |g.holes|
      invariant loops == LoopsOf(conv, g)[..1 + i]
    {
      var ring := RingToLoop(conv, g.holes[i]);
      loops := loops + [ring];
    }
    assert loops == LoopsOf(conv, g);
    out := FromLoops(geo, loops);
  }

  /** A ring that closes and is more than a point. */
  predicate ProperRing<C(==)>(ring: seq<C>) {
    |ring| >= 2 && Closed(ring)
  }

  /** Holes inside the exterior and apart from each other, all with interiors, tested correctly. */
  ghost predicate SimplePolygon<P(!new), C>(geo: Geometry<P>, conv: Conversion<P, C>, g: GeoPoly<seq<C>>) {
    var loops := LoopsOf(conv, g);
    && ProperRing(g.exterior) && (forall i :: 0 <= i < |g.holes| ==> ProperRing(g.holes[i]))
    && (forall i :: 0 <= i < |loops| ==> !geo.isEmptyLoop(loops[i]))
    && Nestable(geo, loops)
    && (forall i :: 1 <= i < |loops| ==> RegionWithin(geo.inside, loops[i], loops[0]))
    && (forall i, j :: 1 <= i < |loops| && 1 <= j < |loops| && i != j ==> RegionsApart(geo.inside, loops[i], loops[j]))
  }

  lemma {:induction false} AllKept<P>(geo: Geometry<P>, loops: seq<seq<P>>)
    requires forall i :: 0 <= i < |loops| ==> !geo.isEmptyLoop(loops[i]) && loops[i] != []
    ensures Kept(geo, loops) == loops
  {
    if loops != [] {
      AllKept(geo, loops[..|loops| - 1]);
      assert loops == loops[..|loops| - 1] + [loops[|loops| - 1]];
    }
  }

  lemma SimpleDepths<P(!new), C>(geo: Geometry<P>, conv: Conversion<P, C>, g: GeoPoly<seq<C>>)
    requires SimplePolygon(geo, conv, g)
    ensures var d := Depths(geo, LoopsOf(conv, g));
      forall k :: 0 <= k < |d| ==> d[k] == if k == 0 then 0 else 1
  {
    hide LoopsOf, RegionsApart, RegionWithin;
    var loops := LoopsOf(conv, g);
    var d := Depths(geo, loops);
    DepthsAreCounts(geo, loops);
    assert Laminar(geo.inside, loops);
    forall k | 0 <= k < |loops| ensures Containers(geo.inside, loops, k) == if k == 0 then {} else {0} {
      if k == 0 {
        forall j | 0 < j < |loops| ensures !RegionWithin(geo.inside, loops[0], loops[j]) {
          assert NestedOrApart(geo.inside, loops[0], loops[j]);
        }
      } else {
        forall j | 0 < j < |loops| && j != k ensures !RegionWithin(geo.inside, loops[k], loops[j]) {
          assert NonEmpty(geo.inside, loops[k]);
          ApartNotWithin(geo.inside, loops[k], loops[j]);
        }
      }
    }
  }

  lemma ApartNotWithin<R, P(!new)>(inside: Interior<R, P>, a: R, b: R)
    requires NonEmpty(inside, a) && RegionsApart(inside, a, b)
    ensures !RegionWithin(inside, a, b)
  {
    var p :| inside(a, p);
    assert !inside(b, p);
  }

  lemma {:induction false} SimpleNested<P(!new), C>(geo: Geometry<P>, conv: Conversion<P, C>, g: GeoPoly<seq<C>>)
    requires SimplePolygon(geo, conv, g)
    ensures var loops := LoopsOf(conv, g);
      var out := Nested(geo, Kept(geo, loops));
      |out| == |loops| && forall k :: 0 <= k < |loops| ==> out[k] == Loop(loops[k], if k == 0 then 0 else 1)
  {
    hide LoopsOf, Laminar, RegionWithin, RegionsApart, LoopOf;
    var loops := LoopsOf(conv, g);
    SimpleDepths(geo, conv, g);
    hide NestingDepth;
    AllKept(geo, loops);
    SortedStays(Depths(geo, loops), |loops|);
  }

  /** Every coordinate of every ring comes back unchanged from its conversion to a point. */
  ghost predicate CoordsSurvive<P, C>(conv: Conversion<P, C>, g: GeoPoly<seq<C>>) {
    && RingSurvives(conv, g.exterior)
    && forall i :: 0 <= i < |g.holes| ==> RingSurvives(conv, g.holes[i])
  }

  ghost predicate RingSurvives<P, C>(conv: Conversion<P, C>, ring: seq<C>) {
    forall i :: 0 <= i < |ring| ==> CoordSurvives(conv, ring[i])
  }

  /**
   Taken in and given back, a simple polygon is itself, one polygon with the same rings in order,
   exactly when its coordinates survive the conversion to points.
   */
  lemma {:induction false} GeoPolygonSurvives<P(!new), C(!new)>(geo: Geometry<P>, conv: Conversion<P, C>, g: GeoPoly<seq<C>>)
    requires SimplePolygon(geo, conv, g)
    ensures Converted(RingItems(conv, Nested(geo, Kept(geo, LoopsOf(conv, g))))) == [g] <==> CoordsSurvive(conv, g)
  {
    hide Nested, Kept, SimplePolygon, RingOf, LoopOf, Converted, LoopsOf;
    SimpleNested(geo, conv, g);
    ProperRings(geo, conv, g);
    LoopsInOrder(conv, g);
    var items := RingItems(conv, Nested(geo, Kept(geo, LoopsOf(conv, g))));
    var back := Returned(conv, g);
    assert items[0] == Item(0, back.exterior);
    forall i | 0 <= i < |g.holes| ensures items[i + 1] == Item(1, back.holes[i]) {
    }
    assert items == [Item(0, back.exterior)] + HoleItems(back.holes);
    OneShell(back);
    ReturnedIff(conv, g);
  }

  /** The polygon whose rings are those of `g`, each taken to a loop and back. */
  function Returned<P, C(==)>(conv: Conversion<P, C>, g: GeoPoly<seq<C>>): GeoPoly<seq<C>> {
    GeoPoly(RingOf(conv, LoopOf(conv, g.exterior)),
      seq(|g.holes|, i requires 0 <= i < |g.holes| => RingOf(conv, LoopOf(conv, g.holes[i]))))
  }

  lemma ReturnedIff<P, C>(conv: Conversion<P, C>, g: GeoPoly<seq<C>>)
    requires ProperRing(g.exterior) && forall i :: 0 <= i < |g.holes| ==> ProperRing(g.holes[i])
    ensures Returned(conv, g) == g <==> CoordsSurvive(conv, g)
  {
    hide RingOf, LoopOf, CoordSurvives;
    var back := Returned(conv, g);
    RingSurvivesIffClosed(conv, g.exterior);
    forall i | 0 <= i < |g.holes| ensures back.holes[i] == g.holes[i] <==> RingSurvives(conv, g.holes[i]) {
      RingSurvivesIffClosed(conv, g.holes[i]);
    }
    assert back.holes == g.holes <==> forall i :: 0 <= i < |g.holes| ==> back.holes[i] == g.holes[i];
  }

  lemma LoopsInOrder<P, C>(conv: Conversion<P, C>, g: GeoPoly<seq<C>>)
    ensures |LoopsOf(conv, g)| == |g.holes| + 1
    ensures LoopsOf(conv, g)[0] == LoopOf(conv, g.exterior)
    ensures forall i :: 0 <= i < |g.holes| ==> LoopsOf(conv, g)[i + 1] == LoopOf(conv, g.holes[i])
  {
  }

  lemma ProperRings<P(!new), C>(geo: Geometry<P>, conv: Conversion<P, C>, g: GeoPoly<seq<C>>)
    requires SimplePolygon(geo, conv, g)
    ensures ProperRing(g.exterior) && forall i :: 0 <= i < |g.holes| ==> ProperRing(g.holes[i])
  {
  }

  function HoleItems<R>(holes: seq<R>): (items: seq<Item<R>>)
    ensures |items| == |holes|
  {
    seq(|holes|, i requires 0 <= i < |holes| => Item(1, holes[i]))
  }

  function Leaves<R>(rings: seq<R>): seq<Tree<R>> {
    seq(|rings|, i requires 0 <= i < |rings| => Node(rings[i], []))
  }

  lemma {:induction false} LeavesFlatten<R>(rings: seq<R>)
    ensures Flatten(Leaves(rings), 1) == HoleItems(rings)
    ensures RootRings(Leaves(rings)) == rings && Islands(Leaves(rings)) == []
  {
    if rings != [] {
      var trees := Leaves(rings);
      assert trees[1..] == Leaves(rings[1..]) && trees[0] == Node(rings[0], []);
      LeavesFlatten(rings[1..]);
      assert Flatten<R>([], 2) == [];
      assert HoleItems(rings) == [Item(1, rings[0])] + HoleItems(rings[1..]);
      assert rings == [rings[0]] + rings[1..];
      assert Polys<R>([]) == [];
    }
  }

  lemma OneShell<R>(g: GeoPoly<R>)
    ensures Converted([Item(0, g.exterior)] + HoleItems(g.holes)) == [g]
  {
    var t := Node(g.exterior, Leaves(g.holes));
    LeavesFlatten(g.holes);
    assert [t][1..] == [];
    assert Flatten([t], 0) == [Item(0, g.exterior)] + HoleItems(g.holes);
    MachineIsTraversal([t]);
    assert Polys([t]) == [g];
  }

  // ----- two shells, each with a hole -----

  /** Half-open intervals of integers as loops of two vertices; an odd vertex count means the complement. */
  function IntervalGeometry(): Geometry<int> {
    Geometry(
      (v, p) => (|v| >= 2 && v[0] <= p < v[1]) != (|v| % 2 == 1),
      (a, b) => |a| == 2 && |b| == 2 && a[0] <= b[0] && b[1] <= a[1],
      v => false)
  }

  const TWO_SHELLS: seq<seq<int>> := [[0, 10], [20, 30], [2, 4], [22, 24]]

  ghost predicate Proper(v: seq<int>) {
    |v| == 2 && v[0] < v[1]
  }

  lemma IntervalNesting(a: seq<int>, b: seq<int>)
    requires Proper(a) && Proper(b)
    ensures RegionWithin(IntervalGeometry().inside, b, a) <==> a[0] <= b[0] && b[1] <= a[1]
    ensures RegionsApart(IntervalGeometry().inside, a, b) <==> a[1] <= b[0] || b[1] <= a[0]
    ensures NonEmpty(IntervalGeometry().inside, a)
  {
    var inside := IntervalGeometry().inside;
    assert inside(a, a[0]) && inside(b, b[0]) && inside(b, b[1] - 1);
    if b[0] < a[1] && a[0] < b[1] {
      var p := if a[0] < b[0] then b[0] else a[0];
      assert inside(a, p) && inside(b, p);
    }
  }

  /** A list of intervals is nestable when any two are nested or apart by their ends. */
  lemma IntervalsNestable(vs: seq<seq<int>>)
    requires forall i :: 0 <= i < |vs| ==> Proper(vs[i])
    requires forall i, j :: 0 <= i < j < |vs| ==>
      && Proper(vs[i]) && Proper(vs[j]) && vs[i] != vs[j]
      && ((vs[i][0] <= vs[j][0] && vs[j][1] <= vs[i][1]) || vs[i][1] <= vs[j][0] || vs[j][1] <= vs[i][0])
    ensures Nestable(IntervalGeometry(), vs)
    ensures forall i, j :: 0 <= i < |vs| && 0 <= j < |vs| ==>
      && |vs[i]| == 2 && |vs[j]| == 2
      && (RegionWithin(IntervalGeometry().inside, vs[i], vs[j]) <==> vs[j][0] <= vs[i][0] && vs[i][1] <= vs[j][1])
  {
    var geo := IntervalGeometry();
    forall i, j | 0 <= i < |vs| && 0 <= j < |vs|
      ensures RegionWithin(geo.inside, vs[i], vs[j]) <==> vs[j][0] <= vs[i][0] && vs[i][1] <= vs[j][1]
      ensures NonEmpty(geo.inside, vs[i])
      ensures i != j ==> NestedOrApart(geo.inside, vs[i], vs[j])
    {
      IntervalNesting(vs[i], vs[j]);
      IntervalNesting(vs[j], vs[i]);
      assert vs[i] == [vs[i][0], vs[i][1]] && vs[j] == [vs[j][0], vs[j][1]];
    }
  }

  lemma TwoShellsAreNestable()
    ensures Nestable(IntervalGeometry(), TWO_SHELLS)
    ensures RegionWithin(IntervalGeometry().inside, TWO_SHELLS[2], TWO_SHELLS[0])
  {
    hide Nestable, RegionWithin;
    var vs := TWO_SHELLS;
    assert vs[0] == [0, 10] && vs[1] == [20, 30] && vs[2] == [2, 4] && vs[3] == [22, 24];
    IntervalsNestable(vs);
  }

  lemma DepthOfFour<P>(geo: Geometry<P>, vs: seq<seq<P>>, i: nat)
    requires |vs| == 4 && i < 4 && vs[i] != []
    ensures NestingDepth(geo, vs, i)
         == (if i != 0 && geo.containsNested(vs[0], vs[i]) then 1 else 0)
          + (if i != 1 && geo.containsNested(vs[1], vs[i]) then 1 else 0)
          + (if i != 2 && geo.containsNested(vs[2], vs[i]) then 1 else 0)
          + (if i != 3 && geo.containsNested(vs[3], vs[i]) then 1 else 0)
  {
    assert DepthUpTo(geo, vs, i, 1) == if i != 0 && geo.containsNested(vs[0], vs[i]) then 1 else 0;
    assert DepthUpTo(geo, vs, i, 2) == DepthUpTo(geo, vs, i, 1) + if i != 1 && geo.containsNested(vs[1], vs[i]) then 1 else 0;
    assert DepthUpTo(geo, vs, i, 3) == DepthUpTo(geo, vs, i, 2) + if i != 2 && geo.containsNested(vs[2], vs[i]) then 1 else 0;
  }

  lemma TwoShellsDepths()
    ensures Depths(IntervalGeometry(), TWO_SHELLS) == [0, 0, 1, 1]
  {
    hide NestingDepth;
    var geo, vs := IntervalGeometry(), TWO_SHELLS;
    assert vs[0] == [0, 10] && vs[1] == [20, 30] && vs[2] == [2, 4] && vs[3] == [22, 24];
    DepthOfFour(geo, vs, 0);
    DepthOfFour(geo, vs, 1);
    DepthOfFour(geo, vs, 2);
    DepthOfFour(geo, vs, 3);
  }

  lemma {:induction false} OddOfFourLoops<R, P>(inside: Interior<R, P>, items: seq<Item<R>>, p: P)
    requires |items| == 4
    ensures InOdd(inside, items, p)
         == (inside(items[0].ring, p) != (inside(items[1].ring, p) != (inside(items[2].ring, p) != inside(items[3].ring, p))))
  {
    var a := items[1..];
    var b := a[1..];
    assert a[0] == items[1] && b[0] == items[2] && b[1..][0] == items[3];
    assert b[1..][1..] == [];
    assert InOdd(inside, b[1..], p) == inside(items[3].ring, p);
    assert InOdd(inside, a, p) == (inside(items[1].ring, p) != InOdd(inside, b, p));
  }

  /**
   Two disjoint shells, each with a hole: the library's polygon excludes point 3, which lies in
   the first shell's hole, but the converted polygons include it, because the hole has been given
   to the second shell.
   */
  lemma FirstShellLosesItsHole<C>(conv: Conversion<int, C>)
    requires PointsSurvive(conv)
    ensures var loops := Nested(IntervalGeometry(), Kept(IntervalGeometry(), TWO_SHELLS));
      !FaithfulAt(IntervalGeometry(), conv, loops, 3) && !InOdd(IntervalGeometry().inside, LoopItems(loops), 3)
  {
    hide Nestable, Kept, Depths, Nested, AgreesAt, FaithfulAt, RegionWithin, DepthsCount, Laminar;
    var geo, vs, d := IntervalGeometry(), TWO_SHELLS, [0, 0, 1, 1];
    TwoShellsNested();
    TwoShellsAreNestable();
    TwoShellsDepths();
    DepthsAreCounts(geo, vs);
    NestableIsLaminar(geo, vs);
    assert !LastAtDepth(d, 0) by { assert d[1] == d[0]; }
    hide LastAtDepth;
    DisagreesAt(geo.inside, vs, d, 0, 2, 3);
    var loops := Nested(geo, Kept(geo, vs));
    FaithfulByCounting(geo, conv, loops, vs, d, 3);
    OddOfFourLoops(geo.inside, LoopItems(loops), 3);
  }

  lemma TwoShellsNested()
    ensures var loops := Nested(IntervalGeometry(), Kept(IntervalGeometry(), TWO_SHELLS));
      |loops| == 4 && forall k :: 0 <= k < 4 ==> loops[k] == Loop(TWO_SHELLS[k], [0, 0, 1, 1][k])
  {
    hide NestingDepth, Depths, Kept;
    var d := [0, 0, 1, 1];
    TwoShellsDepths();
    AllKept(IntervalGeometry(), TWO_SHELLS);
    SortedStays(d, 4);
  }
}
