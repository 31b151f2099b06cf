/**
 What loop lists and polygon lists mean as regions, and that converting a well-nested forest
 keeps the region: a point lies in an odd number of loops iff it lies in exactly one polygon.
 */
module Regions {
  import opened ShellStack

  /** Whether a ring's interior holds a point; left open, as it rests on floating-point geometry. */
  type Interior<!R, !P> = (R, P) -> bool

  /** The library's point test on a polygon: exclusive or over its loops. */
  function InOdd<R, P>(inside: Interior<R, P>, items: seq<Item<R>>, p: P): bool {
    if items == [] then false else inside(items[0].ring, p) != InOdd(inside, items[1..], p)
  }

  method BruteForceContains<R, P>(inside: Interior<R, P>, items: seq<Item<R>>, p: P) returns (odd: bool)
    ensures odd == InOdd(inside, items, p)
  {
    odd := false;
    for n := 0 to |items|
      invariant odd != InOdd(inside, items[n..], p) <==> InOdd(inside, items, p)
    {
      assert items[n..][0] == items[n] && items[n..][1..] == items[n + 1..];
      odd := odd != inside(items[n].ring, p);
    }
  }

  /** Membership in a polygon with holes (RFC 7946, section 3.1.6). */
  predicate InPoly<R, P>(inside: Interior<R, P>, g: GeoPoly<R>, p: P) {
    inside(g.exterior, p) && forall i :: 0 <= i < |g.holes| ==> !inside(g.holes[i], p)
  }

  function Hits<R, P>(inside: Interior<R, P>, polys: seq<GeoPoly<R>>, p: P): nat {
    if polys == [] then 0 else (if InPoly(inside, polys[0], p) then 1 else 0) + Hits(inside, polys[1..], p)
  }

  /** The polygons hold `p` the way the loops do: in exactly one polygon, or in none. */
  ghost predicate Agrees<R, P>(inside: Interior<R, P>, items: seq<Item<R>>, polys: seq<GeoPoly<R>>, p: P) {
    Hits(inside, polys, p) == if InOdd(inside, items, p) then 1 else 0
  }

  ghost predicate SomePoly<R, P>(inside: Interior<R, P>, polys: seq<GeoPoly<R>>, p: P) {
    exists t :: 0 <= t < |polys| && InPoly(inside, polys[t], p)
  }

  ghost predicate AtMostOnePoly<R, P>(inside: Interior<R, P>, polys: seq<GeoPoly<R>>, p: P) {
    forall t, u :: 0 <= t < u < |polys| ==> !(InPoly(inside, polys[t], p) && InPoly(inside, polys[u], p))
  }

  lemma {:induction false} HitsMeaning<R, P>(inside: Interior<R, P>, polys: seq<GeoPoly<R>>, p: P)
    ensures Hits(inside, polys, p) == 0 <==> !SomePoly(inside, polys, p)
    ensures Hits(inside, polys, p) <= 1 <==> AtMostOnePoly(inside, polys, p)
  {
    hide InPoly;
    if polys != [] {
      var rest := polys[1..];
      HitsMeaning(inside, rest, p);
      assert forall t :: 1 <= t < |polys| ==> polys[t] == rest[t - 1];
      if SomePoly(inside, rest, p) {
        var t :| 0 <= t < |rest| && InPoly(inside, rest[t], p);
        assert InPoly(inside, polys[t + 1], p);
      }
      if AtMostOnePoly(inside, polys, p) {
        forall t, u | 0 <= t < u < |rest| ensures !(InPoly(inside, rest[t], p) && InPoly(inside, rest[u], p)) {
          assert rest[t] == polys[t + 1] && rest[u] == polys[u + 1];
        }
      }
    }
  }

  /** `Agrees` at every point says: same region, and no two polygons overlap. */
  lemma {:induction false} AgreesMeaning<R, P>(inside: Interior<R, P>, items: seq<Item<R>>, polys: seq<GeoPoly<R>>, p: P)
    ensures Agrees(inside, items, polys, p) <==>
      (InOdd(inside, items, p) <==> SomePoly(inside, polys, p)) && AtMostOnePoly(inside, polys, p)
  {
    HitsMeaning(inside, polys, p);
  }

  lemma {:induction false} InOddConcat<R, P>(inside: Interior<R, P>, a: seq<Item<R>>, b: seq<Item<R>>, p: P)
    ensures InOdd(inside, a + b, p) == (InOdd(inside, a, p) != InOdd(inside, b, p))
  {
    if a == [] {
      assert a + b == b;
    } else {
      assert (a + b)[1..] == a[1..] + b;
      InOddConcat(inside, a[1..], b, p);
    }
  }

  lemma {:induction false} HitsConcat<R, P>(inside: Interior<R, P>, a: seq<GeoPoly<R>>, b: seq<GeoPoly<R>>, p: P)
    ensures Hits(inside, a + b, p) == Hits(inside, a, p) + Hits(inside, b, p)
  {
    hide InPoly;
    if a == [] {
      assert a + b == b;
    } else {
      assert (a + b)[1..] == a[1..] + b;
      HitsConcat(inside, a[1..], b, p);
    }
  }

  // ----- well-nested forests -----

  ghost predicate RegionWithin<R, P(!new)>(inside: Interior<R, P>, inner: R, outer: R) {
    forall p :: inside(inner, p) ==> inside(outer, p)
  }

  ghost predicate RegionsApart<R, P(!new)>(inside: Interior<R, P>, a: R, b: R) {
    forall p :: !(inside(a, p) && inside(b, p))
  }

  /** Children inside their parent, siblings disjoint, all the way down. */
  ghost predicate WellNested<R, P(!new)>(inside: Interior<R, P>, trees: seq<Tree<R>>) {
    trees != [] ==>
      && WellNested(inside, trees[0].children)
      && WellNested(inside, trees[1..])
      && (forall i :: 0 <= i < |trees[0].children| ==> RegionWithin(inside, trees[0].children[i].ring, trees[0].ring))
      && (forall i :: 1 <= i < |trees| ==> RegionsApart(inside, trees[0].ring, trees[i].ring))
  }

  ghost predicate InSomeRoot<R, P>(inside: Interior<R, P>, trees: seq<Tree<R>>, p: P) {
    exists i :: 0 <= i < |trees| && inside(trees[i].ring, p)
  }

  lemma InSomeRootSplit<R, P>(inside: Interior<R, P>, trees: seq<Tree<R>>, p: P)
    requires trees != []
    ensures InSomeRoot(inside, trees, p) <==> inside(trees[0].ring, p) || InSomeRoot(inside, trees[1..], p)
  {
    if InSomeRoot(inside, trees[1..], p) {
      var i :| 0 <= i < |trees[1..]| && inside(trees[1..][i].ring, p);
      assert trees[i + 1] == trees[1..][i];
    }
    if InSomeRoot(inside, trees, p) && !inside(trees[0].ring, p) {
      var i :| 0 <= i < |trees| && inside(trees[i].ring, p);
      assert trees[1..][i - 1] == trees[i];
    }
  }

  lemma {:induction false} InRootRings<R, P>(inside: Interior<R, P>, trees: seq<Tree<R>>, p: P)
    ensures InSomeRoot(inside, trees, p) <==> exists i :: 0 <= i < |RootRings(trees)| && inside(RootRings(trees)[i], p)
  {
    if trees != [] {
      var rings, rest := RootRings(trees), RootRings(trees[1..]);
      InRootRings(inside, trees[1..], p);
      InSomeRootSplit(inside, trees, p);
      assert rings[0] == trees[0].ring && forall i :: 1 <= i < |rings| ==> rings[i] == rest[i - 1];
      if i :| 0 <= i < |rest| && inside(rest[i], p) {
        assert rings[i + 1] == rest[i];
      }
    }
  }

  /** A point in one tree's root is in no later sibling; a point in a child is in the parent. */
  lemma {:induction false} NestingAt<R, P(!new)>(inside: Interior<R, P>, trees: seq<Tree<R>>, p: P)
    requires WellNested(inside, trees) && trees != []
    ensures inside(trees[0].ring, p) ==> !InSomeRoot(inside, trees[1..], p)
    ensures InSomeRoot(inside, trees[0].children, p) ==> inside(trees[0].ring, p)
  {
    if InSomeRoot(inside, trees[1..], p) {
      var i :| 0 <= i < |trees[1..]| && inside(trees[1..][i].ring, p);
      assert RegionsApart(inside, trees[0].ring, trees[i + 1].ring);
    }
    if InSomeRoot(inside, trees[0].children, p) {
      var i :| 0 <= i < |trees[0].children| && inside(trees[0].children[i].ring, p);
      assert RegionWithin(inside, trees[0].children[i].ring, trees[0].ring);
    }
  }

  lemma InOddTree<R, P>(inside: Interior<R, P>, trees: seq<Tree<R>>, d: int, p: P)
    requires trees != []
    ensures InOdd(inside, Flatten(trees, d), p)
         == ((inside(trees[0].ring, p) != InOdd(inside, Flatten(trees[0].children, d + 1), p))
             != InOdd(inside, Flatten(trees[1..], d), p))
  {
    var head, below, after := [Item(d, trees[0].ring)], Flatten(trees[0].children, d + 1), Flatten(trees[1..], d);
    InOddConcat(inside, head + below, after, p);
    InOddConcat(inside, head, below, p);
    assert head[1..] == [];
  }

  lemma {:induction false} ShellsAgree<R, P(!new)>(inside: Interior<R, P>, shells: seq<Tree<R>>, d: int, p: P)
    requires WellNested(inside, shells)
    ensures Agrees(inside, Flatten(shells, d), Polys(shells), p)
    ensures !InSomeRoot(inside, shells, p) ==> !InOdd(inside, Flatten(shells, d), p)
    decreases shells, 1
  {
    if shells != [] {
      hide InPoly, Flatten, RootRings, Islands, RegionWithin, RegionsApart, InSomeRoot;
      var t, rest := shells[0], shells[1..];
      var poly := GeoPoly(t.ring, RootRings(t.children));
      HolesAgree(inside, t.children, d + 1, p);
      ShellsAgree(inside, rest, d, p);
      NestingAt(inside, shells, p);
      InSomeRootSplit(inside, shells, p);
      InOddTree(inside, shells, d, p);
      InPolyOfTree(inside, t, p);
      HitsConcat(inside, Islands(t.children) + [poly], Polys(rest), p);
      HitsConcat(inside, Islands(t.children), [poly], p);
      assert [poly][1..] == [];
    }
  }

  lemma InPolyOfTree<R, P>(inside: Interior<R, P>, t: Tree<R>, p: P)
    ensures InPoly(inside, GeoPoly(t.ring, RootRings(t.children)), p)
       <==> inside(t.ring, p) && !InSomeRoot(inside, t.children, p)
  {
    InRootRings(inside, t.children, p);
  }

  /** Below holes the sense is reversed: islands hold the points of a hole that are in an even number of loops. */
  lemma {:induction false} HolesAgree<R, P(!new)>(inside: Interior<R, P>, holes: seq<Tree<R>>, d: int, p: P)
    requires WellNested(inside, holes)
    ensures Hits(inside, Islands(holes), p)
         == if InSomeRoot(inside, holes, p) && !InOdd(inside, Flatten(holes, d), p) then 1 else 0
    ensures !InSomeRoot(inside, holes, p) ==> !InOdd(inside, Flatten(holes, d), p)
    decreases holes, 0
  {
    if holes != [] {
      hide InPoly, Flatten, RootRings, Polys, RegionWithin, RegionsApart, InSomeRoot;
      var t, rest := holes[0], holes[1..];
      ShellsAgree(inside, t.children, d + 1, p);
      HolesAgree(inside, rest, d, p);
      NestingAt(inside, holes, p);
      InSomeRootSplit(inside, holes, p);
      InOddTree(inside, holes, d, p);
      HitsConcat(inside, Polys(t.children), Islands(rest), p);
    }
  }

  /**
   Conversion preserves the region: for every depth-first loop list whose loops are well nested,
   a point is in an odd number of loops exactly when it is in some polygon, and in no two.
   */
  lemma {:induction false} ConversionPreservesRegion<R, P(!new)>(inside: Interior<R, P>, items: seq<Item<R>>, p: P)
    requires ValidDepths(items) && WellNested(inside, Forest(items, 0))
    ensures InOdd(inside, items, p) <==> SomePoly(inside, Converted(items), p)
    ensures AtMostOnePoly(inside, Converted(items), p)
  {
    ConvertedIsTraversal(items);
    ShellsAgree(inside, Forest(items, 0), 0, p);
    AgreesMeaning(inside, items, Converted(items), p);
  }
}
