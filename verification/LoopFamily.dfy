/**
 Families of loops that are nested or apart, listed in any order, and what the conversion makes
 of them when each loop's depth is the number of loops that contain it.
 */
module LoopFamily {
  import opened ShellStack
  import opened Regions
  import opened Hosts

  ghost predicate NonEmpty<R, P(!new)>(inside: Interior<R, P>, r: R) {
    exists p :: inside(r, p)
  }

  /** Distinct loops are strictly nested one way, or apart; every loop has an interior. */
  ghost predicate Laminar<R, P(!new)>(inside: Interior<R, P>, rs: seq<R>) {
    && (forall i :: 0 <= i < |rs| ==> NonEmpty(inside, rs[i]))
    && forall i, j :: 0 <= i < |rs| && 0 <= j < |rs| && i != j ==> NestedOrApart(inside, rs[i], rs[j])
  }

  ghost predicate NestedOrApart<R, P(!new)>(inside: Interior<R, P>, a: R, b: R) {
    && (RegionWithin(inside, a, b) || RegionWithin(inside, b, a) || RegionsApart(inside, a, b))
    && !(RegionWithin(inside, a, b) && RegionWithin(inside, b, a))
  }

  ghost function Containers<R, P(!new)>(inside: Interior<R, P>, rs: seq<R>, k: nat): set<nat>
    requires k < |rs|
  {
    set j: nat | j < |rs| && j != k && RegionWithin(inside, rs[k], rs[j])
  }

  ghost predicate DepthsCount<R, P(!new)>(inside: Interior<R, P>, rs: seq<R>, d: seq<int>) {
    |d| == |rs| && forall k :: 0 <= k < |rs| ==> d[k] == |Containers(inside, rs, k)|
  }

  /** The loops that contain a point. */
  ghost function Chain<R, P>(inside: Interior<R, P>, rs: seq<R>, p: P): set<nat> {
    set k: nat | k < |rs| && inside(rs[k], p)
  }

  // ----- finite sets -----

  lemma {:induction false} SubsetSize(a: set<nat>, b: set<nat>)
    requires a <= b
    ensures |a| <= |b|
  {
    if x :| x in a {
      SubsetSize(a - {x}, b - {x});
    }
  }

  lemma {:induction false} Deepest(a: set<nat>, d: seq<int>) returns (m: nat)
    requires a != {} && forall k :: k in a ==> k < |d|
    ensures m in a && forall k :: k in a ==> d[k] <= d[m]
    decreases |a|
  {
    m :| m in a;
    var rest := a - {m};
    if rest != {} {
      var r := Deepest(rest, d);
      if d[m] <= d[r] {
        m := r;
      }
    }
  }

  // ----- depth and nesting -----

  /** Strictly inside means strictly deeper. */
  lemma DeeperInside<R, P(!new)>(inside: Interior<R, P>, rs: seq<R>, d: seq<int>, k: nat, i: nat)
    requires Laminar(inside, rs) && DepthsCount(inside, rs, d)
    requires k < |rs| && i in Containers(inside, rs, k)
    ensures d[i] < d[k]
    ensures Containers(inside, rs, i) <= Containers(inside, rs, k) - {i}
  {
    var outer, inner := Containers(inside, rs, i), Containers(inside, rs, k);
    forall j | j in outer ensures j in inner - {i} {
      assert RegionWithin(inside, rs[k], rs[j]);
      assert NestedOrApart(inside, rs[k], rs[i]);
    }
    SubsetSize(outer, inner - {i});
  }

  /** Loops that share a point are strictly nested. */
  lemma SharedPoint<R, P(!new)>(inside: Interior<R, P>, rs: seq<R>, i: nat, k: nat, p: P)
    requires Laminar(inside, rs) && i < |rs| && k < |rs| && i != k
    requires inside(rs[i], p) && inside(rs[k], p)
    ensures i in Containers(inside, rs, k) || k in Containers(inside, rs, i)
  {
    assert NestedOrApart(inside, rs[i], rs[k]);
  }

  /** Among loops that contain a point the deepest is contained in all the others. */
  lemma Innermost<R, P(!new)>(inside: Interior<R, P>, rs: seq<R>, d: seq<int>, p: P) returns (e: nat)
    requires Laminar(inside, rs) && DepthsCount(inside, rs, d) && Chain(inside, rs, p) != {}
    ensures e in Chain(inside, rs, p) && |Chain(inside, rs, p)| == d[e] + 1
    ensures forall k :: k in Chain(inside, rs, p) && k != e ==> d[k] < d[e]
  {
    hide RegionsApart, NestedOrApart, NonEmpty, Laminar;
    var chain := Chain(inside, rs, p);
    e := Deepest(chain, d);
    forall k | k in chain - {e} ensures k in Containers(inside, rs, e) && d[k] < d[e] {
      SharedPoint(inside, rs, k, e, p);
      if e in Containers(inside, rs, k) {
        DeeperInside(inside, rs, d, k, e);
      }
      DeeperInside(inside, rs, d, e, k);
    }
    assert chain - {e} == Containers(inside, rs, e);
    assert |chain - {e}| == |chain| - 1;
  }

  /** A loop that is not outermost has a parent: a container exactly one level up. */
  lemma ParentExists<R, P(!new)>(inside: Interior<R, P>, rs: seq<R>, d: seq<int>, k: nat) returns (j: nat)
    requires Laminar(inside, rs) && DepthsCount(inside, rs, d) && k < |rs| && d[k] > 0
    ensures j in Containers(inside, rs, k) && d[j] == d[k] - 1
  {
    assert NonEmpty(inside, rs[k]);
    hide RegionsApart, NestedOrApart, NonEmpty, Laminar;
    var p :| inside(rs[k], p);
    var above := Containers(inside, rs, k);
    j := Deepest(above, d);
    DeeperInside(inside, rs, d, k, j);
    forall i | i in above - {j} ensures i in Containers(inside, rs, j) {
      SharedPoint(inside, rs, i, j, p);
      if j in Containers(inside, rs, i) {
        DeeperInside(inside, rs, d, i, j);
      }
    }
    assert above - {j} == Containers(inside, rs, j);
    assert |above - {j}| == |above| - 1;
  }

  /** Two loops of the same depth share no point. */
  lemma SameDepthApart<R, P(!new)>(inside: Interior<R, P>, rs: seq<R>, d: seq<int>, i: nat, k: nat, p: P)
    requires Laminar(inside, rs) && DepthsCount(inside, rs, d)
    requires i in Chain(inside, rs, p) && k in Chain(inside, rs, p) && d[i] == d[k]
    ensures i == k
  {
    hide RegionsApart, NestedOrApart, NonEmpty, Laminar;
    if i != k {
      SharedPoint(inside, rs, i, k, p);
      if i in Containers(inside, rs, k) {
        DeeperInside(inside, rs, d, k, i);
      } else {
        DeeperInside(inside, rs, d, i, k);
      }
    }
  }

  /** Every depth up to a loop's own is taken by some loop around each of its points. */
  lemma {:induction false} AtDepth<R, P(!new)>(inside: Interior<R, P>, rs: seq<R>, d: seq<int>, p: P, e: nat, depth: nat) returns (k: nat)
    requires Laminar(inside, rs) && DepthsCount(inside, rs, d) && e in Chain(inside, rs, p) && depth <= d[e]
    ensures k in Chain(inside, rs, p) && d[k] == depth
    decreases d[e]
  {
    if depth == d[e] {
      k := e;
    } else {
      hide RegionsApart, NestedOrApart, NonEmpty, Laminar;
      var j := ParentExists(inside, rs, d, e);
      assert RegionWithin(inside, rs[e], rs[j]);
      k := AtDepth(inside, rs, d, p, j, depth);
    }
  }

  // ----- the shells whose polygon holds a point -----

  ghost predicate HitBy<R, P>(inside: Interior<R, P>, rs: seq<R>, d: seq<int>, j: nat, p: P) {
    && |d| == |rs| && j < |rs| && Even(d[j]) && inside(rs[j], p)
    && forall k :: k in HolesOf(d, j, |d|) && k < |rs| ==> !inside(rs[k], p)
  }

  ghost function HitSet<R, P>(inside: Interior<R, P>, rs: seq<R>, d: seq<int>, p: P): set<nat> {
    set j: nat | j < |rs| && HitBy(inside, rs, d, j, p)
  }

  /** Every hole is given to a shell one level up. */
  ghost predicate HostsOneUp(d: seq<int>) {
    forall j: nat, k: nat :: IsHost(d, j, k) && !Even(d[k]) ==> d[j] == d[k] - 1
  }

  /** Every hole is given to its own parent. */
  ghost predicate HostsAreParents<R, P(!new)>(inside: Interior<R, P>, rs: seq<R>, d: seq<int>)
    requires |d| == |rs|
  {
    forall k: nat | k < |d| && !Even(d[k]) ::
      exists j: nat :: j < |rs| && IsHost(d, j, k) && RegionWithin(inside, rs[k], rs[j])
  }

  /** The innermost loop at a point decides alone when every hole has the right host. */
  lemma HitIsInnermost<R, P(!new)>(inside: Interior<R, P>, rs: seq<R>, d: seq<int>, p: P, e: nat)
    requires Laminar(inside, rs) && DepthsCount(inside, rs, d) && HostsOneUp(d)
    requires e in Chain(inside, rs, p)
    requires forall k :: k in Chain(inside, rs, p) && k != e ==> d[k] < d[e]
    ensures Even(d[e]) ==> e in HitSet(inside, rs, d, p)
    ensures HostsAreParents(inside, rs, d) ==> HitSet(inside, rs, d, p) == if Even(d[e]) then {e} else {}
  {
    hide Laminar, HolesOf, IsHost, Containers;
    forall k | k in HolesOf(d, e, |d|) && k < |rs| ensures !inside(rs[k], p) {
      HoleMembership(d, e, |d|, k);
      assert d[e] == d[k] - 1;
      assert k in Chain(inside, rs, p) <==> inside(rs[k], p);
    }
    if HostsAreParents(inside, rs, d) {
      forall j | j in HitSet(inside, rs, d, p) ensures j == e {
        if j != e {
          HoleCutsOut(inside, rs, d, p, e, j);
        }
      }
    }
  }

  /** A shell around a point that is not innermost loses the point to one of its holes. */
  lemma HoleCutsOut<R, P(!new)>(inside: Interior<R, P>, rs: seq<R>, d: seq<int>, p: P, e: nat, j: nat)
    requires Laminar(inside, rs) && DepthsCount(inside, rs, d) && HostsOneUp(d)
    requires HostsAreParents(inside, rs, d)
    requires e in Chain(inside, rs, p) && j in Chain(inside, rs, p) && d[j] < d[e] && Even(d[j])
    ensures !HitBy(inside, rs, d, j, p)
  {
    hide Laminar, HolesOf, IsHost, Containers;
    assert d[j] >= 0 by { DepthsNatural(inside, rs, d, j); }
    var k := AtDepth(inside, rs, d, p, e, d[j] + 1);
    var h: nat :| h < |rs| && IsHost(d, h, k) && RegionWithin(inside, rs[k], rs[h]);
    HostBounds(d, h, k);
    SameDepthApart(inside, rs, d, h, j, p);
    HoleMembership(d, j, |d|, k);
  }

  lemma HostBounds(d: seq<int>, h: nat, k: nat)
    requires IsHost(d, h, k)
    ensures h < k < |d| && Even(d[h])
  {
  }

  lemma DepthsNatural<R, P(!new)>(inside: Interior<R, P>, rs: seq<R>, d: seq<int>, j: nat)
    requires DepthsCount(inside, rs, d) && j < |rs|
    ensures d[j] >= 0
  {
  }

  // ----- depth-ordered lists -----

  ghost predicate LevelOrdered(d: seq<int>) {
    forall i, j :: 0 <= i < j < |d| ==> d[i] <= d[j]
  }

  ghost predicate LastAtDepth(d: seq<int>, j: nat) {
    j < |d| && forall i :: j < i < |d| ==> d[i] != d[j]
  }

  /** In a depth-ordered list every hole goes to the last shell one level up, whoever contains it. */
  lemma HostIsLast<R, P(!new)>(inside: Interior<R, P>, rs: seq<R>, d: seq<int>, j: nat, k: nat)
    requires Laminar(inside, rs) && DepthsCount(inside, rs, d) && LevelOrdered(d)
    requires k < |d| && !Even(d[k])
    ensures IsHost(d, j, k) <==> j < |d| && d[j] == d[k] - 1 && LastAtDepth(d, j)
  {
    hide Laminar, Containers;
    DepthsNatural(inside, rs, d, k);
    var y := ParentExists(inside, rs, d, k);
    assert y < |d| by { hide Containers; ContainerBounds(inside, rs, k, y); }
    var l := LastOf(d, y);
    LastIsHost(d, l, k);
    if IsHost(d, j, k) {
      HostIsUnique(d, j, l, k);
    }
    if j < |d| && d[j] == d[k] - 1 && LastAtDepth(d, j) {
      LastIsHost(d, j, k);
    }
  }

  lemma ContainerBounds<R, P(!new)>(inside: Interior<R, P>, rs: seq<R>, k: nat, j: nat)
    requires k < |rs| && j in Containers(inside, rs, k)
    ensures j < |rs| && RegionWithin(inside, rs[k], rs[j])
  {
  }

  lemma {:induction false} LastOf(d: seq<int>, j: nat) returns (l: nat)
    requires j < |d|
    ensures l < |d| && d[l] == d[j] && LastAtDepth(d, l)
    decreases |d| - j
  {
    l := j;
    if i: nat :| j < i < |d| && d[i] == d[j] {
      l := LastOf(d, i);
    }
  }

  lemma LastIsHost(d: seq<int>, l: nat, k: nat)
    requires LevelOrdered(d) && k < |d| && !Even(d[k])
    requires l < |d| && d[l] == d[k] - 1 && LastAtDepth(d, l)
    ensures IsHost(d, l, k)
  {
    assert l < k;
    forall i | l < i <= k ensures d[l] < d[i] {
      assert d[l] <= d[i] && d[i] != d[l];
    }
    forall i | l < i < k && Even(d[i]) ensures !Encloses(d, i, k) {
      assert d[i] <= d[k] && d[l] < d[i];
    }
  }

  /** Loops of odd depth, or of even depth, lie one level down inside the last loop of a level only. */
  ghost predicate OnlyLastContains<R, P(!new)>(inside: Interior<R, P>, rs: seq<R>, d: seq<int>, odd: bool)
    requires |d| == |rs|
  {
    forall j: nat, k: nat :: j < |d| && k < |d| && Even(d[k]) != odd && d[j] == d[k] - 1 && RegionWithin(inside, rs[k], rs[j])
      ==> LastAtDepth(d, j)
  }

  /** Only the last loop of each shell level contains loops one level down. */
  ghost predicate OnlyLastHasHoles<R, P(!new)>(inside: Interior<R, P>, rs: seq<R>, d: seq<int>)
    requires |d| == |rs|
  {
    OnlyLastContains(inside, rs, d, true)
  }

  /** Only the last loop of each hole level contains loops one level down. */
  ghost predicate OnlyLastHasIslands<R, P(!new)>(inside: Interior<R, P>, rs: seq<R>, d: seq<int>)
    requires |d| == |rs|
  {
    OnlyLastContains(inside, rs, d, false)
  }

  lemma LevelOrderedHosts<R, P(!new)>(inside: Interior<R, P>, rs: seq<R>, d: seq<int>)
    requires Laminar(inside, rs) && DepthsCount(inside, rs, d) && LevelOrdered(d)
    ensures HostsOneUp(d)
    ensures OnlyLastHasHoles(inside, rs, d) ==> HostsAreParents(inside, rs, d)
  {
    hide Laminar, Containers, LastAtDepth, LevelOrdered;
    forall j: nat, k: nat | IsHost(d, j, k) && !Even(d[k]) ensures d[j] == d[k] - 1 {
      HostBounds(d, j, k);
      HostIsLast(inside, rs, d, j, k);
    }
    if OnlyLastHasHoles(inside, rs, d) {
      forall k: nat | k < |d| && !Even(d[k])
        ensures exists j: nat :: j < |rs| && IsHost(d, j, k) && RegionWithin(inside, rs[k], rs[j])
      {
        DepthsNatural(inside, rs, d, k);
        var j := ParentExists(inside, rs, d, k);
        ContainerBounds(inside, rs, k, j);
        HostIsLast(inside, rs, d, j, k);
      }
    }
  }

  ghost predicate AgreesAt<R, P>(inside: Interior<R, P>, rs: seq<R>, d: seq<int>, p: P) {
    |HitSet(inside, rs, d, p)| == |Chain(inside, rs, p)| % 2
  }

  lemma AgreesWhenHostsAreParents<R, P(!new)>(inside: Interior<R, P>, rs: seq<R>, d: seq<int>, p: P)
    requires Laminar(inside, rs) && DepthsCount(inside, rs, d) && HostsOneUp(d) && HostsAreParents(inside, rs, d)
    ensures AgreesAt(inside, rs, d, p)
  {
    hide Laminar, DepthsCount, HostsOneUp, HostsAreParents, HitSet, Chain;
    HitsInChain(inside, rs, d, p);
    if Chain(inside, rs, p) != {} {
      var e := Innermost(inside, rs, d, p);
      HitIsInnermost(inside, rs, d, p, e);
    }
  }

  lemma HitsInChain<R, P>(inside: Interior<R, P>, rs: seq<R>, d: seq<int>, p: P)
    ensures HitSet(inside, rs, d, p) <= Chain(inside, rs, p)
  {
    hide HolesOf;
  }

  lemma {:induction false} NoHolesUnlessLast<R, P(!new)>(inside: Interior<R, P>, rs: seq<R>, d: seq<int>, j: nat)
    requires Laminar(inside, rs) && DepthsCount(inside, rs, d) && LevelOrdered(d)
    requires !LastAtDepth(d, j)
    ensures forall i :: i !in HolesOf(d, j, |d|)
  {
    hide Laminar, Containers, IsHost, HolesOf, LastAtDepth, LevelOrdered;
    forall i: nat ensures i !in HolesOf(d, j, |d|) {
      HoleMembership(d, j, |d|, i);
      if i < |d| && !Even(d[i]) {
        HostIsLast(inside, rs, d, j, i);
      }
    }
  }

  lemma ParityOfAgreement<R, P>(inside: Interior<R, P>, rs: seq<R>, d: seq<int>, p: P)
    requires AgreesAt(inside, rs, d, p)
    ensures |HitSet(inside, rs, d, p)| == if Even(|Chain(inside, rs, p)|) then 0 else 1
  {
    hide HitSet, Chain;
  }

  /** One hit where there should be none, or two where there should be one. */
  lemma MoreHits<R, P>(inside: Interior<R, P>, rs: seq<R>, d: seq<int>, p: P, j: nat, e: nat, depth: int)
    requires j in HitSet(inside, rs, d, p) && (!Even(depth) ==> e != j && e in HitSet(inside, rs, d, p))
    requires Even(|Chain(inside, rs, p)|) == Even(depth)
    ensures !AgreesAt(inside, rs, d, p)
  {
    hide HitSet, Chain, Even;
    if AgreesAt(inside, rs, d, p) {
      ParityOfAgreement(inside, rs, d, p);
    }
    SubsetSize(if Even(depth) then {j} else {j, e}, HitSet(inside, rs, d, p));
  }

  lemma EvenStep(n: int)
    ensures Even(n + 1) != Even(n)
  {
  }

  /** A shell that is not the last of its level keeps the points of its own hole. */
  lemma DisagreesAt<R, P(!new)>(inside: Interior<R, P>, rs: seq<R>, d: seq<int>, j: nat, k: nat, p: P)
    requires Laminar(inside, rs) && DepthsCount(inside, rs, d) && LevelOrdered(d)
    requires j < |d| && k < |d| && !Even(d[k]) && d[j] == d[k] - 1 && RegionWithin(inside, rs[k], rs[j])
    requires !LastAtDepth(d, j) && inside(rs[k], p)
    ensures !AgreesAt(inside, rs, d, p)
  {
    hide *;
    KeepsHole(inside, rs, d, j, k, p);
    var e := InnermostShellHit(inside, rs, d, p);
    MoreHits(inside, rs, d, p, j, e, d[e] + 1);
  }

  /** The innermost loop at a point of a depth-ordered family, and its hit if it is a shell. */
  lemma InnermostShellHit<R, P(!new)>(inside: Interior<R, P>, rs: seq<R>, d: seq<int>, p: P) returns (e: nat)
    requires Laminar(inside, rs) && DepthsCount(inside, rs, d) && LevelOrdered(d) && Chain(inside, rs, p) != {}
    ensures e < |d| && Even(|Chain(inside, rs, p)|) == Even(d[e] + 1)
    ensures !Even(d[e] + 1) ==> e in HitSet(inside, rs, d, p)
    ensures forall k :: k in Chain(inside, rs, p) ==> k < |d| && d[k] <= d[e]
  {
    ChainBounds(inside, rs, p);
    DepthsLength(inside, rs, d);
    hide Laminar, DepthsCount, LevelOrdered, HitSet, Chain, HostsOneUp, HostsAreParents, OnlyLastHasHoles, Even;
    LevelOrderedHosts(inside, rs, d);
    e := Innermost(inside, rs, d, p);
    HitIsInnermost(inside, rs, d, p, e);
    EvenStep(d[e]);
  }

  lemma ChainBounds<R, P>(inside: Interior<R, P>, rs: seq<R>, p: P)
    ensures forall k :: k in Chain(inside, rs, p) ==> k < |rs|
  {
  }

  lemma DepthsLength<R, P(!new)>(inside: Interior<R, P>, rs: seq<R>, d: seq<int>)
    requires DepthsCount(inside, rs, d)
    ensures |d| == |rs|
  {
  }

  /** Such a shell is given no holes, so it is hit at the point; the hole is deeper. */
  lemma KeepsHole<R, P(!new)>(inside: Interior<R, P>, rs: seq<R>, d: seq<int>, j: nat, k: nat, p: P)
    requires Laminar(inside, rs) && DepthsCount(inside, rs, d) && LevelOrdered(d)
    requires j < |d| && k < |d| && !Even(d[k]) && d[j] == d[k] - 1 && RegionWithin(inside, rs[k], rs[j])
    requires !LastAtDepth(d, j) && inside(rs[k], p)
    ensures j in HitSet(inside, rs, d, p) && k in Chain(inside, rs, p) && j in Chain(inside, rs, p)
  {
    EvenStep(d[j]);
    hide Laminar, Containers, IsHost, HolesOf, LastAtDepth, LevelOrdered, Even;
    NoHolesUnlessLast(inside, rs, d, j);
  }

  /**
   Exactly when a depth-ordered list converts faithfully: only the last loop of each shell level
   may have holes.
   */
  lemma LevelOrderIff<R, P(!new)>(inside: Interior<R, P>, rs: seq<R>, d: seq<int>)
    requires Laminar(inside, rs) && DepthsCount(inside, rs, d) && LevelOrdered(d)
    ensures (forall p :: AgreesAt(inside, rs, d, p)) <==> OnlyLastHasHoles(inside, rs, d)
  {
    if OnlyLastHasHoles(inside, rs, d) {
      hide Laminar, Containers, AgreesAt, LevelOrdered, DepthsCount;
      LevelOrderedHosts(inside, rs, d);
      forall p ensures AgreesAt(inside, rs, d, p) {
        AgreesWhenHostsAreParents(inside, rs, d, p);
      }
    } else {
      var j: nat, k: nat :| j < |d| && k < |d| && !Even(d[k]) && d[j] == d[k] - 1
        && RegionWithin(inside, rs[k], rs[j]) && !LastAtDepth(d, j);
      assert NonEmpty(inside, rs[k]);
      var p :| inside(rs[k], p);
      DisagreesAt(inside, rs, d, j, k, p);
    }
  }

  // ----- from positions to rings -----

  /** The interiors of the loops named by position. */
  ghost function ByPosition<R, P>(inside: Interior<R, P>, rs: seq<R>): Interior<nat, P> {
    (k: nat, p: P) => k < |rs| && inside(rs[k], p)
  }

  function ItemsOf<R>(rs: seq<R>, d: seq<int>): (items: seq<Item<R>>)
    requires |d| == |rs|
    ensures |items| == |rs| && forall k :: 0 <= k < |rs| ==> items[k] == Item(d[k], rs[k])
  {
    seq(|rs|, k requires 0 <= k < |rs| => Item(d[k], rs[k]))
  }

  /** Polygons over positions and over rings that have the same loops in the same places. */
  ghost predicate SamePoly<R>(rs: seq<R>, a: GeoPoly<nat>, b: GeoPoly<R>) {
    && a.exterior < |rs| && b.exterior == rs[a.exterior] && |a.holes| == |b.holes|
    && forall i :: 0 <= i < |a.holes| ==> a.holes[i] < |rs| && b.holes[i] == rs[a.holes[i]]
  }

  ghost predicate SamePolys<R>(rs: seq<R>, a: seq<GeoPoly<nat>>, b: seq<GeoPoly<R>>) {
    |a| == |b| && forall t :: 0 <= t < |a| ==> SamePoly(rs, a[t], b[t])
  }

  ghost predicate SameState<R>(rs: seq<R>, a: State<nat>, b: State<R>) {
    && SamePolys(rs, a.result, b.result)
    && SamePolys(rs, FinishAll(a.stack), FinishAll(b.stack))
    && forall t :: 0 <= t < |a.stack| ==> a.stack[t].depth == b.stack[t].depth
  }

  lemma SamePop<R>(rs: seq<R>, a: State<nat>, b: State<R>)
    requires SameState(rs, a, b) && a.stack != []
    ensures SameState(rs, Pop(a), Pop(b))
  {
    hide SamePoly;
    var top := |a.stack| - 1;
    assert SamePoly(rs, FinishAll(a.stack)[top], FinishAll(b.stack)[top]);
    forall t | 0 <= t < top ensures SamePoly(rs, FinishAll(Pop(a).stack)[t], FinishAll(Pop(b).stack)[t]) {
      assert SamePoly(rs, FinishAll(a.stack)[t], FinishAll(b.stack)[t]);
    }
  }

  lemma {:induction false} SameFlush<R>(rs: seq<R>, a: State<nat>, b: State<R>, d: int)
    requires SameState(rs, a, b)
    ensures SameState(rs, Flush(a, d), Flush(b, d))
    decreases |a.stack|
  {
    hide SamePoly, SamePolys;
    assert |a.stack| == |b.stack| by { SameSize(rs, a, b); }
    if a.stack != [] && a.stack[|a.stack| - 1].depth >= d {
      SamePop(rs, a, b);
      SameFlush(rs, Pop(a), Pop(b), d);
    }
  }

  lemma SameSize<R>(rs: seq<R>, a: State<nat>, b: State<R>)
    requires SameState(rs, a, b)
    ensures |a.stack| == |b.stack| && |a.result| == |b.result|
  {
  }

  lemma SameStep<R>(rs: seq<R>, a: State<nat>, b: State<R>, k: nat, d: int)
    requires SameState(rs, a, b) && k < |rs|
    ensures SameState(rs, Step(a, Item(d, k)), Step(b, Item(d, rs[k])))
  {
    hide Flush;
    SameFlush(rs, a, b, d);
    var f, g := Flush(a, d), Flush(b, d);
    SameSize(rs, f, g);
    var f', g' := Step(a, Item(d, k)), Step(b, Item(d, rs[k]));
    forall t | 0 <= t < |f'.stack| ensures SamePoly(rs, FinishAll(f'.stack)[t], FinishAll(g'.stack)[t]) {
      if t < |f.stack| {
        assert SamePoly(rs, FinishAll(f.stack)[t], FinishAll(g.stack)[t]);
      }
    }
  }

  lemma {:induction false} SameRun<R>(rs: seq<R>, d: seq<int>, n: nat)
    requires |d| == |rs| && n <= |rs|
    ensures SameState(rs, Run(Positions(d)[..n], State([], [])), Run(ItemsOf(rs, d)[..n], State([], [])))
  {
    if n > 0 {
      hide SameState, Step;
      assert Positions(d)[..n][..n - 1] == Positions(d)[..n - 1];
      assert ItemsOf(rs, d)[..n][..n - 1] == ItemsOf(rs, d)[..n - 1];
      SameRun(rs, d, n - 1);
      SameStep(rs, Run(Positions(d)[..n - 1], State([], [])), Run(ItemsOf(rs, d)[..n - 1], State([], [])), n - 1, d[n - 1]);
    }
  }

  lemma {:induction false} SameDrain<R>(rs: seq<R>, a: State<nat>, b: State<R>)
    requires SameState(rs, a, b)
    ensures SamePolys(rs, Drain(a), Drain(b))
    decreases |a.stack|
  {
    SameSize(rs, a, b);
    if a.stack != [] {
      SamePop(rs, a, b);
      SameDrain(rs, Pop(a), Pop(b));
    }
  }

  /** Converting the rings is converting their positions and reading the rings off. */
  lemma ConvertedByPosition<R>(rs: seq<R>, d: seq<int>)
    requires |d| == |rs|
    ensures SamePolys(rs, Converted(Positions(d)), Converted(ItemsOf(rs, d)))
  {
    hide Run, Drain;
    SameRun(rs, d, |rs|);
    assert Positions(d)[..|rs|] == Positions(d) && ItemsOf(rs, d)[..|rs|] == ItemsOf(rs, d);
    SameDrain(rs, Run(Positions(d), State([], [])), Run(ItemsOf(rs, d), State([], [])));
  }

  lemma {:induction false} SameHits<R, P>(inside: Interior<R, P>, rs: seq<R>, a: seq<GeoPoly<nat>>, b: seq<GeoPoly<R>>, p: P)
    requires SamePolys(rs, a, b)
    ensures Hits(ByPosition(inside, rs), a, p) == Hits(inside, b, p)
  {
    if a != [] {
      assert SamePoly(rs, a[0], b[0]);
      forall t | 0 <= t < |a[1..]| ensures SamePoly(rs, a[1..][t], b[1..][t]) {
        assert SamePoly(rs, a[t + 1], b[t + 1]);
      }
      SameHits(inside, rs, a[1..], b[1..], p);
    }
  }

  lemma {:induction false} HitsOfMultiset<R, P>(inside: Interior<R, P>, a: seq<GeoPoly<R>>, b: seq<GeoPoly<R>>, p: P)
    requires multiset(a) == multiset(b)
    ensures Hits(inside, a, p) == Hits(inside, b, p)
    decreases |a|
  {
    hide InPoly;
    if a == [] {
      assert |multiset(b)| == 0;
    } else {
      var g, rest := a[0], a[1..];
      assert a == [g] + rest && g in multiset(b);
      var i :| 0 <= i < |b| && b[i] == g;
      TakeOut(a, b, i);
      HitsOfMultiset(inside, rest, b[..i] + b[i + 1..], p);
      HitsTakeOut(inside, b, i, p);
    }
  }

  lemma TakeOut<T>(a: seq<T>, b: seq<T>, i: nat)
    requires multiset(a) == multiset(b) && a != [] && i < |b| && b[i] == a[0]
    ensures multiset(a[1..]) == multiset(b[..i] + b[i + 1..])
  {
    assert a == [] + [a[0]] + a[1..] && b == b[..i] + [b[i]] + b[i + 1..];
    WithoutOne([], a[0], a[1..]);
    WithoutOne(b[..i], b[i], b[i + 1..]);
    assert [] + a[1..] == a[1..];
  }

  lemma WithoutOne<T>(before: seq<T>, x: T, after: seq<T>)
    ensures multiset(before + after) == multiset(before + [x] + after) - multiset{x}
  {
  }

  lemma HitsOne<R, P>(inside: Interior<R, P>, g: GeoPoly<R>, p: P)
    ensures Hits(inside, [g], p) == if InPoly(inside, g, p) then 1 else 0
  {
    hide InPoly;
    assert [g][1..] == [];
  }

  lemma {:induction false} HitsTakeOut<R, P>(inside: Interior<R, P>, b: seq<GeoPoly<R>>, i: nat, p: P)
    requires i < |b|
    ensures Hits(inside, b, p) == Hits(inside, b[..i] + b[i + 1..], p) + if InPoly(inside, b[i], p) then 1 else 0
  {
    hide InPoly, Hits;
    var one := [b[i]];
    assert b == b[..i] + one + b[i + 1..];
    HitsOne(inside, b[i], p);
    HitsConcat(inside, b[..i] + one, b[i + 1..], p);
    HitsConcat(inside, b[..i], one, p);
    HitsConcat(inside, b[..i], b[i + 1..], p);
  }

  ghost function HitsBelow<R, P>(inside: Interior<R, P>, rs: seq<R>, d: seq<int>, n: nat, p: P): set<nat> {
    set j: nat | j < n && HitBy(inside, rs, d, j, p)
  }

  ghost function ChainBelow<R, P>(inside: Interior<R, P>, rs: seq<R>, n: nat, p: P): set<nat>
    requires n <= |rs|
  {
    set k: nat | k < n && inside(rs[k], p)
  }

  lemma HitsBelowNext<R, P>(inside: Interior<R, P>, rs: seq<R>, d: seq<int>, n: nat, p: P)
    ensures |HitsBelow(inside, rs, d, n + 1, p)|
         == |HitsBelow(inside, rs, d, n, p)| + if HitBy(inside, rs, d, n, p) then 1 else 0
  {
    hide HitBy;
    var before, here := HitsBelow(inside, rs, d, n, p), HitsBelow(inside, rs, d, n + 1, p);
    assert here == if HitBy(inside, rs, d, n, p) then before + {n} else before;
  }

  lemma ChainBelowNext<R, P>(inside: Interior<R, P>, rs: seq<R>, n: nat, p: P)
    requires n < |rs|
    ensures |ChainBelow(inside, rs, n + 1, p)| == |ChainBelow(inside, rs, n, p)| + if inside(rs[n], p) then 1 else 0
  {
    var before, here := ChainBelow(inside, rs, n, p), ChainBelow(inside, rs, n + 1, p);
    assert here == if inside(rs[n], p) then before + {n} else before;
  }

  /** The ledger's polygons that hold a point are counted by their shells. */
  lemma {:induction false} LedgerHits<R, P>(inside: Interior<R, P>, rs: seq<R>, d: seq<int>, n: nat, p: P)
    requires |d| == |rs| && n <= |rs|
    ensures Hits(ByPosition(inside, rs), Ledger(d, n, |d|), p) == |HitsBelow(inside, rs, d, n, p)|
  {
    hide HitsBelow, HitBy, Ledger, Hits, ByPosition;
    if n == 0 {
      NoLedgerHits(inside, rs, d, p);
    } else {
      LedgerHits(inside, rs, d, n - 1, p);
      HitsBelowNext(inside, rs, d, n - 1, p);
      LedgerHitsNext(inside, rs, d, n - 1, p);
    }
  }

  lemma {:induction false} NoLedgerHits<R, P>(inside: Interior<R, P>, rs: seq<R>, d: seq<int>, p: P)
    ensures Hits(ByPosition(inside, rs), Ledger(d, 0, |d|), p) == 0
    ensures |HitsBelow(inside, rs, d, 0, p)| == 0
  {
    assert HitsBelow(inside, rs, d, 0, p) == {};
  }

  lemma LedgerHitsNext<R, P>(inside: Interior<R, P>, rs: seq<R>, d: seq<int>, n: nat, p: P)
    requires |d| == |rs| && n < |rs|
    ensures Hits(ByPosition(inside, rs), Ledger(d, n + 1, |d|), p)
         == Hits(ByPosition(inside, rs), Ledger(d, n, |d|), p) + if HitBy(inside, rs, d, n, p) then 1 else 0
  {
    assert !Even(d[n]) ==> !HitBy(inside, rs, d, n, p);
    hide HitBy, InPoly, HolesOf;
    assert Ledger(d, n, |d|) + [] == Ledger(d, n, |d|);
    if Even(d[n]) {
      var g: GeoPoly<nat> := GeoPoly(n, HolesOf(d, n, |d|));
      LedgerPolyHit(inside, rs, d, n, p);
      HitsConcat(ByPosition(inside, rs), Ledger(d, n, |d|), [g], p);
      HitsOne(ByPosition(inside, rs), g, p);
    }
  }

  lemma {:induction false} LedgerPolyHit<R, P>(inside: Interior<R, P>, rs: seq<R>, d: seq<int>, n: nat, p: P)
    requires |d| == |rs| && n < |rs| && Even(d[n])
    ensures InPoly(ByPosition(inside, rs), GeoPoly(n, HolesOf(d, n, |d|)), p) <==> HitBy(inside, rs, d, n, p)
  {
    hide HolesOf;
    var holes := HolesOf(d, n, |d|);
    assert forall i :: 0 <= i < |holes| ==> holes[i] in holes;
  }

  lemma {:induction false} OddIsChain<R, P>(inside: Interior<R, P>, rs: seq<R>, d: seq<int>, n: nat, p: P)
    requires |d| == |rs| && n <= |rs|
    ensures InOdd(inside, ItemsOf(rs, d)[..n], p) <==> |ChainBelow(inside, rs, n, p)| % 2 == 1
  {
    if n > 0 {
      OddIsChain(inside, rs, d, n - 1, p);
      ChainBelowNext(inside, rs, n - 1, p);
      hide ChainBelow;
      var items := ItemsOf(rs, d);
      var last := items[n - 1];
      assert items[..n] == items[..n - 1] + [last];
      InOddConcat(inside, items[..n - 1], [last], p);
      assert [last][1..] == [];
    }
  }

  /** The output polygons that hold a point are as many as the shells that keep it. */
  lemma HitsAreCounted<R, P>(inside: Interior<R, P>, rs: seq<R>, d: seq<int>, p: P)
    requires |d| == |rs|
    ensures Hits(inside, Converted(ItemsOf(rs, d)), p) == |HitSet(inside, rs, d, p)|
  {
    hide HitBy, Ledger, Converted;
    var n := |rs|;
    Conservation(d);
    ConvertedByPosition(rs, d);
    SameHits(inside, rs, Converted(Positions(d)), Converted(ItemsOf(rs, d)), p);
    HitsOfMultiset(ByPosition(inside, rs), Converted(Positions(d)), Ledger(d, n, n), p);
    LedgerHits(inside, rs, d, n, p);
    assert HitsBelow(inside, rs, d, n, p) == HitSet(inside, rs, d, p);
  }

  /** Whether the output agrees with the loops at a point, in terms of shells and of containing loops. */
  lemma AgreesByCounting<R, P>(inside: Interior<R, P>, rs: seq<R>, d: seq<int>, p: P)
    requires |d| == |rs|
    ensures Agrees(inside, ItemsOf(rs, d), Converted(ItemsOf(rs, d)), p) <==> AgreesAt(inside, rs, d, p)
  {
    hide HitBy, Converted;
    HitsAreCounted(inside, rs, d, p);
    OddIsChain(inside, rs, d, |rs|, p);
    assert ItemsOf(rs, d)[..|rs|] == ItemsOf(rs, d);
    assert ChainBelow(inside, rs, |rs|, p) == Chain(inside, rs, p);
  }
}
