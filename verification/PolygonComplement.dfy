/**
 Inversion of the polygons that `from_loops` builds. Their loops are listed by depth, not depth
 first, and so are the loops of their inverses but for the turned one; this module says exactly
 when such an inverse converts to the complement, and when its depths are the documented ones.
 */
module PolygonComplement {
  import opened Rings
  import opened ShellStack
  import opened Regions
  import opened Hosts
  import opened LoopFamily
  import opened PolygonNesting
  import opened PolygonInvert
  import opened PolygonRoundTrip

  // ----- a depth-ordered family with its first loop turned over -----

  /** The new depths: the turned loop first, its siblings one down, all deeper loops shifted alike. */
  function TurnedDepths(d: seq<int>, shift: int): (out: seq<int>)
    ensures |out| == |d|
  {
    seq(|d|, k requires 0 <= k < |d| => if k == 0 then 0 else if d[k] == 0 then 1 else d[k] + shift)
  }

  ghost predicate Ordered(d: seq<int>) {
    LevelOrdered(d) && d != [] && d[0] == 0
  }

  lemma OrderedDepths(d: seq<int>, i: nat, k: nat)
    requires Ordered(d) && i <= k < |d|
    ensures 0 <= d[i] <= d[k]
  {
    assert i < k ==> d[i] <= d[k];
    assert i > 0 ==> d[0] <= d[i];
  }

  lemma SiblingHost(d: seq<int>, shift: int, k: nat)
    requires Ordered(d) && 0 < k < |d| && d[k] == 0
    ensures IsHost(TurnedDepths(d, shift), 0, k)
  {
    var out := TurnedDepths(d, shift);
    forall i | 0 < i <= k ensures out[i] == 1 {
      OrderedDepths(d, i, k);
    }
  }

  lemma IslandHost(d: seq<int>, shift: int, l: nat, k: nat)
    requires Ordered(d) && (shift == 1 || shift == -1)
    requires k < |d| && Even(d[k]) && d[k] > 0 && l < |d| && d[l] == d[k] - 1 && LastAtDepth(d, l)
    ensures IsHost(TurnedDepths(d, shift), l, k)
  {
    var out := TurnedDepths(d, shift);
    assert l < k && d[l] >= 1;
    forall i | l < i <= k ensures d[i] == d[k] && out[i] == out[l] + 1 {
      assert d[l] <= d[i] && d[i] != d[l];
      OrderedDepths(d, i, k);
    }
    assert Even(out[l]) && !Even(out[k]);
  }

  lemma TurnedParity(d: seq<int>, shift: int, k: nat)
    requires Ordered(d) && (shift == 1 || shift == -1) && k < |d|
    ensures Even(TurnedDepths(d, shift)[k]) <==> k == 0 || !Even(d[k])
  {
  }

  /** A sibling becomes a hole of the turned loop; an island becomes a hole of the last loop above it. */
  lemma TurnedHost<R, P(!new)>(inside: Interior<R, P>, rs: seq<R>, d: seq<int>, shift: int, j: nat, k: nat)
    requires Laminar(inside, rs) && DepthsCount(inside, rs, d) && Ordered(d) && (shift == 1 || shift == -1)
    requires 0 < k < |d| && Even(d[k])
    ensures IsHost(TurnedDepths(d, shift), j, k)
       <==> if d[k] == 0 then j == 0 else j < |d| && d[j] == d[k] - 1 && LastAtDepth(d, j)
  {
    hide Laminar, Containers, IsHost, DepthsCount, LastAtDepth, TurnedDepths;
    var out := TurnedDepths(d, shift);
    OrderedDepths(d, 0, k);
    var h := 0;
    if d[k] == 0 {
      SiblingHost(d, shift, k);
    } else {
      DepthsLength(inside, rs, d);
      var y := ParentExists(inside, rs, d, k);
      ContainerBounds(inside, rs, k, y);
      h := LastOf(d, y);
      IslandHost(d, shift, h, k);
      if j < |d| && d[j] == d[k] - 1 && LastAtDepth(d, j) {
        IslandHost(d, shift, j, k);
      }
    }
    if IsHost(out, j, k) {
      HostIsUnique(out, j, h, k);
    }
  }

  lemma {:induction false} TurnedHoles<R, P(!new)>(inside: Interior<R, P>, rs: seq<R>, d: seq<int>, shift: int, j: nat, k: nat)
    requires Laminar(inside, rs) && DepthsCount(inside, rs, d) && Ordered(d) && (shift == 1 || shift == -1)
    ensures k in HolesOf(TurnedDepths(d, shift), j, |d|)
       <==> && 0 < k < |d| && Even(d[k])
            && if d[k] == 0 then j == 0 else j < |d| && d[j] == d[k] - 1 && LastAtDepth(d, j)
  {
    hide Laminar, Containers, IsHost, DepthsCount, LastAtDepth, TurnedDepths, HolesOf, Ordered;
    HoleMembership(TurnedDepths(d, shift), j, |d|, k);
    if k < |d| {
      TurnedParity(d, shift, k);
      if k > 0 && Even(d[k]) {
        TurnedHost(inside, rs, d, shift, j, k);
      }
    }
  }

  ghost predicate TurnedOver<R, P>(inside: Interior<R, P>, r: R, flipped: R, p: P) {
    inside(flipped, p) <==> !inside(r, p)
  }

  lemma ChainTurned<R, P(!new)>(inside: Interior<R, P>, rs: seq<R>, flipped: R, p: P)
    requires rs != [] && TurnedOver(inside, rs[0], flipped, p)
    ensures Even(|Chain(inside, rs[0 := flipped], p)|) != Even(|Chain(inside, rs, p)|)
  {
    var before, after := Chain(inside, rs, p), Chain(inside, rs[0 := flipped], p);
    if inside(rs[0], p) {
      assert after == before - {0};
      assert |before - {0}| == |before| - 1;
    } else {
      assert after == before + {0};
    }
  }

  /** The turned loop's polygon holds what lies in no loop at all. */
  lemma FirstHit<R, P(!new)>(inside: Interior<R, P>, rs: seq<R>, d: seq<int>, shift: int, flipped: R, p: P)
    requires Laminar(inside, rs) && DepthsCount(inside, rs, d) && Ordered(d) && (shift == 1 || shift == -1)
    requires rs != [] && TurnedOver(inside, rs[0], flipped, p)
    ensures HitBy(inside, rs[0 := flipped], TurnedDepths(d, shift), 0, p) <==> Chain(inside, rs, p) == {}
  {
    hide Laminar, Containers, DepthsCount, HolesOf, LastAtDepth;
    DepthsLength(inside, rs, d);
    var rs', d' := rs[0 := flipped], TurnedDepths(d, shift);
    if Chain(inside, rs, p) == {} {
      forall k | k in HolesOf(d', 0, |d'|) && k < |rs'| ensures !inside(rs'[k], p) {
        TurnedHoles(inside, rs, d, shift, 0, k);
        assert k !in Chain(inside, rs, p);
      }
      assert 0 !in Chain(inside, rs, p);
    } else {
      var e :| e in Chain(inside, rs, p);
      OrderedDepths(d, 0, e);
      var k := AtDepth(inside, rs, d, p, e, 0);
      if k > 0 {
        TurnedHoles(inside, rs, d, shift, 0, k);
        assert k in HolesOf(d', 0, |d'|) && inside(rs'[k], p);
      }
    }
  }

  /** Any other new shell holds its own points but for those in its islands, if it is given them. */
  lemma OtherHit<R, P(!new)>(inside: Interior<R, P>, rs: seq<R>, d: seq<int>, shift: int, flipped: R, p: P, j: nat)
    requires Laminar(inside, rs) && DepthsCount(inside, rs, d) && Ordered(d) && (shift == 1 || shift == -1)
    requires rs != [] && 0 < j < |d|
    ensures HitBy(inside, rs[0 := flipped], TurnedDepths(d, shift), j, p)
       <==> && !Even(d[j]) && j in Chain(inside, rs, p)
            && (LastAtDepth(d, j) ==> forall k :: k in Chain(inside, rs, p) ==> d[k] != d[j] + 1)
  {
    hide Laminar, Containers, DepthsCount, HolesOf, LastAtDepth;
    DepthsLength(inside, rs, d);
    var rs', d' := rs[0 := flipped], TurnedDepths(d, shift);
    TurnedParity(d, shift, j);
    OrderedDepths(d, 0, j);
    hide TurnedDepths, Ordered;
    if !Even(d[j]) && inside(rs[j], p) {
      forall k: nat | k < |d|
        ensures k in HolesOf(d', j, |d'|) <==> LastAtDepth(d, j) && d[k] == d[j] + 1
        ensures k in HolesOf(d', j, |d'|) ==> k > 0
      {
        TurnedHoles(inside, rs, d, shift, j, k);
        OrderedZero(d);
      }
      forall k | k in Chain(inside, rs, p) && d[k] == d[j] + 1 && LastAtDepth(d, j)
        ensures k in HolesOf(d', j, |d'|) && k < |rs'| && inside(rs'[k], p)
      {
      }
      if LastAtDepth(d, j) ==> forall k :: k in Chain(inside, rs, p) ==> d[k] != d[j] + 1 {
        forall k | k in HolesOf(d', j, |d'|) && k < |rs'| ensures !inside(rs'[k], p) {
          assert k in Chain(inside, rs, p) <==> inside(rs[k], p);
        }
      }
    }
  }

  lemma OrderedZero(d: seq<int>)
    requires Ordered(d)
    ensures d != [] && d[0] == 0
  {
  }

  /** Outside all loops there is one hit, inside some loop the innermost decides. */
  lemma TurnedHitSet<R, P(!new)>(inside: Interior<R, P>, rs: seq<R>, d: seq<int>, shift: int, flipped: R, p: P, j: nat)
    requires Laminar(inside, rs) && DepthsCount(inside, rs, d) && Ordered(d) && (shift == 1 || shift == -1)
    requires rs != [] && TurnedOver(inside, rs[0], flipped, p)
    ensures j in HitSet(inside, rs[0 := flipped], TurnedDepths(d, shift), p)
       <==> if j == 0 then Chain(inside, rs, p) == {}
            else && j < |d| && !Even(d[j]) && j in Chain(inside, rs, p)
                 && (LastAtDepth(d, j) ==> forall k :: k in Chain(inside, rs, p) ==> d[k] != d[j] + 1)
  {
    hide Laminar, Containers, DepthsCount, HolesOf, LastAtDepth, TurnedDepths, Ordered, TurnedOver, HitBy;
    DepthsLength(inside, rs, d);
    if j == 0 {
      FirstHit(inside, rs, d, shift, flipped, p);
    } else if j < |d| {
      OtherHit(inside, rs, d, shift, flipped, p, j);
    }
  }

  /** A shell that is not innermost loses a point to a hole below it, if it is given its holes. */
  lemma NextInChain<R, P(!new)>(inside: Interior<R, P>, rs: seq<R>, d: seq<int>, p: P, e: nat, j: nat) returns (k: nat)
    requires Laminar(inside, rs) && DepthsCount(inside, rs, d)
    requires e in Chain(inside, rs, p) && j in Chain(inside, rs, p) && d[j] < d[e]
    ensures k in Chain(inside, rs, p) && d[k] == d[j] + 1 && RegionWithin(inside, rs[k], rs[j])
  {
    hide Laminar, Containers, DepthsCount, RegionWithin;
    DepthsLength(inside, rs, d);
    DepthsNatural(inside, rs, d, j);
    k := AtDepth(inside, rs, d, p, e, d[j] + 1);
    SharedPoint(inside, rs, j, k, p);
    if k in Containers(inside, rs, j) {
      DeeperInside(inside, rs, d, j, k);
    }
    ContainerBounds(inside, rs, k, j);
  }

  lemma TurnedAgrees<R, P(!new)>(inside: Interior<R, P>, rs: seq<R>, d: seq<int>, shift: int, flipped: R, p: P)
    requires Laminar(inside, rs) && DepthsCount(inside, rs, d) && Ordered(d) && (shift == 1 || shift == -1)
    requires rs != [] && TurnedOver(inside, rs[0], flipped, p) && OnlyLastHasIslands(inside, rs, d)
    ensures AgreesAt(inside, rs[0 := flipped], TurnedDepths(d, shift), p)
  {
    hide Laminar, Containers, DepthsCount, LastAtDepth, TurnedDepths, TurnedOver, HitBy, HitSet, Ordered, RegionWithin;
    DepthsLength(inside, rs, d);
    ChainTurned(inside, rs, flipped, p);
    var hits := HitSet(inside, rs[0 := flipped], TurnedDepths(d, shift), p);
    if Chain(inside, rs, p) == {} {
      forall j: nat ensures j in hits <==> j == 0 {
        TurnedHitSet(inside, rs, d, shift, flipped, p, j);
      }
      assert hits == {0};
    } else {
      var e := Innermost(inside, rs, d, p);
      forall j: nat ensures j in hits <==> j == e && !Even(d[e]) {
        TurnedHitSet(inside, rs, d, shift, flipped, p, j);
        OrderedZero(d);
        if j in Chain(inside, rs, p) && j != e && !Even(d[j]) {
          var k := NextInChain(inside, rs, d, p, e, j);
          assert LastAtDepth(d, j);
        }
      }
      assert hits == if Even(d[e]) then {} else {e};
    }
  }

  /** A shell that is not the last of its level is given no holes, and so is hit by all its points. */
  lemma UnservedHit<R, P(!new)>(inside: Interior<R, P>, rs: seq<R>, d: seq<int>, shift: int, flipped: R, p: P, j: nat)
    requires Laminar(inside, rs) && DepthsCount(inside, rs, d) && Ordered(d) && (shift == 1 || shift == -1)
    requires rs != [] && TurnedOver(inside, rs[0], flipped, p)
    requires j in Chain(inside, rs, p) && j < |d| && !Even(d[j]) && !LastAtDepth(d, j)
    ensures j in HitSet(inside, rs[0 := flipped], TurnedDepths(d, shift), p)
  {
    OrderedZero(d);
    hide Laminar, Containers, DepthsCount, LastAtDepth, TurnedDepths, TurnedOver, HitBy, HitSet, Ordered;
    TurnedHitSet(inside, rs, d, shift, flipped, p, j);
  }

  /** A new shell that is innermost at a point is hit there. */
  lemma InnermostHit<R, P(!new)>(inside: Interior<R, P>, rs: seq<R>, d: seq<int>, shift: int, flipped: R, p: P, e: nat)
    requires Laminar(inside, rs) && DepthsCount(inside, rs, d) && Ordered(d) && (shift == 1 || shift == -1)
    requires rs != [] && TurnedOver(inside, rs[0], flipped, p)
    requires e in Chain(inside, rs, p) && e < |d| && !Even(d[e])
    requires forall k :: k in Chain(inside, rs, p) && k != e ==> k < |d| && d[k] < d[e]
    ensures e in HitSet(inside, rs[0 := flipped], TurnedDepths(d, shift), p)
  {
    OrderedZero(d);
    hide Laminar, Containers, DepthsCount, LastAtDepth, TurnedDepths, TurnedOver, HitBy, HitSet, Ordered;
    TurnedHitSet(inside, rs, d, shift, flipped, p, e);
  }

  lemma TurnedDisagrees<R, P(!new)>(inside: Interior<R, P>, rs: seq<R>, d: seq<int>, shift: int, flipped: R, p: P, j: nat, k: nat)
    requires Laminar(inside, rs) && DepthsCount(inside, rs, d) && Ordered(d) && (shift == 1 || shift == -1)
    requires rs != [] && TurnedOver(inside, rs[0], flipped, p)
    requires j < |d| && k < |d| && Even(d[k]) && d[j] == d[k] - 1 && RegionWithin(inside, rs[k], rs[j])
    requires !LastAtDepth(d, j) && inside(rs[k], p)
    ensures j in HitSet(inside, rs[0 := flipped], TurnedDepths(d, shift), p)
    ensures !AgreesAt(inside, rs[0 := flipped], TurnedDepths(d, shift), p)
  {
    hide *;
    DepthsLength(inside, rs, d);
    HoleInChain(inside, rs, d, p, j, k);
    UnservedHit(inside, rs, d, shift, flipped, p, j);
    var e := Innermost(inside, rs, d, p);
    InnermostParity(inside, rs, d, p, e, j, k);
    if !Even(d[e]) {
      InnermostHit(inside, rs, d, shift, flipped, p, e);
    }
    ChainTurned(inside, rs, flipped, p);
    MoreHits(inside, rs[0 := flipped], TurnedDepths(d, shift), p, j, e, d[e]);
  }

  lemma HoleInChain<R, P(!new)>(inside: Interior<R, P>, rs: seq<R>, d: seq<int>, p: P, j: nat, k: nat)
    requires |d| == |rs| && j < |d| && k < |d| && RegionWithin(inside, rs[k], rs[j])
    requires Even(d[k]) && d[j] == d[k] - 1 && inside(rs[k], p)
    ensures j in Chain(inside, rs, p) && k in Chain(inside, rs, p) && !Even(d[j])
  {
  }

  lemma InnermostParity<R, P(!new)>(inside: Interior<R, P>, rs: seq<R>, d: seq<int>, p: P, e: nat, j: nat, k: nat)
    requires |d| == |rs| && j < |d| && k < |d| && e in Chain(inside, rs, p) && k in Chain(inside, rs, p) && d[j] < d[k]
    requires |Chain(inside, rs, p)| == d[e] + 1
    requires forall i :: i in Chain(inside, rs, p) && i != e ==> d[i] < d[e]
    ensures e < |d| && e != j && Even(|Chain(inside, rs, p)|) != Even(d[e])
    ensures forall i :: i in Chain(inside, rs, p) && i != e ==> i < |d| && d[i] < d[e]
  {
    EvenStep(d[e]);
    hide Even;
  }

  ghost predicate AgreesEverywhere<R, P(!new)>(inside: Interior<R, P>, rs: seq<R>, d: seq<int>) {
    forall p :: AgreesAt(inside, rs, d, p)
  }

  /** Exactly when the turned family converts faithfully. */
  lemma TurnedIff<R, P(!new)>(inside: Interior<R, P>, rs: seq<R>, d: seq<int>, shift: int, flipped: R)
    requires Laminar(inside, rs) && DepthsCount(inside, rs, d) && Ordered(d) && (shift == 1 || shift == -1)
    requires rs != [] && forall p :: TurnedOver(inside, rs[0], flipped, p)
    ensures AgreesEverywhere(inside, rs[0 := flipped], TurnedDepths(d, shift)) <==> OnlyLastHasIslands(inside, rs, d)
  {
    DepthsLength(inside, rs, d);
    var out, outDepths := rs[0 := flipped], TurnedDepths(d, shift);
    if OnlyLastHasIslands(inside, rs, d) {
      hide OnlyLastHasIslands, Laminar, DepthsCount, TurnedDepths, AgreesAt, TurnedOver;
      forall p ensures AgreesAt(inside, out, outDepths, p) {
        assert TurnedOver(inside, rs[0], flipped, p);
        TurnedAgrees(inside, rs, d, shift, flipped, p);
      }
    } else {
      var j: nat, k: nat :| j < |d| && k < |d| && Even(d[k]) && d[j] == d[k] - 1
        && RegionWithin(inside, rs[k], rs[j]) && !LastAtDepth(d, j);
      assert NonEmpty(inside, rs[k]);
      var p :| inside(rs[k], p);
      assert TurnedOver(inside, rs[0], flipped, p);
      hide OnlyLastHasIslands, Laminar, DepthsCount, TurnedDepths, AgreesAt, LastAtDepth, TurnedOver;
      TurnedDisagrees(inside, rs, d, shift, flipped, p, j, k);
    }
  }

  // ----- the inverse of a depth-ordered list -----

  /** The chosen position first, then the others in order. */
  function FrontOrder(n: nat, best: nat): (order: seq<nat>)
    requires best < n
    ensures |order| == n && forall k :: 0 <= k < n ==> order[k] < n
  {
    seq(n, k requires 0 <= k < n => if k == 0 then best else if k <= best then k - 1 else k)
  }

  lemma FrontIsReordering(n: nat, best: nat)
    requires best < n
    ensures Reordering(FrontOrder(n, best), n)
  {
    var order := FrontOrder(n, best);
    forall x: nat | x < n ensures x in order {
      assert order[if x == best then 0 else if x < best then x + 1 else x] == x;
    }
  }

  /** Moving an outermost loop to the front changes no depth. */
  lemma FrontDepths(d: seq<int>, best: nat)
    requires LevelOrdered(d) && best < |d| && d[best] == 0 && forall k :: 0 <= k < |d| ==> 0 <= d[k]
    ensures Pick(d, FrontOrder(|d|, best)) == d && Ordered(d)
  {
    var order := FrontOrder(|d|, best);
    forall k | 0 <= k < |d| ensures d[order[k]] == d[k] {
      assert k <= best ==> d[k] <= d[best] && d[order[k]] <= d[best];
    }
  }

  lemma DeeperIsLater(d: seq<int>, i: nat, k: nat)
    requires LevelOrdered(d) && i < |d| && k < |d| && d[i] < d[k]
    ensures i < k
  {
  }

  lemma FrontIslands<R, P(!new)>(inside: Interior<R, P>, rs: seq<R>, d: seq<int>, best: nat)
    requires LevelOrdered(d) && best < |d| && d[best] == 0 && forall k :: 0 <= k < |d| ==> 0 <= d[k]
    requires |d| == |rs|
    ensures OnlyLastHasIslands(inside, Pick(rs, FrontOrder(|rs|, best)), d) <==> OnlyLastHasIslands(inside, rs, d)
  {
    hide RegionWithin, LastAtDepth;
    var front := Pick(rs, FrontOrder(|rs|, best));
    forall k | 0 <= k < |d| && d[k] > 0 ensures front[k] == rs[k] {
      DeeperIsLater(d, best, k);
    }
    forall k, j | 0 <= k < |d| && 0 <= j < |d| && Even(d[k]) && d[j] == d[k] - 1 ensures d[k] > 0 && d[j] > 0 {
    }
  }

  lemma {:induction false} SpanOfDeeper<R>(items: seq<Item<R>>, d: int)
    requires forall i :: 0 <= i < |items| ==> d < items[i].depth
    ensures Span(items, d) == |items|
  {
    if items != [] {
      SpanOfDeeper(items[1..], d);
    }
  }

  /** Below the last outermost loop come all deeper loops; below any other outermost loop comes none. */
  lemma LastDescendantOrdered<R>(rs: seq<R>, d: seq<int>, best: nat)
    requires |rs| == |d| && LevelOrdered(d) && best < |d| && d[best] == 0
    ensures LastDescendant(ItemsOf(rs, d), best) == if LastAtDepth(d, best) then |d| - 1 else best
  {
    var items := ItemsOf(rs, d);
    var rest := items[best + 1..];
    if LastAtDepth(d, best) {
      forall i | 0 <= i < |rest| ensures 0 < rest[i].depth {
        assert rest[i] == items[best + 1 + i] && d[best] <= d[best + 1 + i];
      }
      SpanOfDeeper(rest, 0);
    } else {
      var i: nat :| best < i < |d| && d[i] == d[best];
      assert best + 1 < i ==> d[best + 1] <= d[i];
      assert rest[0] == items[best + 1];
    }
  }

  function TurnShift(last: bool): int {
    if last then -1 else 1
  }

  /** The family in its new order, the chosen loop turned over. */
  function TurnedRings<R>(inv: Inversion<R>, rs: seq<R>, best: nat): (out: seq<R>)
    requires best < |rs|
    ensures |out| == |rs|
  {
    Pick(rs, FrontOrder(|rs|, best))[0 := inv.flip(rs[best])]
  }

  lemma TurnedAt<R>(inv: Inversion<R>, rs: seq<R>, d: seq<int>, best: nat, shift: int, k: nat)
    requires |rs| == |d| && LevelOrdered(d) && best < |d| && d[best] == 0 && d[0] == 0 && 0 < k < |d|
    requires d[k] == 0 && k > best ==> shift == 1
    ensures TurnedDepths(d, shift)[k] == if k <= best then d[k - 1] + 1 else d[k] + shift
    ensures TurnedRings(inv, rs, best)[k] == if k <= best then rs[k - 1] else rs[k]
  {
    if k <= best {
      FrontZeros(d, best, k);
      FrontZeros(d, best, k - 1);
    }
  }

  lemma FrontZeros(d: seq<int>, best: nat, k: nat)
    requires LevelOrdered(d) && k <= best < |d| && d[best] == 0 && d[0] == 0
    ensures d[k] == 0
  {
    assert (0 < k ==> d[0] <= d[k]) && (k < best ==> d[k] <= d[best]);
  }

  lemma SpliceAt<R>(items: seq<Item<R>>, best: nat, shift: int, head: Item<R>, k: nat)
    requires best < |items| && 0 < k < |items|
    ensures var out := [head] + Shift(items[..best], 1) + Shift(items[best + 1..], shift);
      && |out| == |items| && out[0] == head
      && out[k] == if k <= best then Item(items[k - 1].depth + 1, items[k - 1].ring)
                   else Item(items[k].depth + shift, items[k].ring)
  {
  }

  /** In the new order the inverse is the old list with its first loop turned over. */
  lemma InvertedOrdered<R>(inv: Inversion<R>, rs: seq<R>, d: seq<int>, best: nat)
    requires |rs| == |d| && LevelOrdered(d) && best < |d| && d[best] == 0 && d[0] == 0
    ensures Inverted(inv, ItemsOf(rs, d), best)
         == ItemsOf(TurnedRings(inv, rs, best), TurnedDepths(d, TurnShift(LastAtDepth(d, best))))
  {
    var items, last := ItemsOf(rs, d), LastAtDepth(d, best);
    var shift, head := TurnShift(last), Item(0, inv.flip(rs[best]));
    assert forall k :: best < k < |d| && d[k] == 0 ==> shift == 1;
    LastDescendantOrdered(rs, d, best);
    InvertedTail(inv, items, best, last);
    hide Span, LastDescendant, Inverted, LevelOrdered, LastAtDepth;
    TurnedIsSpliced(inv, rs, d, best, shift);
  }

  lemma TurnedIsSpliced<R>(inv: Inversion<R>, rs: seq<R>, d: seq<int>, best: nat, shift: int)
    requires |rs| == |d| && LevelOrdered(d) && best < |d| && d[best] == 0 && d[0] == 0
    requires forall k :: best < k < |d| && d[k] == 0 ==> shift == 1
    ensures ItemsOf(TurnedRings(inv, rs, best), TurnedDepths(d, shift))
         == [Item(0, inv.flip(rs[best]))] + Shift(ItemsOf(rs, d)[..best], 1) + Shift(ItemsOf(rs, d)[best + 1..], shift)
  {
    var items, head := ItemsOf(rs, d), Item(0, inv.flip(rs[best]));
    var target := ItemsOf(TurnedRings(inv, rs, best), TurnedDepths(d, shift));
    var out := [head] + Shift(items[..best], 1) + Shift(items[best + 1..], shift);
    assert target[0] == head && out[0] == head;
    hide Shift, TurnedRings, TurnedDepths, LevelOrdered;
    assert |out| == |items|;
    forall k: nat | 0 < k < |items| ensures out[k] == target[k] {
      TurnedAt(inv, rs, d, best, shift, k);
      SpliceAt(items, best, shift, head, k);
    }
  }

  lemma InvertedTail<R>(inv: Inversion<R>, items: seq<Item<R>>, best: nat, last: bool)
    requires best < |items| && LastDescendant(items, best) == if last then |items| - 1 else best
    ensures Inverted(inv, items, best)
         == [Item(items[best].depth, inv.flip(items[best].ring))] + Shift(items[..best], 1)
            + Shift(items[best + 1..], TurnShift(last))
  {
    hide LastDescendant;
    if last {
      assert items[|items|..] == [] && items[best + 1..|items|] == items[best + 1..];
    } else {
      assert items[best + 1..best + 1] == [];
    }
  }

  /** For every depth-ordered family and every outermost loop: when the inverse converts faithfully. */
  lemma InvertedOrderIff<R, P(!new)>(inside: Interior<R, P>, inv: Inversion<R>, rs: seq<R>, d: seq<int>, best: nat)
    requires Laminar(inside, rs) && DepthsCount(inside, rs, d) && LevelOrdered(d)
    requires best < |d| && d[best] == 0 && forall p :: TurnedOver(inside, rs[best], inv.flip(rs[best]), p)
    ensures AgreesEverywhere(inside, TurnedRings(inv, rs, best), TurnedDepths(d, TurnShift(LastAtDepth(d, best))))
       <==> OnlyLastHasIslands(inside, rs, d)
  {
    hide Laminar, DepthsCount, LastAtDepth, TurnedOver, TurnedDepths, AgreesEverywhere, OnlyLastHasIslands, LevelOrdered;
    DepthsLength(inside, rs, d);
    forall k | 0 <= k < |d| ensures 0 <= d[k] {
      DepthsNatural(inside, rs, d, k);
    }
    var order := FrontOrder(|rs|, best);
    FrontIsReordering(|rs|, best);
    FrontDepths(d, best);
    FrontIslands(inside, rs, d, best);
    LaminarReordered(inside, rs, order);
    DepthsReordered(inside, rs, d, order);
    assert Pick(rs, order)[0] == rs[best];
    TurnedIff(inside, Pick(rs, order), d, TurnShift(LastAtDepth(d, best)), inv.flip(rs[best]));
  }

  /** Where the loop at position `k` goes when the loop at `best` is turned over. */
  function NewPlace(best: nat, k: nat): nat {
    if k == best then 0 else if k < best then k + 1 else k
  }

  lemma NewDepth<R>(inv: Inversion<R>, rs: seq<R>, d: seq<int>, best: nat, k: nat)
    requires |rs| == |d| && LevelOrdered(d) && best < |d| && d[best] == 0 && d[0] == 0 && k < |d| && k != best
    ensures var out := Inverted(inv, ItemsOf(rs, d), best);
      |out| == |d| && out[NewPlace(best, k)].depth == if d[k] == 0 then 1 else d[k] + TurnShift(LastAtDepth(d, best))
  {
    InvertedOrdered(inv, rs, d, best);
    hide Inverted, LastAtDepth;
    if k < best {
      FrontZeros(d, best, k + 1);
      FrontZeros(d, best, k);
    }
  }

  /** The documented depth: one up inside the chosen loop, one down elsewhere. */
  ghost predicate DepthAsDocumented<R, P(!new)>(inside: Interior<R, P>, inv: Inversion<R>, rs: seq<R>, d: seq<int>, best: nat, k: nat)
    requires |d| == |rs| && best < |d| && k < |d|
  {
    var out := Inverted(inv, ItemsOf(rs, d), best);
    NewPlace(best, k) < |out| && out[NewPlace(best, k)].depth == DocumentedDepth(inside, rs, d, best, k)
  }

  /**
   When inversion gives every loop its documented depth: all loops that are not outermost lie
   inside the chosen loop, if it is the last outermost one, and none does, if it is not.
   */
  lemma DocumentedDepthsIff<R, P(!new)>(inside: Interior<R, P>, inv: Inversion<R>, rs: seq<R>, d: seq<int>, best: nat)
    requires Laminar(inside, rs) && DepthsCount(inside, rs, d) && LevelOrdered(d)
    requires |d| == |rs| && best < |d| && d[best] == 0
    ensures (forall k: nat :: k < |d| && k != best ==> DepthAsDocumented(inside, inv, rs, d, best, k))
       <==> forall k: nat :: k < |d| && d[k] > 0 ==> (RegionWithin(inside, rs[k], rs[best]) <==> LastAtDepth(d, best))
  {
    hide Laminar, DepthsCount, LevelOrdered, RegionWithin, LastAtDepth, DepthAsDocumented;
    FirstIsOutermost(inside, rs, d);
    forall k: nat | k < |d| && k != best
      ensures DepthAsDocumented(inside, inv, rs, d, best, k)
         <==> (d[k] > 0 ==> (RegionWithin(inside, rs[k], rs[best]) <==> LastAtDepth(d, best)))
    {
      DocumentedAt(inside, inv, rs, d, best, k);
    }
  }

  lemma DocumentedAt<R, P(!new)>(inside: Interior<R, P>, inv: Inversion<R>, rs: seq<R>, d: seq<int>, best: nat, k: nat)
    requires DepthsCount(inside, rs, d) && LevelOrdered(d) && |d| == |rs|
    requires best < |d| && d[best] == 0 && d[0] == 0 && k < |d| && k != best
    ensures DepthAsDocumented(inside, inv, rs, d, best, k)
       <==> (d[k] > 0 ==> (RegionWithin(inside, rs[k], rs[best]) <==> LastAtDepth(d, best)))
  {
    DepthsNatural(inside, rs, d, k);
    if d[k] == 0 {
      OutermostHasNoContainer(inside, rs, d, k, best);
    }
    hide DepthsCount, LevelOrdered, RegionWithin, LastAtDepth, Inverted;
    NewDepth(inv, rs, d, best, k);
  }

  ghost function DocumentedDepth<R, P(!new)>(inside: Interior<R, P>, rs: seq<R>, d: seq<int>, best: nat, k: nat): int
    requires |d| == |rs| && best < |d| && k < |d|
  {
    if RegionWithin(inside, rs[k], rs[best]) then d[k] - 1 else d[k] + 1
  }

  lemma OutermostHasNoContainer<R, P(!new)>(inside: Interior<R, P>, rs: seq<R>, d: seq<int>, k: nat, best: nat)
    requires DepthsCount(inside, rs, d) && k < |d| && d[k] == 0 && best < |d| && best != k
    ensures !RegionWithin(inside, rs[k], rs[best])
  {
    assert Containers(inside, rs, k) == {};
    assert best !in Containers(inside, rs, k);
  }

  /** A depth-ordered family starts with an outermost loop. */
  lemma FirstIsOutermost<R, P(!new)>(inside: Interior<R, P>, rs: seq<R>, d: seq<int>)
    requires Laminar(inside, rs) && DepthsCount(inside, rs, d) && LevelOrdered(d) && d != []
    ensures d[0] == 0
  {
    DepthsLength(inside, rs, d);
    assert NonEmpty(inside, rs[0]);
    var p :| inside(rs[0], p);
    hide Laminar, DepthsCount;
    DepthsNatural(inside, rs, d, 0);
    var k := AtDepth(inside, rs, d, p, 0, 0);
    assert k > 0 ==> d[0] <= d[k];
  }

  // ----- the complement of a polygon -----

  function ToLoops<P>(items: seq<Item<seq<P>>>): (loops: seq<Loop<P>>)
    ensures |loops| == |items| && LoopItems(loops) == items
  {
    seq(|items|, k requires 0 <= k < |items| => Loop(items[k].ring, items[k].depth))
  }

  function Vertices<P>(a: seq<Loop<P>>): (vs: seq<seq<P>>)
    ensures |vs| == |a| && forall k :: 0 <= k < |a| ==> vs[k] == a[k].vertices
  {
    seq(|a|, k requires 0 <= k < |a| => a[k].vertices)
  }

  function InvertedLoops<P>(inv: Inversion<seq<P>>, a: seq<Loop<P>>, best: nat): seq<Loop<P>>
    requires a == [] || best < |a|
  {
    ToLoops(InvertedPolygon(inv, LoopItems(a), best))
  }

  /** What `clone` makes of a polygon: its loops are nested anew. */
  function Cloned<P>(geo: Geometry<P>, a: seq<Loop<P>>): seq<Loop<P>> {
    Nested(geo, Kept(geo, Vertices(a)))
  }

  /** The loops that `invert` may turn over: the first loop, or any outermost one. */
  predicate Choosable<P>(a: seq<Loop<P>>, best: nat) {
    a == [] || (best < |a| && (best == 0 || a[best].depth == 0))
  }

  /** `Polygon::complement`; the comparison of areas is a free choice. */
  method Complement<P>(geo: Geometry<P>, inv: Inversion<seq<P>>, a: seq<Loop<P>>) returns (out: seq<Loop<P>>, best: nat)
    ensures Choosable(Cloned(geo, a), best) && out == InvertedLoops(inv, Cloned(geo, a), best)
  {
    hide Nested, Kept, InvertedPolygon;
    var result := FromLoops(geo, Vertices(a));
    best := 0;
    if result != [] {
      assert Choosable(result, 0);
      best :| best < |result| && Choosable(result, best);
    }
    var items := Invert(inv, LoopItems(result), best);
    out := ToLoops(items);
  }

  lemma {:induction false} KeptProper<P>(geo: Geometry<P>, loops: seq<seq<P>>)
    ensures forall i :: 0 <= i < |Kept(geo, loops)| ==> !geo.isEmptyLoop(Kept(geo, loops)[i]) && Kept(geo, loops)[i] != []
  {
    if loops != [] {
      KeptProper(geo, loops[..|loops| - 1]);
    }
  }

  lemma NestableReordered<P(!new)>(geo: Geometry<P>, vs: seq<seq<P>>, order: seq<nat>)
    requires Nestable(geo, vs) && Reordering(order, |vs|)
    ensures Nestable(geo, Pick(vs, order))
  {
    hide RegionWithin, Laminar;
    LaminarReordered(geo.inside, vs, order);
    forall i, j | 0 <= i < |vs| && 0 <= j < |vs| && i != j ensures order[i] != order[j] {
      assert order[if i < j then i else j] != order[if i < j then j else i];
    }
  }

  /** Cloning a polygon that `from_loops` has built changes nothing. */
  lemma {:induction false} CloneIsSame<P(!new)>(geo: Geometry<P>, loops: seq<seq<P>>)
    requires Nestable(geo, Kept(geo, loops))
    ensures var a := Nested(geo, Kept(geo, loops)); Cloned(geo, a) == a
  {
    hide Nestable, Kept, Reordering, Stable, DepthsCount, LevelOrdered, NestingDepth;
    var vs := Kept(geo, loops);
    var d := Depths(geo, vs);
    var order := DepthOrder(d, |d|);
    var a, vs' := Nested(geo, vs), Pick(vs, order);
    assert Vertices(a) == vs';
    DepthOrderIsReordering(d);
    KeptProper(geo, loops);
    AllKept(geo, vs');
    NestableReordered(geo, vs, order);
    DepthsAreCounts(geo, vs);
    DepthsAreCounts(geo, vs');
    DepthsReordered(geo.inside, vs, d, order);
    SameCounts(geo.inside, vs', Depths(geo, vs'), Pick(d, order));
    SortedStays(Pick(d, order), |d|);
    assert forall k :: 0 <= k < |vs'| ==> Nested(geo, vs')[k] == Loop(vs'[k], Pick(d, order)[k]);
  }

  lemma SameCounts<R, P(!new)>(inside: Interior<R, P>, rs: seq<R>, d: seq<int>, d': seq<int>)
    requires DepthsCount(inside, rs, d) && DepthsCount(inside, rs, d')
    ensures d == d'
  {
    hide Containers;
  }

  /** The converted inverse holds a point iff the polygon does not, and never in two polygons. */
  ghost predicate ComplementAt<P(!new), C>(geo: Geometry<P>, conv: Conversion<P, C>, a: seq<Loop<P>>, out: seq<Loop<P>>, p: P) {
    var polys := Converted(RingItems(conv, out));
    && (SomePoly(InRing(geo, conv), polys, p) <==> !InOdd(geo.inside, LoopItems(a), p))
    && AtMostOnePoly(InRing(geo, conv), polys, p)
  }

  ghost predicate ConvertsToComplement<P(!new), C>(geo: Geometry<P>, conv: Conversion<P, C>, a: seq<Loop<P>>, out: seq<Loop<P>>) {
    forall p :: ComplementAt(geo, conv, a, out, p)
  }

  lemma ComplementIsFaithful<P(!new), C>(geo: Geometry<P>, conv: Conversion<P, C>, inv: Inversion<seq<P>>, a: seq<Loop<P>>, best: nat, p: P)
    requires Complements(geo.inside, inv) && (a == [] || best < |a|)
    ensures ComplementAt(geo, conv, a, InvertedLoops(inv, a, best), p) <==> FaithfulAt(geo, conv, InvertedLoops(inv, a, best), p)
  {
    hide Complements, InvertedPolygon, Converted, SomePoly, AtMostOnePoly, InOdd;
    EmptyAndFull(geo.inside, inv, LoopItems(a), best, p);
  }

  /** A polygon of one loop, or of none, converts faithfully. */
  lemma FewLoopsConvert<P(!new), C>(geo: Geometry<P>, conv: Conversion<P, C>, loops: seq<Loop<P>>, p: P)
    requires PointsSurvive(conv) && |loops| <= 1 && (loops != [] ==> loops[0].depth == 0)
    ensures FaithfulAt(geo, conv, loops, p)
  {
    hide FaithfulAt;
    var vs := Vertices(loops);
    var d := seq(|loops|, k requires 0 <= k < |loops| => loops[k].depth);
    FaithfulByCounting(geo, conv, loops, vs, d, p);
    if loops == [] {
      assert HitSet(geo.inside, vs, d, p) == {} && Chain(geo.inside, vs, p) == {};
    } else {
      NoHolesYet(d, 0, 1);
      var both := if geo.inside(vs[0], p) then {0} else {};
      assert HitSet(geo.inside, vs, d, p) == both && Chain(geo.inside, vs, p) == both;
    }
  }

  /** The case of at least two loops, for the family in its depth order. */
  lemma ManyLoopsIff<P(!new), C>(geo: Geometry<P>, conv: Conversion<P, C>, inv: Inversion<seq<P>>, a: seq<Loop<P>>,
                                 rs: seq<seq<P>>, d: seq<int>, best: nat)
    requires PointsSurvive(conv) && Complements(geo.inside, inv)
    requires Laminar(geo.inside, rs) && DepthsCount(geo.inside, rs, d) && LevelOrdered(d)
    requires |a| >= 2 && LoopItems(a) == ItemsOf(rs, d) && Choosable(a, best)
    ensures ConvertsToComplement(geo, conv, a, InvertedLoops(inv, a, best)) <==> OnlyLastHasIslands(geo.inside, rs, d)
  {
    hide Laminar, DepthsCount, LevelOrdered, LastAtDepth, TurnedRings, TurnedDepths, Inverted, OnlyLastHasIslands, PointsSurvive;
    DepthsLength(geo.inside, rs, d);
    FirstIsOutermost(geo.inside, rs, d);
    assert LoopItems(a)[best].depth == d[best];
    InvertedOrdered(inv, rs, d, best);
    forall p ensures TurnedOver(geo.inside, rs[best], inv.flip(rs[best]), p) {
      TurnsOverAt(geo.inside, inv, rs[best], p);
    }
    InvertedOrderIff(geo.inside, inv, rs, d, best);
    var out, turned := InvertedLoops(inv, a, best), TurnedRings(inv, rs, best);
    var depths := TurnedDepths(d, TurnShift(LastAtDepth(d, best)));
    assert LoopItems(out) == ItemsOf(turned, depths);
    hide InvertedPolygon, Complements, FaithfulAt, ComplementAt, AgreesAt, TurnedOver;
    forall p ensures ComplementAt(geo, conv, a, out, p) <==> AgreesAt(geo.inside, turned, depths, p) {
      ComplementIsFaithful(geo, conv, inv, a, best, p);
      LoopsOfItems(out, turned, depths);
      FaithfulByCounting(geo, conv, out, turned, depths, p);
    }
  }

  lemma LoopsOfItems<P>(loops: seq<Loop<P>>, vs: seq<seq<P>>, d: seq<int>)
    requires |vs| == |d| && LoopItems(loops) == ItemsOf(vs, d)
    ensures |loops| == |vs| && forall k :: 0 <= k < |loops| ==> loops[k] == Loop(vs[k], d[k])
  {
    forall k | 0 <= k < |loops| ensures loops[k] == Loop(vs[k], d[k]) {
      assert LoopItems(loops)[k] == ItemsOf(vs, d)[k];
    }
  }

  /**
   When the complement of one of the library's own polygons converts to the complement. For every
   list of nested-or-apart loops and every loop that `invert` may choose, it does so exactly when
   at each hole level only the last loop contains loops one level down.
   */
  lemma {:induction false} ComplementConvertsIff<P(!new), C>(geo: Geometry<P>, conv: Conversion<P, C>, inv: Inversion<seq<P>>, loops: seq<seq<P>>, best: nat)
    requires PointsSurvive(conv) && Complements(geo.inside, inv) && Nestable(geo, Kept(geo, loops))
    requires Choosable(Nested(geo, Kept(geo, loops)), best)
    ensures var a := Nested(geo, Kept(geo, loops));
      ConvertsToComplement(geo, conv, a, InvertedLoops(inv, a, best))
      <==> OnlyLastHasIslands(geo.inside, Kept(geo, loops), Depths(geo, Kept(geo, loops)))
  {
    hide Kept, Nestable, OnlyLastContains, Laminar, DepthsCount, LevelOrdered, Complements, ConvertsToComplement, PointsSurvive;
    var vs := Kept(geo, loops);
    var d := Depths(geo, vs);
    var order := DepthOrder(d, |d|);
    var a := Nested(geo, vs);
    SortedFamily(geo, vs);
    assert LoopItems(a) == ItemsOf(Pick(vs, order), Pick(d, order));
    if |a| >= 2 {
      ManyLoopsIff(geo, conv, inv, a, Pick(vs, order), Pick(d, order), best);
    } else {
      if a != [] {
        FirstIsOutermost(geo.inside, Pick(vs, order), Pick(d, order));
        assert LoopItems(a)[0].depth == 0;
      }
      OneLoopIff(geo, conv, inv, a, best);
      FewHaveNoIslands(geo.inside, vs, d);
    }
  }

  lemma FewHaveNoIslands<R, P(!new)>(inside: Interior<R, P>, rs: seq<R>, d: seq<int>)
    requires |d| == |rs| <= 1
    ensures OnlyLastHasIslands(inside, rs, d)
  {
  }

  lemma OneLoopIff<P(!new), C>(geo: Geometry<P>, conv: Conversion<P, C>, inv: Inversion<seq<P>>, a: seq<Loop<P>>, best: nat)
    requires PointsSurvive(conv) && Complements(geo.inside, inv)
    requires |a| <= 1 && (a != [] ==> a[0].depth == 0) && Choosable(a, best)
    ensures ConvertsToComplement(geo, conv, a, InvertedLoops(inv, a, best))
  {
    var out := InvertedLoops(inv, a, best);
    OneInverted(inv, a, best);
    hide InvertedPolygon, Complements, FaithfulAt, ComplementAt, PointsSurvive;
    forall p ensures ComplementAt(geo, conv, a, out, p) {
      ComplementIsFaithful(geo, conv, inv, a, best, p);
      FewLoopsConvert(geo, conv, out, p);
    }
  }

  lemma OneInverted<P>(inv: Inversion<seq<P>>, a: seq<Loop<P>>, best: nat)
    requires |a| <= 1 && (a != [] ==> a[0].depth == 0) && Choosable(a, best)
    ensures var out := InvertedLoops(inv, a, best); |out| <= 1 && (out != [] ==> out[0].depth == 0)
  {
  }

  /** Building a polygon and taking its complement, as callers do: the clone changes nothing. */
  method ComplementOfBuilt<P(!new), C>(geo: Geometry<P>, ghost conv: Conversion<P, C>, inv: Inversion<seq<P>>, loops: seq<seq<P>>)
    returns (a: seq<Loop<P>>, out: seq<Loop<P>>)
    requires PointsSurvive(conv) && Complements(geo.inside, inv) && Nestable(geo, Kept(geo, loops))
    ensures a == Nested(geo, Kept(geo, loops))
    ensures ConvertsToComplement(geo, conv, a, out) <==> OnlyLastHasIslands(geo.inside, Kept(geo, loops), Depths(geo, Kept(geo, loops)))
  {
    hide Kept, Nestable, OnlyLastHasIslands, Complements, ConvertsToComplement, PointsSurvive, Nested, Choosable, InvertedLoops;
    a := FromLoops(geo, loops);
    var best: nat;
    out, best := Complement(geo, inv, a);
    CloneIsSame(geo, loops);
    ComplementConvertsIff(geo, conv, inv, loops, best);
  }

  // ----- a shell with two holes, and an island in the first -----

  /** Turning an interval over: one vertex more, or one less. */
  function IntervalInversion(): Inversion<seq<int>> {
    Inversion(v => if |v| % 2 == 0 then v + [0] else v[..|v| - 1], [0], v => |v| == 1)
  }

  lemma IntervalsComplement()
    ensures Complements(IntervalGeometry().inside, IntervalInversion())
  {
    var inside, inv := IntervalGeometry().inside, IntervalInversion();
    forall v, p ensures TurnsOver(inside, inv, v, p) {
      assert |v| >= 2 && |v| % 2 == 1 ==> |v| >= 3;
    }
  }

  const ISLAND: seq<seq<int>> := [[0, 100], [10, 30], [50, 60], [15, 20]]

  lemma IslandIsNestable()
    ensures Nestable(IntervalGeometry(), ISLAND)
    ensures forall i, j :: 0 <= i < 4 && 0 <= j < 4 ==>
      (RegionWithin(IntervalGeometry().inside, ISLAND[i], ISLAND[j]) <==> j == i || j == 0 || (i == 3 && j == 1))
  {
    hide Nestable, RegionWithin;
    var vs := ISLAND;
    assert vs[0] == [0, 100] && vs[1] == [10, 30] && vs[2] == [50, 60] && vs[3] == [15, 20];
    IntervalsNestable(vs);
  }

  lemma IslandDepths()
    ensures Depths(IntervalGeometry(), ISLAND) == [0, 1, 1, 2]
  {
    hide NestingDepth;
    var geo, vs := IntervalGeometry(), ISLAND;
    assert vs[0] == [0, 100] && vs[1] == [10, 30] && vs[2] == [50, 60] && vs[3] == [15, 20];
    DepthOfFour(geo, vs, 0);
    DepthOfFour(geo, vs, 1);
    DepthOfFour(geo, vs, 2);
    DepthOfFour(geo, vs, 3);
  }

  lemma IslandNested()
    ensures Kept(IntervalGeometry(), ISLAND) == ISLAND
    ensures var loops := Nested(IntervalGeometry(), ISLAND);
      |loops| == 4 && forall k :: 0 <= k < 4 ==> loops[k] == Loop(ISLAND[k], [0, 1, 1, 2][k])
  {
    hide NestingDepth, Depths, Kept;
    IslandDepths();
    AllKept(IntervalGeometry(), ISLAND);
    SortedStays([0, 1, 1, 2], 4);
  }

  /**
   This polygon converts to its own region, yet its complement does not convert to the complement:
   point 16, on the island, is in the polygon and in the converted complement, which has given the
   island to the second hole.
   */
  lemma ComplementKeepsIsland<C>(conv: Conversion<int, C>)
    requires PointsSurvive(conv)
    ensures var geo := IntervalGeometry();
      var a := Nested(geo, Kept(geo, ISLAND));
      && |a| == 4 && a[0].depth == 0 && ConvertsFaithfully(geo, conv, a)
      && InOdd(geo.inside, LoopItems(a), 16)
      && SomePoly(InRing(geo, conv), Converted(RingItems(conv, InvertedLoops(IntervalInversion(), a, 0))), 16)
  {
    hide Nestable, Kept, Depths, Nested, ConvertsFaithfully, RegionWithin, PointsSurvive, SomePoly, Converted, OnlyLastHasHoles;
    var geo, inv, rs, d := IntervalGeometry(), IntervalInversion(), ISLAND, [0, 1, 1, 2];
    IslandNested();
    IslandIsNestable();
    IslandDepths();
    IslandHolesLast();
    FromLoopsConvertsIff(geo, conv, rs);
    var a := Nested(geo, rs);
    OddOfFourLoops(geo.inside, LoopItems(a), 16);
    IslandKept(conv, a);
  }

  lemma IslandHolesLast()
    ensures OnlyLastHasHoles(IntervalGeometry().inside, ISLAND, [0, 1, 1, 2])
  {
    hide RegionWithin;
  }

  /** The first hole is given no islands, so that it keeps the point. */
  lemma IslandHit(shift: int)
    requires shift == 1 || shift == -1
    ensures var geo, inv := IntervalGeometry(), IntervalInversion();
      HitSet(geo.inside, ISLAND[0 := inv.flip(ISLAND[0])], TurnedDepths([0, 1, 1, 2], shift), 16) != {}
  {
    hide IntervalGeometry, IntervalInversion, Complements, LastAtDepth, Laminar, DepthsCount, HitSet, TurnedDepths, TurnedOver, RegionWithin;
    var geo, inv, rs, d := IntervalGeometry(), IntervalInversion(), ISLAND, [0, 1, 1, 2];
    IslandFamily();
    IntervalsComplement();
    TurnedOverAt(geo.inside, inv, rs[0], 16);
    TurnedDisagrees(geo.inside, rs, d, shift, inv.flip(rs[0]), 16, 1, 3);
  }

  lemma IslandFamily()
    ensures var inside, d := IntervalGeometry().inside, [0, 1, 1, 2];
      && Laminar(inside, ISLAND) && DepthsCount(inside, ISLAND, d) && Ordered(d) && !LastAtDepth(d, 1)
      && RegionWithin(inside, ISLAND[3], ISLAND[1]) && inside(ISLAND[3], 16)
  {
    IslandPlaces();
    hide IntervalGeometry, Nestable, RegionWithin, Laminar, DepthsCount, Depths, LastAtDepth, Ordered;
    IslandIsNestable();
    IslandDepths();
    DepthsAreCounts(IntervalGeometry(), ISLAND);
    NestableIsLaminar(IntervalGeometry(), ISLAND);
  }

  lemma IslandPlaces()
    ensures var d := [0, 1, 1, 2];
      Ordered(d) && !LastAtDepth(d, 1) && IntervalGeometry().inside(ISLAND[3], 16)
  {
    var d := [0, 1, 1, 2];
    assert d[2] == d[1];
    assert ISLAND[3] == [15, 20];
  }

  lemma TurnedOverAt<R(!new), P(!new)>(inside: Interior<R, P>, inv: Inversion<R>, r: R, p: P)
    requires Complements(inside, inv)
    ensures TurnedOver(inside, r, inv.flip(r), p)
  {
    TurnsOverAt(inside, inv, r, p);
  }

  lemma IslandKept<C>(conv: Conversion<int, C>, a: seq<Loop<int>>)
    requires PointsSurvive(conv) && |a| == 4 && forall k :: 0 <= k < 4 ==> a[k] == Loop(ISLAND[k], [0, 1, 1, 2][k])
    ensures SomePoly(InRing(IntervalGeometry(), conv), Converted(RingItems(conv, InvertedLoops(IntervalInversion(), a, 0))), 16)
  {
    hide LastAtDepth, PointsSurvive, SomePoly, Converted, Inverted, TurnedDepths, HitSet, IntervalGeometry, IntervalInversion, InRing;
    var geo, inv, rs, d := IntervalGeometry(), IntervalInversion(), ISLAND, [0, 1, 1, 2];
    var shift, out := TurnShift(LastAtDepth(d, 0)), InvertedLoops(inv, a, 0);
    assert LoopItems(a) == ItemsOf(rs, d);
    InvertedOrdered(inv, rs, d, 0);
    IslandHit(shift);
    assert Pick(rs, FrontOrder(4, 0)) == rs;
    hide TurnedRings, FrontOrder;
    LoopsOfItems(out, TurnedRings(inv, rs, 0), TurnedDepths(d, shift));
    SomePolyByCounting(geo, conv, out, TurnedRings(inv, rs, 0), TurnedDepths(d, shift), 16);
  }

  /** With two shells, each with a hole, turning over the first sends its own hole down, not up. */
  lemma DescendantGoesDown()
    ensures var geo := IntervalGeometry();
      var items := ItemsOf(TWO_SHELLS, [0, 0, 1, 1]);
      && LoopItems(Nested(geo, Kept(geo, TWO_SHELLS))) == items
      && RegionWithin(geo.inside, TWO_SHELLS[2], TWO_SHELLS[0])
      && |Inverted(IntervalInversion(), items, 0)| == 4 && Inverted(IntervalInversion(), items, 0)[2].depth == 2
  {
    hide Nested, Kept, Inverted, RegionWithin, Nestable;
    var d := [0, 0, 1, 1];
    TwoShellsNested();
    TwoShellsAreNestable();
    assert !LastAtDepth(d, 0) by { assert d[1] == d[0]; }
    hide LastAtDepth;
    NewDepth(IntervalInversion(), TWO_SHELLS, d, 0, 2);
  }
}
