/**
 The inputs that the reference-vector generator builds for cell unions, and what it claims of
 them: valid but not normalised unions, a cascade of merges, random cells around an anchor.
 */
module CellFixtures {
  import opened Cells
  import opened CellUnion
  import opened Normalize
  import opened Denormalize
  import opened Division

  // ----- SplitOne -----

  predicate FirstNonLeaf(u: seq<Cell>, i: nat) {
    i < |u| && !IsLeaf(u[i]) && forall j :: 0 <= j < i ==> IsLeaf(u[j])
  }

  predicate AllLeaves(u: seq<Cell>) {
    forall i :: 0 <= i < |u| ==> IsLeaf(u[i])
  }

  function SplitAt(u: seq<Cell>, i: nat): seq<Cell>
    requires i < |u| && !IsLeaf(u[i])
  {
    u[..i] + Children(u[i]) + u[i + 1..]
  }

  /** The loop that pushes the four children of a cell. */
  method PushChildren(ids: seq<Cell>, c: Cell) returns (out: seq<Cell>)
    requires !IsLeaf(c)
    ensures out == ids + Children(c)
  {
    hide Pow4;
    out := ids;
    for k := 0 to 4
      invariant out == ids + Children(c)[..k]
    {
      out := out + [Child(c, k)];
    }
    assert Children(c)[..4] == Children(c);
  }

  method SplitOne(norm: seq<Cell>) returns (out: seq<Cell>)
    ensures AllLeaves(norm) ==> out == norm
    ensures forall i: nat | FirstNonLeaf(norm, i) :: out == SplitAt(norm, i)
  {
    hide Pow4;
    out := [];
    var done := false;
    ghost var at := 0;
    for n := 0 to |norm|
      invariant !done ==> out == norm[..n] && AllLeaves(norm[..n])
      invariant done ==> at < n && FirstNonLeaf(norm, at) && out == norm[..at] + Children(norm[at]) + norm[at + 1..n]
    {
      var c := norm[n];
      if !done && !IsLeaf(c) {
        out := PushChildren(out, c);
        done, at := true, n;
        assert forall j :: 0 <= j < n ==> norm[j] == norm[..n][j];
      } else {
        out := out + [c];
      }
    }
    assert AllLeaves(norm) ==> !done;
    assert done ==> norm[at + 1..|norm|] == norm[at + 1..];
  }

  /** The first cell above level 30 gives way to its four children. */
  lemma SplitAtFirst(u: seq<Cell>, i: nat)
    requires i < |u| && u[i].level < 30 && forall j :: 0 <= j < i ==> u[j].level == 30
    ensures FirstNonLeaf(u, i)
    ensures SplitAt(u, i) == u[..i] + [Child(u[i], 0), Child(u[i], 1), Child(u[i], 2), Child(u[i], 3)] + u[i + 1..]
  {
  }

  /** Splitting keeps validity and the region; it is undone by one merge, and only by that. */
  lemma SplitAtIsUnmerge(u: seq<Cell>, i: nat)
    requires IsValid(u) && i < |u| && !IsLeaf(u[i])
    ensures IsValid(SplitAt(u, i)) && SameCoverage(SplitAt(u, i), u)
    ensures SiblingsAt(SplitAt(u, i), i) && MergeAt(SplitAt(u, i), i) == u
    ensures !IsNormalized(SplitAt(u, i))
  {
    hide Lo, Hi, Id, Width, Pow4, AreSiblings, Covers;
    var s := SplitAt(u, i);
    var c := u[i];
    SplitAtAscends(u, i);
    ValidIsAscending(s);
    assert s[i] == Child(c, 0) && s[i + 1] == Child(c, 1) && s[i + 2] == Child(c, 2) && s[i + 3] == Child(c, 3);
    ChildrenAreSiblings(c, s[i], s[i + 1], s[i + 2], s[i + 3]);
    assert SiblingsAt(s, i);
    assert Parent(s[i + 3]) == c;
    assert s[..i] == u[..i] && s[i + 4..] == u[i + 1..];
    assert u == u[..i] + [c] + u[i + 1..];
    MergeKeeps(s, i);
  }

  lemma SplitAtAscends(u: seq<Cell>, i: nat)
    requires IsValid(u) && i < |u| && !IsLeaf(u[i])
    ensures Ascending(SplitAt(u, i))
  {
    hide Lo, Hi, Id, Width, Pow4, AreSiblings;
    var c := u[i];
    ValidIsAscending(u);
    ChildrenCover(c);
    var d := Children(c);
    RangeOfId(d[0]);
    RangeOfId(d[1]);
    RangeOfId(d[2]);
    RangeOfId(d[3]);
    RangeOfId(c);
    ConcatAscending(u[..i], d, Lo(c));
    var head, tail := u[..i] + d, u[i + 1..];
    forall j | 0 <= j < |head| ensures Hi(head[j]) <= Hi(c) {
      if j < i {
        assert Hi(u[j]) <= Lo(u[i]);
      }
    }
    ConcatAscending(head, tail, Hi(c));
  }

  /**
   The generator's claim about `SplitOne` of a normalised union: the result is valid, has the
   same region, is not normalised unless every cell is a leaf, and normalises back to the input.
   */
  lemma SplitOneIsValidNotNormalized(norm: seq<Cell>, out: seq<Cell>)
    requires IsNormalized(norm)
    requires AllLeaves(norm) ==> out == norm
    requires forall i: nat | FirstNonLeaf(norm, i) :: out == SplitAt(norm, i)
    ensures IsValid(out) && SameCoverage(out, norm)
    ensures IsNormalized(out) <==> AllLeaves(norm)
    ensures forall v :: IsNormalized(v) && SameCoverage(v, out) ==> v == norm
  {
    hide Lo, Hi, Id, Width, Pow4, AreSiblings, Covers, IsValid;
    if !AllLeaves(norm) {
      var i := FindNonLeaf(norm);
      SplitAtIsUnmerge(norm, i);
    }
    forall v | IsNormalized(v) && SameCoverage(v, out) ensures v == norm {
      NormalFormUnique(v, norm);
    }
  }

  lemma {:induction false} FindNonLeaf(u: seq<Cell>) returns (i: nat)
    requires !AllLeaves(u)
    ensures FirstNonLeaf(u, i)
  {
    i := 0;
    while IsLeaf(u[i])
      invariant i < |u| && forall j :: 0 <= j < i ==> IsLeaf(u[j])
      decreases |u| - i
    {
      i := i + 1;
    }
  }

  /** Splitting and normalising composed: the generator's rows start from what they end in. */
  method SplitThenNormalize(norm: seq<Cell>) returns (back: seq<Cell>)
    requires IsNormalized(norm)
    ensures back == norm
  {
    hide Lo, Hi, Id, Width, Pow4, AreSiblings, Covers, IsValid;
    var out := SplitOne(norm);
    SplitOneIsValidNotNormalized(norm, out);
    back := NormalizeCells(out);
  }

  // ----- CascadeOfSeven -----

  function Cascade(p: Cell): seq<Cell>
    requires p.level + 2 <= MAX_LEVEL
  {
    [Child(p, 0), Child(p, 1), Child(p, 2)] + Children(Child(p, 3))
  }

  method CascadeOfSeven(p: Cell) returns (ids: seq<Cell>)
    requires p.level + 2 <= MAX_LEVEL
    ensures ids == Cascade(p)
  {
    ids := [Child(p, 0), Child(p, 1), Child(p, 2)];
    ids := PushChildren(ids, Child(p, 3));
  }

  /** The cascade comes from its cell by two splits, and goes back by two merges. */
  lemma CascadeIsTwoSplits(p: Cell)
    requires p.level + 2 <= MAX_LEVEL
    ensures SplitAt([p], 0) == Children(p) && SplitAt(Children(p), 3) == Cascade(p)
  {
    hide Pow4;
    assert [p][..0] == [] && [p][1..] == [];
    assert Children(p)[..3] == [Child(p, 0), Child(p, 1), Child(p, 2)] && Children(p)[4..] == [];
  }

  lemma MergesByOne(u: seq<Cell>, v: seq<Cell>, w: seq<Cell>, i: nat, k: nat)
    requires SiblingsAt(u, i) && MergeAt(u, i) == v && Merges(v, w, k)
    ensures Merges(u, w, k + 1)
  {
  }

  lemma CascadeMerges(p: Cell)
    requires p.level + 2 <= MAX_LEVEL
    ensures IsValid(Cascade(p)) && SameCoverage(Cascade(p), [p]) && Merges(Cascade(p), [p], 2)
  {
    assert Merges([p], [p], 0) && IsValid([p]);
    hide *;
    CascadeIsTwoSplits(p);
    SplitAtIsUnmerge([p], 0);
    SplitAtIsUnmerge(Children(p), 3);
    SameCoverageTrans(Cascade(p), Children(p), [p]);
    MergesByOne(Children(p), [p], [p], 0, 0);
    MergesByOne(Cascade(p), Children(p), [p], 3, 1);
  }

  /**
   The cascade is valid and covers exactly `p`; merging siblings, in whatever order, stops at
   `[p]` and nowhere else, after exactly two merges.
   */
  lemma {:induction false} CascadeCollapsesTwice(p: Cell, v: seq<Cell>, k: nat)
    requires p.level + 2 <= MAX_LEVEL
    ensures IsValid(Cascade(p)) && SameCoverage(Cascade(p), [p])
    ensures Merges(Cascade(p), v, k) && (forall i: nat :: !SiblingsAt(v, i)) <==> v == [p] && k == 2
  {
    assert forall i: nat :: !SiblingsAt([p], i);
    hide *;
    CascadeMerges(p);
    if Merges(Cascade(p), v, k) && forall i: nat :: !SiblingsAt(v, i) {
      MergingIsConfluent(Cascade(p), v, k, [p], 2);
    }
  }

  lemma CascadeLevels(p: Cell)
    requires p.level + 2 <= MAX_LEVEL
    ensures |Cascade(p)| == 7
    ensures forall i :: 0 <= i < 7 ==> Cascade(p)[i].level == if i < 3 then p.level + 1 else p.level + 2
  {
    hide Pow4;
  }

  lemma SiblingsAreLevel(a: Cell, b: Cell, c: Cell, d: Cell)
    ensures AreSiblings(a, b, c, d) ==> a.level == d.level
  {
  }

  /** Read cell by cell, nothing merges until the last one is there. */
  lemma {:induction false} CascadeMergesLast(p: Cell, n: nat)
    requires p.level + 2 <= MAX_LEVEL && n < 7
    ensures IsNormalized(Cascade(p)[..n])
  {
    hide Cascade, SameCoverage, Merges, AreSiblings, IsValid;
    CascadeMerges(p);
    CascadeLevels(p);
    var s := Cascade(p);
    PrefixIsValid(s, n);
    forall i: nat ensures !SiblingsAt(s[..n], i) {
      if i + 3 < n {
        SiblingsAreLevel(s[i], s[i + 1], s[i + 2], s[i + 3]);
      }
    }
  }

  lemma PrefixIsValid(u: seq<Cell>, n: nat)
    requires IsValid(u) && n <= |u|
    ensures IsValid(u[..n])
  {
    hide Id, RangeMin, RangeMax;
  }

  lemma SameCoverageTrans(u: seq<Cell>, v: seq<Cell>, w: seq<Cell>)
    requires SameCoverage(u, v) && SameCoverage(v, w)
    ensures SameCoverage(u, w)
  {
    hide Covers;
  }

  // ----- random cells around an anchor -----

  type Leaf = c: Cell | IsLeaf(c) witness CellId(30, 0)

  /** The source of randomness: whatever numbers and points it gives, in order. */
  class Rng {
    const draws: nat -> nat
    const leaves: nat -> Leaf
    var at: nat
    var points: nat

    constructor (draws: nat -> nat, leaves: nat -> Leaf)
      ensures this.draws == draws && this.leaves == leaves && at == 0 && points == 0
    {
      this.draws, this.leaves, at, points := draws, leaves, 0, 0;
    }

    method Next() returns (x: nat)
      modifies this`at
      ensures x == draws(old(at)) && at == old(at) + 1
    {
      x := draws(at);
      at := at + 1;
    }

    /** The leaf cell of a random point. */
    method NextLeaf() returns (c: Leaf)
      modifies this`points
      ensures c == leaves(old(points)) && points == old(points) + 1
    {
      c := leaves(points);
      points := points + 1;
    }
  }

  predicate Below(c: Cell, anchor: Cell) {
    Inside(c, anchor) && anchor.level <= c.level
  }

  /** Down at most `depth` levels, to the child each draw gives; also where the draws stand then. */
  function Walk(draws: nat -> nat, at: nat, c: Cell, depth: nat): (Cell, nat)
    decreases depth
  {
    if depth == 0 || IsLeaf(c) then (c, at)
    else Walk(draws, at + 1, Child(c, draws(at) % 4), depth - 1)
  }

  /** A random descendant. */
  function Descendant(draws: nat -> nat, at: nat, anchor: Cell): (Cell, nat) {
    Walk(draws, at + 1, anchor, draws(at) % 5)
  }

  method RandDescendant(rng: Rng, anchor: Cell) returns (c: Cell)
    modifies rng`at
    ensures (c, rng.at) == Descendant(rng.draws, old(rng.at), anchor)
  {
    var draw := rng.Next();
    var depth := draw % 5;
    c := anchor;
    var k := 0;
    while k < depth && c.level < MAX_LEVEL
      invariant k <= depth
      invariant Walk(rng.draws, rng.at, c, depth - k) == Descendant(rng.draws, old(rng.at), anchor)
    {
      draw := rng.Next();
      c := Child(c, draw % 4);
      k := k + 1;
    }
  }

  /** The ancestor of `d` so many levels up is `c`. */
  predicate IsAncestor(c: Cell, d: Cell, up: nat) {
    d.level == c.level + up && d.index / Pow4(up) == c.index
  }

  /** Which child the ancestor is that many levels above `d`. */
  function ChildPosition(d: Cell, up: nat): nat {
    (d.index / Pow4(up)) % 4
  }

  lemma FourPowers(i: nat, k: nat)
    requires k > 0
    ensures i / Pow4(k) == i / Pow4(k - 1) / 4 == i / 4 / Pow4(k - 1)
  {
    var p := Pow4(k - 1);
    PowStep(k);
    hide Pow4;
    NestedQuotient(i, p, 4);
    NestedQuotient(i, 4, p);
  }

  lemma AncestorOfChild(c: Cell, k: nat, d: Cell, up: nat)
    requires !IsLeaf(c) && k < 4 && IsAncestor(Child(c, k), d, up)
    ensures IsAncestor(c, d, up + 1) && ChildPosition(d, up) == k
  {
    FourPowers(d.index, up + 1);
    hide Pow4;
  }

  lemma ChildOnTheWay(c: Cell, d: Cell, up: nat)
    requires IsAncestor(c, d, up) && up > 0
    ensures !IsLeaf(c) && IsAncestor(Child(c, ChildPosition(d, up - 1)), d, up - 1)
  {
    FourPowers(d.index, up);
    hide Pow4;
  }

  lemma OwnAncestor(c: Cell, d: Cell)
    ensures IsAncestor(c, d, 0) <==> c == d
  {
  }

  lemma WalkStep(draws: nat -> nat, at: nat, c: Cell, depth: nat)
    ensures depth == 0 || IsLeaf(c) ==> Walk(draws, at, c, depth) == (c, at)
    ensures depth > 0 && !IsLeaf(c) ==> Walk(draws, at, c, depth) == Walk(draws, at + 1, Child(c, draws(at) % 4), depth - 1)
  {
  }

  /** From cell `c` and draw `at` down to `d`, one draw for each level, to the child the draw gives. */
  ghost predicate Followed(draws: nat -> nat, at: nat, c: Cell, d: Cell, end: nat) {
    && c.level <= d.level && end == at + (d.level - c.level)
    && IsAncestor(c, d, d.level - c.level)
    && forall i: nat :: at <= i < end ==> draws(i) % 4 == ChildPosition(d, end - 1 - i)
  }

  /** The walk stops `depth` levels down or at a leaf, having followed the draws. */
  lemma {:induction false} WalkFollowsDraws(draws: nat -> nat, at: nat, c: Cell, depth: nat)
    ensures var (d, end) := Walk(draws, at, c, depth);
      && d.level == (if c.level + depth <= 30 then c.level + depth else 30)
      && Followed(draws, at, c, d, end) && Below(d, c)
    decreases depth
  {
    hide *;
    WalkStep(draws, at, c, depth);
    AtLeaf(c);
    if depth == 0 || IsLeaf(c) {
      FollowNothing(draws, at, c);
    } else {
      var k := draws(at) % 4;
      var (d, end) := Walk(draws, at, c, depth);
      ChildRange(c, k);
      LevelOfChild(c, k);
      WalkFollowsDraws(draws, at + 1, Child(c, k), depth - 1);
      FollowOneMore(draws, at, c, k, d, end);
    }
  }

  lemma AtLeaf(c: Cell)
    ensures c.level <= 30 && (IsLeaf(c) <==> c.level == 30)
  {
  }

  lemma LevelOfChild(c: Cell, k: nat)
    requires !IsLeaf(c) && k < 4
    ensures Child(c, k).level == c.level + 1
  {
  }

  lemma FollowNothing(draws: nat -> nat, at: nat, c: Cell)
    ensures Followed(draws, at, c, c, at) && Below(c, c)
  {
    hide Lo, Hi, Pow4;
    OwnAncestor(c, c);
  }

  lemma FollowOneMore(draws: nat -> nat, at: nat, c: Cell, k: nat, d: Cell, end: nat)
    requires !IsLeaf(c) && k == draws(at) % 4 && Followed(draws, at + 1, Child(c, k), d, end) && Below(d, Child(c, k))
    ensures Followed(draws, at, c, d, end) && Below(d, c)
  {
    hide Lo, Hi, Pow4, IsAncestor, ChildPosition;
    ChildRange(c, k);
    AncestorOfChild(c, k, d, d.level - c.level - 1);
  }

  predicate FourDown(c: Cell, anchor: Cell) {
    Below(c, anchor) && c.level <= anchor.level + 4
  }

  lemma {:induction false} DrawnIsFourDown(draws: nat -> nat, at: nat, anchor: Cell)
    ensures FourDown(Descendant(draws, at, anchor).0, anchor)
  {
    hide Below, Followed;
    WalkFollowsDraws(draws, at + 1, anchor, draws(at) % 5);
  }

  // ----- which descendants can be drawn -----

  /** From `at` on the draws are the given ones. */
  ghost predicate Plays(draws: nat -> nat, at: nat, s: seq<nat>) {
    forall i: nat :: at <= i < at + |s| ==> draws(i) == s[i - at]
  }

  lemma PlaysParts(draws: nat -> nat, at: nat, s: seq<nat>, t: seq<nat>)
    requires Plays(draws, at, s + t)
    ensures Plays(draws, at, s) && Plays(draws, at + |s|, t)
  {
    forall i: nat | at <= i < at + |s| ensures draws(i) == s[i - at] {
      assert (s + t)[i - at] == s[i - at];
    }
    forall i: nat | at + |s| <= i < at + |s| + |t| ensures draws(i) == t[i - at - |s|] {
      assert (s + t)[i - at] == t[i - at - |s|];
    }
  }

  /** The draws that give `d`: how many levels, then the child on each. */
  function DrawsFor(d: Cell, anchor: Cell): (s: seq<nat>)
    requires anchor.level <= d.level
    ensures |s| == 1 + (d.level - anchor.level)
  {
    var up := d.level - anchor.level;
    [up] + seq(up, i requires 0 <= i < up => ChildPosition(d, up - 1 - i))
  }

  lemma DescendantPlayed(draws: nat -> nat, at: nat, anchor: Cell, d: Cell)
    requires FourDown(d, anchor) && Plays(draws, at, DrawsFor(d, anchor))
    ensures Descendant(draws, at, anchor) == (d, at + |DrawsFor(d, anchor)|)
  {
    hide *;
    var up := d.level - anchor.level;
    FourDownIsClose(d, anchor);
    DrawsAreFollowed(draws, at, anchor, d, up);
    DescendantIsWalk(draws, at, anchor, up);
    WalkReaches(draws, at + 1, anchor, d, at + up + 1);
  }

  lemma FourDownIsClose(d: Cell, anchor: Cell)
    requires FourDown(d, anchor)
    ensures anchor.level <= d.level <= anchor.level + 4 && IsAncestor(anchor, d, d.level - anchor.level)
  {
    InsideIsAncestor(d, anchor);
    hide Inside, IsAncestor;
  }

  lemma DrawsAreFollowed(draws: nat -> nat, at: nat, anchor: Cell, d: Cell, up: nat)
    requires anchor.level + up == d.level && IsAncestor(anchor, d, up) && Plays(draws, at, DrawsFor(d, anchor))
    ensures draws(at) == up && Followed(draws, at + 1, anchor, d, at + up + 1)
    ensures forall i: nat :: at + 1 <= i <= at + up ==> draws(i) < 4
  {
    hide Pow4, IsAncestor;
    forall i: nat | at + 1 <= i <= at + up ensures draws(i) == ChildPosition(d, at + up - i) < 4 {
      assert draws(i) == DrawsFor(d, anchor)[i - at];
    }
    assert draws(at) == DrawsFor(d, anchor)[0];
  }

  lemma DescendantIsWalk(draws: nat -> nat, at: nat, anchor: Cell, up: nat)
    requires draws(at) == up <= 4
    ensures Descendant(draws, at, anchor) == Walk(draws, at + 1, anchor, up)
  {
    hide Walk;
    assert draws(at) % 5 == up;
  }

  lemma {:induction false} WalkReaches(draws: nat -> nat, at: nat, c: Cell, d: Cell, end: nat)
    requires Followed(draws, at, c, d, end) && forall i: nat :: at <= i < end ==> draws(i) < 4
    ensures Walk(draws, at, c, end - at) == (d, end)
    decreases end - at
  {
    hide Pow4, IsAncestor, ChildPosition, Walk;
    WalkStep(draws, at, c, end - at);
    if end == at {
      OwnAncestor(c, d);
    } else {
      ChildOnTheWay(c, d, d.level - c.level);
      assert draws(at) % 4 == ChildPosition(d, d.level - c.level - 1);
      WalkReaches(draws, at + 1, Child(c, draws(at) % 4), d, end);
    }
  }

  /** A cell inside another is its descendant. */
  lemma {:induction false} InsideIsAncestor(d: Cell, c: Cell)
    requires Inside(d, c) && c.level <= d.level
    ensures IsAncestor(c, d, d.level - c.level)
    decreases d.level - c.level
  {
    hide Lo, Hi, Pow4, IsAncestor;
    if d.level == c.level {
      InsideLevel(d, c);
      InsideLevel(c, d);
      NestedOrApart(c, d);
      RangeOfId(d);
      OwnAncestor(c, d);
    } else {
      ParentChild(d);
      NestedOrApart(c, Parent(d));
      RangeOfId(d);
      InsideIsAncestor(Parent(d), c);
      UpOnce(d, c, d.level - c.level);
    }
  }

  lemma UpOnce(d: Cell, c: Cell, up: nat)
    requires up > 0 && d.level > 0 && IsAncestor(c, Parent(d), up - 1)
    ensures IsAncestor(c, d, up)
  {
    FourPowers(d.index, up);
    hide Pow4;
  }

  // ----- random lists of cells -----

  /** So many random descendants, one after the other. */
  function DrawnCells(draws: nat -> nat, at: nat, anchor: Cell, n: nat): (seq<Cell>, nat) {
    if n == 0 then ([], at)
    else
      var (before, mid) := DrawnCells(draws, at, anchor, n - 1);
      var (c, end) := Descendant(draws, mid, anchor);
      (before + [c], end)
  }

  /** One time in three, the children of one more descendant. */
  function DrawnGroup(draws: nat -> nat, at: nat, anchor: Cell): (seq<Cell>, nat) {
    if draws(at) % 3 != 0 || IsLeaf(anchor) then ([], at + 1)
    else
      var (p, end) := Descendant(draws, at + 1, anchor);
      (if IsLeaf(p) then [] else Children(p), end)
  }

  function CellsAround(draws: nat -> nat, at: nat, anchor: Cell, maxCells: nat): (seq<Cell>, nat) {
    var n := draws(at) % (maxCells + 1);
    var (ids, mid) := DrawnCells(draws, at + 1, anchor, n);
    if n == 0 then (ids, mid)
    else
      var (group, end) := DrawnGroup(draws, mid, anchor);
      (ids + group, end)
  }

  method DrawCells(rng: Rng, anchor: Cell, n: nat) returns (ids: seq<Cell>)
    modifies rng`at
    ensures (ids, rng.at) == DrawnCells(rng.draws, old(rng.at), anchor, n)
  {
    hide Descendant;
    ids := [];
    for i := 0 to n
      invariant (ids, rng.at) == DrawnCells(rng.draws, old(rng.at), anchor, i)
    {
      var d := RandDescendant(rng, anchor);
      ids := ids + [d];
    }
  }

  method RandCellsAround(rng: Rng, anchor: Cell, maxCells: nat) returns (ids: seq<Cell>)
    modifies rng`at
    ensures (ids, rng.at) == CellsAround(rng.draws, old(rng.at), anchor, maxCells)
  {
    hide Descendant, DrawnCells, Children, Pow4;
    var draw := rng.Next();
    var n := draw % (maxCells + 1);
    ids := DrawCells(rng, anchor, n);
    assert ids + [] == ids;
    if n > 0 {
      draw := rng.Next();
      if draw % 3 == 0 && !IsLeaf(anchor) {
        var p := RandDescendant(rng, anchor);
        if !IsLeaf(p) {
          ids := PushChildren(ids, p);
        }
      }
    }
  }

  /**
   The lists that can come out: at most `maxCells` descendants, each at most four levels down,
   then, if there was one and the anchor is no leaf, perhaps the four children of another.
   */
  ghost predicate Drawable(ids: seq<Cell>, anchor: Cell, maxCells: nat, n: nat) {
    && n <= maxCells && n <= |ids| && (forall i :: 0 <= i < n ==> FourDown(ids[i], anchor))
    && (|ids| == n || (n > 0 && !IsLeaf(anchor) && exists p: Cell :: GroupOf(ids[n..], p, anchor)))
  }

  ghost predicate GroupOf(group: seq<Cell>, p: Cell, anchor: Cell) {
    FourDown(p, anchor) && !IsLeaf(p) && group == Children(p)
  }

  lemma {:induction false} DrawnCellsAreFourDown(draws: nat -> nat, at: nat, anchor: Cell, n: nat)
    ensures |DrawnCells(draws, at, anchor, n).0| == n
    ensures forall i :: 0 <= i < n ==> FourDown(DrawnCells(draws, at, anchor, n).0[i], anchor)
  {
    hide Descendant, FourDown;
    if n > 0 {
      DrawnCellsAreFourDown(draws, at, anchor, n - 1);
      DrawnIsFourDown(draws, DrawnCells(draws, at, anchor, n - 1).1, anchor);
    }
  }

  lemma {:induction false} CellsAroundAreDrawable(draws: nat -> nat, at: nat, anchor: Cell, maxCells: nat)
    ensures Drawable(CellsAround(draws, at, anchor, maxCells).0, anchor, maxCells, draws(at) % (maxCells + 1))
  {
    hide Descendant, FourDown;
    var n := draws(at) % (maxCells + 1);
    var (ids, mid) := DrawnCells(draws, at + 1, anchor, n);
    DrawnCellsAreFourDown(draws, at + 1, anchor, n);
    if n > 0 {
      var all, group := CellsAround(draws, at, anchor, maxCells).0, DrawnGroup(draws, mid, anchor).0;
      assert all[n..] == group;
      DrawnIsFourDown(draws, mid + 1, anchor);
      assert group != [] ==> GroupOf(group, Descendant(draws, mid + 1, anchor).0, anchor);
    }
  }

  /** The draws that give a list of descendants. */
  function DrawsForAll(u: seq<Cell>, anchor: Cell): seq<nat>
    requires forall i :: 0 <= i < |u| ==> anchor.level <= u[i].level
  {
    if u == [] then [] else DrawsForAll(u[..|u| - 1], anchor) + DrawsFor(u[|u| - 1], anchor)
  }

  lemma {:induction false} CellsPlayed(draws: nat -> nat, at: nat, anchor: Cell, u: seq<Cell>)
    requires forall i :: 0 <= i < |u| ==> anchor.level <= u[i].level && FourDown(u[i], anchor)
    requires Plays(draws, at, DrawsForAll(u, anchor))
    ensures DrawnCells(draws, at, anchor, |u|) == (u, at + |DrawsForAll(u, anchor)|)
  {
    hide *;
    AllClose(u, anchor);
    CellsStep(draws, at, anchor, u);
    if u != [] {
      var init, d := u[..|u| - 1], u[|u| - 1];
      PlaysParts(draws, at, DrawsForAll(init, anchor), DrawsFor(d, anchor));
      CellsPlayed(draws, at, anchor, init);
      DescendantPlayed(draws, at + |DrawsForAll(init, anchor)|, anchor, d);
      assert u == init + [d];
    }
  }

  lemma {:induction false} CellsStep(draws: nat -> nat, at: nat, anchor: Cell, u: seq<Cell>)
    requires forall i :: 0 <= i < |u| ==> anchor.level <= u[i].level
    ensures u == [] ==> DrawnCells(draws, at, anchor, |u|) == (u, at) && DrawsForAll(u, anchor) == []
    ensures u != [] ==>
      var (before, mid) := DrawnCells(draws, at, anchor, |u| - 1);
      var (c, end) := Descendant(draws, mid, anchor);
      DrawnCells(draws, at, anchor, |u|) == (before + [c], end)
    ensures u != [] ==> DrawsForAll(u, anchor) == DrawsForAll(u[..|u| - 1], anchor) + DrawsFor(u[|u| - 1], anchor)
  {
    hide Descendant, DrawsFor;
  }

  /** The numbers of a list, then ones for ever. */
  function Script(s: seq<nat>): nat -> nat {
    (i: nat) => if i < |s| then s[i] else 1
  }

  lemma {:induction false} ScriptPlays(s: seq<nat>)
    ensures Plays(Script(s), 0, s) && Script(s)(|s|) == 1
  {
    assert forall i: nat :: i < |s| ==> Script(s)(i) == s[i];
  }

  lemma AllClose(u: seq<Cell>, anchor: Cell)
    requires forall i :: 0 <= i < |u| ==> FourDown(u[i], anchor)
    ensures forall i :: 0 <= i < |u| ==> anchor.level <= u[i].level
  {
  }

  /** Every such list comes out for some draws. */
  lemma {:induction false} EveryDrawableIsDrawn(ids: seq<Cell>, anchor: Cell, maxCells: nat, n: nat) returns (draws: nat -> nat)
    requires Drawable(ids, anchor, maxCells, n)
    ensures CellsAround(draws, 0, anchor, maxCells).0 == ids
  {
    hide FourDown;
    if |ids| == n {
      assert ids[..n] == ids;
      draws := WithoutGroup(ids, anchor, maxCells);
    } else {
      var p: Cell :| GroupOf(ids[n..], p, anchor);
      assert ids == ids[..n] + Children(p);
      draws := WithGroup(ids[..n], p, anchor, maxCells);
    }
  }

  lemma {:induction false} WithoutGroup(u: seq<Cell>, anchor: Cell, maxCells: nat) returns (draws: nat -> nat)
    requires |u| <= maxCells && forall i :: 0 <= i < |u| ==> FourDown(u[i], anchor)
    ensures CellsAround(draws, 0, anchor, maxCells).0 == u
  {
    hide *;
    AllClose(u, anchor);
    var program := [|u|] + DrawsForAll(u, anchor);
    draws := Script(program);
    ScriptPlays(program);
    PlaysParts(draws, 0, [|u|], DrawsForAll(u, anchor));
    FirstPlayed(draws, 0, |u|);
    CellsPlayed(draws, 1, anchor, u);
    ComposeAround(draws, u, |program|, anchor, maxCells);
    NoGroup(draws, |program|, anchor);
    assert u + [] == u;
  }

  lemma {:induction false} WithGroup(u: seq<Cell>, p: Cell, anchor: Cell, maxCells: nat) returns (draws: nat -> nat)
    requires 0 < |u| <= maxCells && forall i :: 0 <= i < |u| ==> FourDown(u[i], anchor)
    requires FourDown(p, anchor) && !IsLeaf(p) && !IsLeaf(anchor)
    ensures CellsAround(draws, 0, anchor, maxCells).0 == u + Children(p)
  {
    hide *;
    AllClose(u, anchor);
    FourDownIsClose(p, anchor);
    var program := [|u|] + DrawsForAll(u, anchor);
    var group := [0] + DrawsFor(p, anchor);
    draws := Script(program + group);
    ScriptPlays(program + group);
    PlaysParts(draws, 0, program, group);
    PlaysParts(draws, 0, [|u|], DrawsForAll(u, anchor));
    PlaysParts(draws, |program|, [0], DrawsFor(p, anchor));
    FirstPlayed(draws, 0, |u|);
    CellsPlayed(draws, 1, anchor, u);
    FirstPlayed(draws, |program|, 0);
    DescendantPlayed(draws, |program| + 1, anchor, p);
    ComposeAround(draws, u, |program|, anchor, maxCells);
    WholeGroup(draws, |program|, p, anchor);
  }

  lemma {:induction false} ComposeAround(draws: nat -> nat, u: seq<Cell>, mid: nat, anchor: Cell, maxCells: nat)
    requires draws(0) == |u| <= maxCells && DrawnCells(draws, 1, anchor, |u|) == (u, mid)
    ensures CellsAround(draws, 0, anchor, maxCells).0 == if u == [] then u else u + DrawnGroup(draws, mid, anchor).0
  {
    hide DrawnCells, DrawnGroup;
    SmallMod(|u|, maxCells + 1);
  }

  lemma SmallMod(x: nat, m: nat)
    requires x < m
    ensures x % m == x
  {
  }

  lemma NoGroup(draws: nat -> nat, at: nat, anchor: Cell)
    requires draws(at) == 1
    ensures DrawnGroup(draws, at, anchor).0 == []
  {
  }

  lemma WholeGroup(draws: nat -> nat, at: nat, p: Cell, anchor: Cell)
    requires draws(at) == 0 && !IsLeaf(anchor) && !IsLeaf(p) && Descendant(draws, at + 1, anchor).0 == p
    ensures DrawnGroup(draws, at, anchor).0 == Children(p)
  {
    hide Descendant;
  }

  lemma FirstPlayed(draws: nat -> nat, at: nat, x: nat)
    requires Plays(draws, at, [x])
    ensures draws(at) == x
  {
  }

  // ----- anchors -----

  /** The cell of a level that holds a cell: `parent(level)`. */
  function AncestorAt(c: Cell, level: nat): (a: Cell)
    requires level <= c.level
    ensures a.level == level && Inside(c, a)
    decreases c.level
  {
    if c.level == level then c
    else
      ParentChild(c);
      AncestorAt(Parent(c), level)
  }

  /** The cell of a random point at a random level. */
  method RandAnchor(rng: Rng, minLevel: nat, maxLevel: nat) returns (anchor: Cell)
    requires minLevel <= maxLevel <= MAX_LEVEL
    modifies rng
    ensures rng.at == old(rng.at) + 1 && rng.points == old(rng.points) + 1
    ensures anchor.level == minLevel + rng.draws(old(rng.at)) % (maxLevel - minLevel + 1)
    ensures Inside(rng.leaves(old(rng.points)), anchor)
  {
    var draw := rng.Next();
    var level := minLevel + draw % (maxLevel - minLevel + 1);
    var leaf := rng.NextLeaf();
    anchor := AncestorAt(leaf, level);
  }

  /** However cells inside an anchor are merged or re-tiled, no cell grows past the anchor. */
  lemma NoCellOutgrowsAnchor(anchor: Cell, ids: seq<Cell>, u: seq<Cell>)
    requires forall i :: 0 <= i < |ids| ==> Inside(ids[i], anchor)
    requires SameCoverage(u, ids)
    ensures forall i :: 0 <= i < |u| ==> Below(u[i], anchor)
  {
    hide Lo, Hi, Pow4;
    forall i | 0 <= i < |u| ensures Below(u[i], anchor) {
      RangeOfId(u[i]);
      assert InCell(u[i], Lo(u[i])) && InCell(u[i], Hi(u[i]) - 1);
      assert Covers(ids, Lo(u[i])) && Covers(ids, Hi(u[i]) - 1);
      InsideLevel(u[i], anchor);
    }
  }

  /**
   One random DENORMALIZE row. Its anchor is at most two levels above the requested minimum, so
   every cell of the union is too, and the output stays within sixteen cells per input cell.
   */
  method RandomDenormalizeRow(rng: Rng)
    returns (anchor: Cell, u: seq<Cell>, minLevel: nat, levelMod: nat, out: seq<Cell>)
    modifies rng
    ensures minLevel == rng.draws(old(rng.at)) % 31 && levelMod == 1 + rng.draws(old(rng.at) + 1) % 3
    ensures Inside(rng.leaves(old(rng.points)), anchor) && minLevel <= anchor.level + 2
    ensures IsNormalized(u) && SameCoverage(u, CellsAround(rng.draws, old(rng.at) + 3, anchor, 6).0)
    ensures out == Expanded(u, minLevel, levelMod) && IsValid(out) && SameCoverage(out, u)
    ensures forall i :: 0 <= i < |u| ==> minLevel - u[i].level <= 2
    ensures forall i :: 0 <= i < |out| ==> Allowed(out[i].level, minLevel, levelMod)
    ensures |u| <= |out| <= 16 * |u|
  {
    hide Lo, Hi, Id, Width, Pow4, AreSiblings, Allowed, NewLevel, CellsAround, Inside, Covers, IsValid, Expanded;
    var draw := rng.Next();
    minLevel := draw % 31;
    draw := rng.Next();
    levelMod := 1 + draw % 3;
    anchor := RandAnchor(rng, if minLevel < 2 then 0 else minLevel - 2, MAX_LEVEL);
    var ids := RandCellsAround(rng, anchor, 6);
    CellsAroundAreInside(rng.draws, old(rng.at) + 3, anchor, 6);
    u := NormalizeCells(ids);
    NoCellOutgrowsAnchor(anchor, ids, u);
    out := DenormalizeCells(u, minLevel, levelMod);
    ExpandedKeepsRegion(u, minLevel, levelMod);
    ExpansionIsSmall(u, minLevel, levelMod);
  }

  lemma {:induction false} CellsAroundAreInside(draws: nat -> nat, at: nat, anchor: Cell, maxCells: nat)
    ensures var ids := CellsAround(draws, at, anchor, maxCells).0;
      forall i :: 0 <= i < |ids| ==> Inside(ids[i], anchor)
  {
    hide Lo, Hi, Pow4, CellsAround, Children;
    CellsAroundAreDrawable(draws, at, anchor, maxCells);
    var ids, n := CellsAround(draws, at, anchor, maxCells).0, draws(at) % (maxCells + 1);
    if |ids| > n {
      var p: Cell :| GroupOf(ids[n..], p, anchor);
      GroupIsInside(p, anchor);
      assert ids == ids[..n] + ids[n..];
    }
  }

  lemma GroupIsInside(p: Cell, anchor: Cell)
    requires Inside(p, anchor) && !IsLeaf(p)
    ensures forall k :: 0 <= k < 4 ==> Inside(Children(p)[k], anchor)
    ensures |Children(p)| == 4
  {
    hide Lo, Hi, Pow4;
    ChildRange(p, 0);
    ChildRange(p, 1);
    ChildRange(p, 2);
    ChildRange(p, 3);
  }
}
