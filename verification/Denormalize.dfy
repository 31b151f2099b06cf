/**
 `CellUnion::denormalize`: replacing each cell by its descendants at a coarser grid of levels.
 */
module Denormalize {
  import opened Cells
  import opened CellUnion
  import opened Normalize

  /** The level a cell is expanded to; `levelMod` is 1, 2 or 3. */
  function NewLevel(level: nat, minLevel: nat, levelMod: nat): nat
    requires 1 <= levelMod
  {
    if level < minLevel then minLevel
    else if levelMod > 1 then
      var offset := (level - minLevel) % levelMod;
      if offset > 0 then
        var rounded := level + (levelMod - offset);
        if rounded < MAX_LEVEL then rounded else MAX_LEVEL
      else level
    else level
  }

  /** The new level is the first allowed level at or below the cell: on the grid, or the last level. */
  ghost predicate Allowed(level: nat, minLevel: nat, levelMod: nat)
    requires 1 <= levelMod
  {
    level == MAX_LEVEL || (minLevel <= level < MAX_LEVEL && (level - minLevel) % levelMod == 0)
  }

  lemma NewLevelIsFirstAllowed(level: nat, minLevel: nat, levelMod: nat)
    requires level <= MAX_LEVEL && minLevel <= MAX_LEVEL && 1 <= levelMod <= 3
    ensures var n := NewLevel(level, minLevel, levelMod);
      && level <= n <= MAX_LEVEL && Allowed(n, minLevel, levelMod)
      && forall m :: level <= m < n ==> !Allowed(m, minLevel, levelMod)
  {
    if level >= minLevel {
      RoundUp(level - minLevel, levelMod);
    }
  }

  /** Rounding up to a multiple passes over none. */
  lemma RoundUp(d: nat, m: nat)
    requires 1 <= m <= 3
    ensures d % m > 0 ==> (d + (m - d % m)) % m == 0
    ensures d % m > 0 ==> forall j :: d <= j < d + (m - d % m) ==> j % m != 0
  {
    var q, r := d / m, d % m;
    assert d == m * q + r;
    if r > 0 {
      forall j | d <= j < d + (m - r) ensures j % m != 0 {
        Offset(q, m, j - d + r);
      }
      NextMultiple(q, m);
    }
  }

  lemma Offset(q: nat, m: nat, r: nat)
    requires 1 <= m <= 3 && r < m
    ensures (m * q + r) % m == r
  {
    if m == 1 {
    } else if m == 2 {
      assert (2 * q + r) % 2 == r;
    } else {
      assert (3 * q + r) % 3 == r;
    }
  }

  lemma NextMultiple(q: nat, m: nat)
    requires 1 <= m <= 3
    ensures (m * q + m) % m == 0
  {
    assert m * q + m == m * (q + 1) + 0;
    Offset(q + 1, m, 0);
  }

  // ----- descendants at a level -----

  function DescendantsAt(c: Cell, level: nat): (u: seq<Cell>)
    requires c.level <= level <= MAX_LEVEL
    decreases level - c.level
  {
    if level == c.level then [c]
    else
      DescendantsAt(Child(c, 0), level) + DescendantsAt(Child(c, 1), level)
      + DescendantsAt(Child(c, 2), level) + DescendantsAt(Child(c, 3), level)
  }

  /** A list of cells that tiles the leaves from `lo` up to `hi`. */
  ghost predicate Tiles(u: seq<Cell>, lo: int, hi: int) {
    && Ascending(u)
    && (forall i :: 0 <= i < |u| ==> lo <= Lo(u[i]) && Hi(u[i]) <= hi)
    && forall x :: lo <= x < hi ==> Covers(u, x)
  }

  lemma TilesConcat(u: seq<Cell>, v: seq<Cell>, lo: int, mid: int, hi: int)
    requires Tiles(u, lo, mid) && Tiles(v, mid, hi) && lo <= mid <= hi
    ensures Tiles(u + v, lo, hi)
  {
    hide Lo, Hi, Id, Width, Pow4;
    ConcatAscending(u, v, mid);
    forall x | lo <= x < hi ensures Covers(u + v, x) {
      CoversConcat(u, v, x);
    }
  }

  lemma {:induction false} DescendantsTile(c: Cell, level: nat)
    requires c.level <= level <= MAX_LEVEL
    ensures Tiles(DescendantsAt(c, level), Lo(c), Hi(c))
    ensures forall i :: 0 <= i < |DescendantsAt(c, level)| ==> DescendantsAt(c, level)[i].level == level
    decreases level - c.level
  {
    hide Lo, Hi, Id, Width, Pow4, Tiles;
    if level == c.level {
      OneTiles(c);
    } else {
      var c0, c1, c2, c3 := Child(c, 0), Child(c, 1), Child(c, 2), Child(c, 3);
      ChildrenCover(c);
      DescendantsTile(c0, level);
      DescendantsTile(c1, level);
      DescendantsTile(c2, level);
      DescendantsTile(c3, level);
      RangeOfId(c0);
      RangeOfId(c1);
      RangeOfId(c2);
      RangeOfId(c3);
      var d0, d1, d2, d3 := DescendantsAt(c0, level), DescendantsAt(c1, level), DescendantsAt(c2, level), DescendantsAt(c3, level);
      TilesConcat(d0, d1, Lo(c0), Hi(c0), Hi(c1));
      TilesConcat(d0 + d1, d2, Lo(c0), Hi(c1), Hi(c2));
      TilesConcat(d0 + d1 + d2, d3, Lo(c0), Hi(c2), Hi(c3));
    }
  }

  lemma OneTiles(c: Cell)
    ensures Tiles([c], Lo(c), Hi(c))
  {
    hide Lo, Hi;
    forall x | Lo(c) <= x < Hi(c) ensures Covers([c], x) {
      CoversOne(c, x);
    }
  }

  /** Neighbouring cells of one level, from a given index on. */
  ghost predicate Consecutive(u: seq<Cell>, level: nat, start: nat) {
    forall i :: 0 <= i < |u| ==> u[i].level == level && u[i].index == start + i
  }

  lemma ConsecutiveConcat(u: seq<Cell>, v: seq<Cell>, level: nat, start: nat)
    requires Consecutive(u, level, start) && Consecutive(v, level, start + |u|)
    ensures Consecutive(u + v, level, start)
  {
  }

  /** Along the curve the descendants are consecutive cells of their level. */
  lemma {:induction false} DescendantsAreConsecutive(c: Cell, level: nat)
    requires c.level <= level <= MAX_LEVEL
    ensures |DescendantsAt(c, level)| == Pow4(level - c.level)
    ensures Consecutive(DescendantsAt(c, level), level, c.index * Pow4(level - c.level))
    decreases level - c.level
  {
    hide Pow4, Consecutive;
    if level == c.level {
      OneIsConsecutive(c);
    } else {
      var w := Pow4(level - c.level - 1);
      PowStep(level - c.level);
      var c0, c1, c2, c3 := Child(c, 0), Child(c, 1), Child(c, 2), Child(c, 3);
      DescendantsAreConsecutive(c0, level);
      DescendantsAreConsecutive(c1, level);
      DescendantsAreConsecutive(c2, level);
      DescendantsAreConsecutive(c3, level);
      FourConsecutive(DescendantsAt(c0, level), DescendantsAt(c1, level), DescendantsAt(c2, level), DescendantsAt(c3, level),
        level, c.index, c0.index, c1.index, c2.index, c3.index, w);
    }
  }

  lemma FourConsecutive(d0: seq<Cell>, d1: seq<Cell>, d2: seq<Cell>, d3: seq<Cell>, level: nat,
                        i: nat, i0: nat, i1: nat, i2: nat, i3: nat, w: nat)
    requires |d0| == |d1| == |d2| == |d3| == w
    requires i0 == 4 * i && Consecutive(d0, level, i0 * w)
    requires i1 == 4 * i + 1 && Consecutive(d1, level, i1 * w)
    requires i2 == 4 * i + 2 && Consecutive(d2, level, i2 * w)
    requires i3 == 4 * i + 3 && Consecutive(d3, level, i3 * w)
    ensures Consecutive(d0 + d1 + d2 + d3, level, i * (4 * w))
  {
    hide Consecutive;
    SubGrid(i, 0, w);
    SubGrid(i, 1, w);
    SubGrid(i, 2, w);
    SubGrid(i, 3, w);
    var start := i * (4 * w);
    ConsecutiveConcat(d0, d1, level, start);
    ConsecutiveConcat(d0 + d1, d2, level, start);
    ConsecutiveConcat(d0 + d1 + d2, d3, level, start);
  }

  lemma OneIsConsecutive(c: Cell)
    ensures Pow4(0) == 1 && Consecutive([c], c.level, c.index * Pow4(0))
  {
  }

  lemma PowStep(k: nat)
    requires k > 0
    ensures Pow4(k) == 4 * Pow4(k - 1)
  {
  }

  // ----- the operation -----

  function Expanded(u: seq<Cell>, minLevel: nat, levelMod: nat): (v: seq<Cell>)
    requires minLevel <= MAX_LEVEL && 1 <= levelMod <= 3
  {
    if u == [] then []
    else
      var c := u[|u| - 1];
      NewLevelIsFirstAllowed(c.level, minLevel, levelMod);
      Expanded(u[..|u| - 1], minLevel, levelMod) + DescendantsAt(c, NewLevel(c.level, minLevel, levelMod))
  }

  method DenormalizeCells(u: seq<Cell>, minLevel: nat, levelMod: nat) returns (result: seq<Cell>)
    requires minLevel <= MAX_LEVEL && 1 <= levelMod <= 3
    ensures result == Expanded(u, minLevel, levelMod)
  {
    hide Pow4, NewLevel;
    result := [];
    for n := 0 to |u|
      invariant result == Expanded(u[..n], minLevel, levelMod)
    {
      var id := u[n];
      var newLevel := NewLevel(id.level, minLevel, levelMod);
      NewLevelIsFirstAllowed(id.level, minLevel, levelMod);
      if newLevel == id.level {
        result := result + [id];
      } else {
        var below := Descendants(id, newLevel);
        result := result + below;
      }
      assert u[..n + 1][..n] == u[..n] && u[..n + 1][n] == id;
    }
    assert u[..|u|] == u;
  }

  /** The inner loop: from the first descendant along the curve until just past the last. */
  method Descendants(id: Cell, newLevel: nat) returns (below: seq<Cell>)
    requires id.level <= newLevel <= MAX_LEVEL
    ensures below == DescendantsAt(id, newLevel)
  {
    hide Pow4, DescendantsAt;
    ghost var all := DescendantsAt(id, newLevel);
    DescendantsAreConsecutive(id, newLevel);
    var width := Pow4(newLevel - id.level);
    Grid(id.index, width);
    var begin := id.index * width;
    var child, end := CellId(newLevel, begin), CellId(newLevel, (id.index + 1) * width);
    below := [];
    while child != end
      invariant child.level == newLevel && begin <= child.index <= end.index
      invariant below == all[..child.index - begin]
      decreases end.index - child.index
    {
      ghost var next: Cell := all[child.index - begin];
      assert child == next;
      below := below + [child];
      child := CellId(newLevel, child.index + 1);
    }
  }

  /** Expansion keeps the region and the order, and puts every cell on the level grid. */
  lemma {:induction false} ExpandedKeepsRegion(u: seq<Cell>, minLevel: nat, levelMod: nat)
    requires minLevel <= MAX_LEVEL && 1 <= levelMod <= 3 && IsValid(u)
    ensures IsValid(Expanded(u, minLevel, levelMod))
    ensures SameCoverage(Expanded(u, minLevel, levelMod), u)
    ensures forall i :: 0 <= i < |Expanded(u, minLevel, levelMod)| ==>
              Allowed(Expanded(u, minLevel, levelMod)[i].level, minLevel, levelMod)
  {
    ExpandedTiles(u, minLevel, levelMod);
    ValidIsAscending(Expanded(u, minLevel, levelMod));
  }

  lemma {:induction false} ExpandedTiles(u: seq<Cell>, minLevel: nat, levelMod: nat)
    requires minLevel <= MAX_LEVEL && 1 <= levelMod <= 3 && IsValid(u)
    ensures Ascending(Expanded(u, minLevel, levelMod))
    ensures SameCoverage(Expanded(u, minLevel, levelMod), u)
    ensures EndsBy(Expanded(u, minLevel, levelMod), if u == [] then 0 else Hi(u[|u| - 1]))
    ensures forall i :: 0 <= i < |Expanded(u, minLevel, levelMod)| ==>
              Allowed(Expanded(u, minLevel, levelMod)[i].level, minLevel, levelMod)
  {
    hide *;
    if u == [] {
      NothingExpanded(minLevel, levelMod);
    } else {
      var init, c := u[..|u| - 1], u[|u| - 1];
      var n := NewLevel(c.level, minLevel, levelMod);
      NewLevelIsFirstAllowed(c.level, minLevel, levelMod);
      var head, tail := Expanded(init, minLevel, levelMod), DescendantsAt(c, n);
      LastApart(u);
      ExpandedTiles(init, minLevel, levelMod);
      DescendantsTile(c, n);
      ExpandedNext(u, minLevel, levelMod);
      EndsEarlier(head, if init == [] then 0 else Hi(init[|init| - 1]), Lo(c));
      AppendTiles(head, tail, init, c);
      assert init + [c] == u;
      assert forall i :: 0 <= i < |tail| ==> Allowed(tail[i].level, minLevel, levelMod);
    }
  }

  lemma {:induction false} NothingExpanded(minLevel: nat, levelMod: nat)
    requires minLevel <= MAX_LEVEL && 1 <= levelMod <= 3
    ensures Expanded([], minLevel, levelMod) == []
    ensures Ascending([]) && SameCoverage([], []) && EndsBy([], 0)
  {
  }

  lemma {:induction false} ExpandedNext(u: seq<Cell>, minLevel: nat, levelMod: nat)
    requires u != [] && minLevel <= MAX_LEVEL && 1 <= levelMod <= 3
    ensures var c := u[|u| - 1];
      && c.level <= NewLevel(c.level, minLevel, levelMod) <= MAX_LEVEL
      && Expanded(u, minLevel, levelMod)
         == Expanded(u[..|u| - 1], minLevel, levelMod) + DescendantsAt(c, NewLevel(c.level, minLevel, levelMod))
  {
    hide NewLevel, DescendantsAt, Pow4;
    NewLevelIsFirstAllowed(u[|u| - 1].level, minLevel, levelMod);
  }

  /** The last cell of a valid union lies after the others, which are valid without it. */
  lemma LastApart(u: seq<Cell>)
    requires u != [] && IsValid(u)
    ensures IsValid(u[..|u| - 1]) && 0 <= Lo(u[|u| - 1])
    ensures |u| > 1 ==> Hi(u[..|u| - 1][|u| - 2]) <= Lo(u[|u| - 1])
  {
    hide IsValid, Lo, Hi, Pow4;
    ValidIsAscending(u);
    LastBefore(u);
    ValidIsAscending(u[..|u| - 1]);
  }

  lemma EndsEarlier(u: seq<Cell>, end: int, later: int)
    requires EndsBy(u, end) && end <= later
    ensures EndsBy(u, later)
  {
  }

  lemma LastBefore(u: seq<Cell>)
    requires u != [] && Ascending(u)
    ensures Ascending(u[..|u| - 1])
    ensures |u| > 1 ==> Hi(u[|u| - 2]) <= Lo(u[|u| - 1])
  {
  }

  ghost predicate EndsBy(u: seq<Cell>, end: int) {
    forall i :: 0 <= i < |u| ==> Hi(u[i]) <= end
  }

  lemma AppendTiles(head: seq<Cell>, tail: seq<Cell>, init: seq<Cell>, c: Cell)
    requires Ascending(head) && SameCoverage(head, init) && EndsBy(head, Lo(c))
    requires Tiles(tail, Lo(c), Hi(c))
    ensures Ascending(head + tail) && SameCoverage(head + tail, init + [c]) && EndsBy(head + tail, Hi(c))
  {
    hide Lo, Hi, Id, Width, Pow4;
    RangeOfId(c);
    ConcatAscending(head, tail, Lo(c));
    forall x ensures Covers(head + tail, x) <==> Covers(init + [c], x) {
      CoversConcat(head, tail, x);
      CoversConcat(init, [c], x);
      CoversOne(c, x);
    }
  }

  lemma {:induction false} SmallPowers(k: nat)
    requires k <= 2
    ensures 1 <= Pow4(k) <= 16
  {
    assert Pow4(0) == 1 && Pow4(1) == 4 && Pow4(2) == 16;
  }

  /** The size of an expansion, when no cell is more than two levels above the grid's start. */
  lemma {:induction false} ExpansionIsSmall(u: seq<Cell>, minLevel: nat, levelMod: nat)
    requires minLevel <= MAX_LEVEL && 1 <= levelMod <= 3
    requires forall i :: 0 <= i < |u| ==> minLevel <= u[i].level + 2
    ensures |u| <= |Expanded(u, minLevel, levelMod)| <= 16 * |u|
  {
    hide *;
    if u == [] {
      NothingExpanded(minLevel, levelMod);
    } else {
      var c := u[|u| - 1];
      var n := NewLevel(c.level, minLevel, levelMod);
      NewLevelIsFirstAllowed(c.level, minLevel, levelMod);
      NewLevelIsNear(c.level, minLevel, levelMod);
      DescendantsAreConsecutive(c, n);
      SmallPowers(n - c.level);
      ExpandedNext(u, minLevel, levelMod);
      ExpansionIsSmall(u[..|u| - 1], minLevel, levelMod);
    }
  }

  lemma NewLevelIsNear(level: nat, minLevel: nat, levelMod: nat)
    requires level <= MAX_LEVEL && minLevel <= level + 2 && 1 <= levelMod <= 3
    ensures NewLevel(level, minLevel, levelMod) <= level + 2
  {
  }
}
