/**
 The cells of the S2 hierarchy. A cell is a node of one of six quadtrees: its level and its
 index among the cells of that level along the Hilbert curve. `Id` is the 64-bit number the
 library stores; leaves are numbered along the whole curve, and a cell stands for a range of them.
 */
module Cells {
  const MAX_LEVEL: nat := 30

  function Pow4(k: nat): (w: nat)
    ensures w >= 1
  {
    if k == 0 then 1 else 4 * Pow4(k - 1)
  }

  datatype CellId = CellId(level: nat, index: nat)

  type Cell = c: CellId | c.level <= MAX_LEVEL && c.index < 6 * Pow4(c.level) witness CellId(0, 0)

  /** The number of leaves below a cell; also the lowest set bit of its id. */
  function Width(c: Cell): (w: nat)
    ensures w >= 1
  {
    Pow4(MAX_LEVEL - c.level)
  }

  function Id(c: Cell): nat {
    Grid(c.index, Width(c));
    (2 * c.index + 1) * Width(c)
  }

  function RangeMin(c: Cell): int {
    Id(c) - (Width(c) - 1)
  }

  function RangeMax(c: Cell): int {
    Id(c) + (Width(c) - 1)
  }

  predicate IsLeaf(c: Cell) {
    c.level == MAX_LEVEL
  }

  function Child(c: Cell, k: nat): Cell
    requires !IsLeaf(c) && k < 4
  {
    CellId(c.level + 1, 4 * c.index + k)
  }

  function Parent(c: Cell): Cell
    requires c.level > 0
  {
    CellId(c.level - 1, c.index / 4)
  }

  /** `contains` as the library tests it: the other id lies in this cell's range of ids. */
  predicate Contains(c: Cell, other: Cell) {
    RangeMin(c) <= Id(other) <= RangeMax(c)
  }

  // ----- leaf ranges -----

  /** The first leaf below `c`, and the first one after those below `c`. */
  function Lo(c: Cell): nat {
    c.index * Width(c)
  }

  function Hi(c: Cell): nat {
    (c.index + 1) * Width(c)
  }

  predicate InCell(c: Cell, x: int) {
    Lo(c) <= x < Hi(c)
  }

  predicate Inside(inner: Cell, outer: Cell) {
    Lo(outer) <= Lo(inner) && Hi(inner) <= Hi(outer)
  }

  lemma Grid(i: nat, w: nat)
    ensures (i + 1) * w == i * w + w
    ensures (2 * i + 1) * w == i * w + (i + 1) * w
  {
  }

  lemma SubGrid(i: nat, k: nat, w: nat)
    requires k < 4
    ensures (4 * i + k) * w == i * (4 * w) + k * w
    ensures (4 * i + k + 1) * w == i * (4 * w) + (k + 1) * w
    ensures 0 <= k * w && (k + 1) * w <= 4 * w
  {
  }

  lemma GridOrder(i: nat, j: nat, w: nat)
    requires i < j
    ensures (i + 1) * w <= j * w
  {
  }

  lemma RangeOfId(c: Cell)
    ensures Hi(c) == Lo(c) + Width(c)
    ensures Id(c) == Lo(c) + Hi(c)
    ensures RangeMin(c) == 2 * Lo(c) + 1 && RangeMax(c) == 2 * Hi(c) - 1
  {
    Grid(c.index, Width(c));
  }

  lemma WidthOfLevel(c: Cell, d: Cell)
    requires d.level == c.level + 1
    ensures Width(c) == 4 * Width(d)
  {
  }

  /** The four children split a cell's leaves in order. */
  lemma ChildRange(c: Cell, k: nat)
    requires !IsLeaf(c) && k < 4
    ensures Lo(Child(c, k)) == Lo(c) + k * Width(Child(c, k))
    ensures Hi(Child(c, k)) == Lo(c) + (k + 1) * Width(Child(c, k))
    ensures Hi(c) == Lo(c) + 4 * Width(Child(c, k))
    ensures Inside(Child(c, k), c)
  {
    var d := Child(c, k);
    WidthOfLevel(c, d);
    RangeOfId(c);
    SubGrid(c.index, k, Width(d));
  }

  lemma ParentChild(c: Cell)
    requires c.level > 0
    ensures c == Child(Parent(c), c.index % 4)
    ensures Inside(c, Parent(c))
  {
    ChildRange(Parent(c), c.index % 4);
  }

  /** The cells form a laminar family: a deeper cell lies inside a shallower one or beside it. */
  lemma {:induction false} NestedOrApart(a: Cell, b: Cell)
    requires a.level <= b.level
    ensures Inside(b, a) || Hi(b) <= Lo(a) || Hi(a) <= Lo(b)
    ensures a.level == b.level && a != b ==> Hi(b) <= Lo(a) || Hi(a) <= Lo(b)
    decreases b.level
  {
    if a.level == b.level {
      if a.index < b.index {
        GridOrder(a.index, b.index, Width(a));
      } else if b.index < a.index {
        GridOrder(b.index, a.index, Width(a));
      }
    } else {
      ParentChild(b);
      NestedOrApart(a, Parent(b));
    }
  }

  /** Cells that share a leaf are nested, the deeper one inside. */
  lemma Overlapping(a: Cell, b: Cell, x: int)
    requires InCell(a, x) && InCell(b, x)
    ensures a.level <= b.level ==> Inside(b, a)
    ensures a.level == b.level ==> a == b
  {
    if a.level <= b.level {
      NestedOrApart(a, b);
    }
  }

  lemma {:induction false} WiderIsShallower(a: Cell, b: Cell)
    requires a.level < b.level
    ensures Width(b) < Width(a)
    decreases b.level
  {
    var p := Parent(b);
    WidthOfLevel(p, b);
    if a.level < p.level {
      WiderIsShallower(a, p);
    }
  }

  lemma InsideLevel(inner: Cell, outer: Cell)
    requires Inside(inner, outer)
    ensures outer.level <= inner.level
    ensures outer.level == inner.level ==> outer == inner
  {
    RangeOfId(inner);
    RangeOfId(outer);
    if inner.level < outer.level {
      WiderIsShallower(inner, outer);
    }
    Overlapping(inner, outer, Lo(inner));
  }

  /** The library's comparison of ids decides exactly whether one leaf range includes the other. */
  lemma ContainsIsInside(c: Cell, other: Cell)
    ensures Contains(c, other) <==> Inside(other, c)
  {
    RangeOfId(c);
    RangeOfId(other);
    if c.level <= other.level {
      NestedOrApart(c, other);
    } else {
      // The id of a shallower cell is the seam between its second and third child.
      WiderIsShallower(other, c);
      ChildRange(other, 2);
      NestedOrApart(Child(other, 2), c);
    }
  }
}
