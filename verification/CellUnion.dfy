/**
 Cell unions: validity, the normal form of a set of leaves, and that it is unique.
 */
module CellUnion {
  import opened Cells

  /** Whether some cell of `u` holds leaf `x`: what a union means as a region. */
  ghost predicate Covers(u: seq<Cell>, x: int) {
    exists i :: 0 <= i < |u| && InCell(u[i], x)
  }

  ghost predicate SameCoverage(u: seq<Cell>, v: seq<Cell>) {
    forall x :: Covers(u, x) <==> Covers(v, x)
  }

  /** Sorted, and no two cells overlap; only neighbours are compared. */
  predicate IsValid(u: seq<Cell>) {
    forall i :: 1 <= i < |u| ==> Id(u[i - 1]) < Id(u[i]) && RangeMax(u[i - 1]) < RangeMin(u[i])
  }

  /** The library's bit test: the ids agree outside the child position, and the positions cancel. */
  predicate AreSiblings(a: Cell, b: Cell, c: Cell, d: Cell) {
    && a.level == d.level && b.level == d.level && c.level == d.level && d.level > 0
    && a.index / 4 == d.index / 4 && b.index / 4 == d.index / 4 && c.index / 4 == d.index / 4
    && Xor(Xor(a.index % 4, b.index % 4), c.index % 4) == d.index % 4
  }

  /** Exclusive or of two child positions, which are two bits each. */
  function Xor(p: nat, q: nat): nat {
    (if (p >= 2) == (q >= 2) then 0 else 2) + (if p % 2 == q % 2 then 0 else 1)
  }

  predicate SiblingsAt(u: seq<Cell>, i: nat) {
    i + 3 < |u| && AreSiblings(u[i], u[i + 1], u[i + 2], u[i + 3])
  }

  predicate IsNormalized(u: seq<Cell>) {
    IsValid(u) && forall i: nat | i < |u| :: !SiblingsAt(u, i)
  }

  // ----- validity by leaf ranges -----

  /** The cells' leaf ranges follow one another. */
  ghost predicate Ascending(u: seq<Cell>) {
    forall i, j :: 0 <= i < j < |u| ==> Hi(u[i]) <= Lo(u[j])
  }

  lemma NeighbourRanges(a: Cell, b: Cell)
    ensures Id(a) < Id(b) && RangeMax(a) < RangeMin(b) <==> Hi(a) <= Lo(b)
  {
    RangeOfId(a);
    RangeOfId(b);
  }

  lemma {:induction false} ValidIsAscending(u: seq<Cell>)
    ensures IsValid(u) <==> Ascending(u)
  {
    forall i | 1 <= i < |u|
      ensures Id(u[i - 1]) < Id(u[i]) && RangeMax(u[i - 1]) < RangeMin(u[i]) <==> Hi(u[i - 1]) <= Lo(u[i])
    {
      NeighbourRanges(u[i - 1], u[i]);
    }
    if IsValid(u) {
      forall i, j | 0 <= i < j < |u| ensures Hi(u[i]) <= Lo(u[j]) {
        AscendingChain(u, i, j);
      }
    }
  }

  lemma {:induction false} AscendingChain(u: seq<Cell>, i: nat, j: nat)
    requires i < j < |u|
    requires forall k :: 1 <= k < |u| ==> Hi(u[k - 1]) <= Lo(u[k])
    ensures Hi(u[i]) <= Lo(u[j])
  {
    if i < j - 1 {
      AscendingChain(u, i, j - 1);
      RangeOfId(u[j - 1]);
    }
  }

  /** In ascending order the bit test accepts exactly the four children of one cell, in order. */
  lemma SiblingsAreChildren(a: Cell, b: Cell, c: Cell, d: Cell)
    requires Hi(a) <= Lo(b) && Hi(b) <= Lo(c) && Hi(c) <= Lo(d)
    ensures AreSiblings(a, b, c, d) <==> d.level > 0 && [a, b, c, d] == Children(Parent(d))
  {
    if AreSiblings(a, b, c, d) {
      PositionsFollow(a, b);
      PositionsFollow(b, c);
      PositionsFollow(c, d);
      assert a == Child(Parent(d), 0) && b == Child(Parent(d), 1) && c == Child(Parent(d), 2) && d == Child(Parent(d), 3);
    }
    if d.level > 0 && [a, b, c, d] == Children(Parent(d)) {
      ChildrenAreSiblings(Parent(d), a, b, c, d);
    }
  }

  lemma PositionsFollow(a: Cell, b: Cell)
    requires a.level == b.level && a.index / 4 == b.index / 4 && Hi(a) <= Lo(b)
    ensures a.index % 4 < b.index % 4
  {
    RangeOfId(a);
    RangeOfId(b);
    if b.index < a.index {
      GridOrder(b.index, a.index, Width(a));
    }
    assert a.index < b.index;
  }

  lemma ChildrenAreSiblings(p: Cell, a: Cell, b: Cell, c: Cell, d: Cell)
    requires !IsLeaf(p) && a == Child(p, 0) && b == Child(p, 1) && c == Child(p, 2) && d == Child(p, 3)
    ensures AreSiblings(a, b, c, d)
  {
    hide Pow4;
    Digits(p.index, 0);
    Digits(p.index, 1);
    Digits(p.index, 2);
    Digits(p.index, 3);
    assert Xor(Xor(0, 1), 2) == 3;
  }

  lemma Digits(i: nat, k: nat)
    requires k < 4
    ensures (4 * i + k) / 4 == i && (4 * i + k) % 4 == k
  {
  }

  function Children(p: Cell): (u: seq<Cell>)
    requires !IsLeaf(p)
  {
    [Child(p, 0), Child(p, 1), Child(p, 2), Child(p, 3)]
  }

  lemma ChildrenCover(p: Cell)
    requires !IsLeaf(p)
    ensures Ascending(Children(p))
    ensures forall x :: Covers(Children(p), x) <==> InCell(p, x)
    ensures Hi(Child(p, 0)) == Lo(Child(p, 1)) && Hi(Child(p, 1)) == Lo(Child(p, 2)) && Hi(Child(p, 2)) == Lo(Child(p, 3))
    ensures Lo(Child(p, 0)) == Lo(p) && Hi(Child(p, 3)) == Hi(p)
  {
    hide Lo, Hi, Id, Pow4, Width, Ascending, Covers;
    ChildSeams(p);
    var u := Children(p);
    var s := [Lo(p), Hi(u[0]), Hi(u[1]), Hi(u[2]), Hi(p)];
    assert forall k :: 0 <= k < 4 ==> Lo(u[k]) == s[k] && Hi(u[k]) == s[k + 1] && s[k] <= s[k + 1];
    Pieces(s, u);
  }

  lemma ChildSeams(p: Cell)
    requires !IsLeaf(p)
    ensures Lo(p) == Lo(Child(p, 0)) <= Hi(Child(p, 0)) == Lo(Child(p, 1)) <= Hi(Child(p, 1)) == Lo(Child(p, 2))
    ensures Lo(Child(p, 2)) <= Hi(Child(p, 2)) == Lo(Child(p, 3)) <= Hi(Child(p, 3)) == Hi(p)
  {
    hide Lo, Hi, Id, Pow4, Width, Inside;
    ChildRange(p, 0);
    ChildRange(p, 1);
    ChildRange(p, 2);
    ChildRange(p, 3);
    WidthOfLevel(p, Child(p, 0));
    WidthOfLevel(p, Child(p, 1));
    WidthOfLevel(p, Child(p, 2));
    WidthOfLevel(p, Child(p, 3));
  }

  /** Cells laid end to end between consecutive seams cover what lies between the outer seams. */
  lemma Pieces(s: seq<int>, u: seq<Cell>)
    requires |s| == 5 && |u| == 4
    requires forall k :: 0 <= k < 4 ==> Lo(u[k]) == s[k] && Hi(u[k]) == s[k + 1] && s[k] <= s[k + 1]
    ensures Ascending(u)
    ensures forall x :: Covers(u, x) <==> s[0] <= x < s[4]
  {
    assert s[0] <= s[1] <= s[2] <= s[3] <= s[4];
    forall x ensures Covers(u, x) <==> s[0] <= x < s[4] {
      if s[0] <= x < s[4] {
        var k := if x < s[1] then 0 else if x < s[2] then 1 else if x < s[3] then 2 else 3;
        assert InCell(u[k], x);
      }
    }
  }

  // ----- uniqueness of the normal form -----

  ghost predicate Full(u: seq<Cell>, q: Cell) {
    forall x :: InCell(q, x) ==> Covers(u, x)
  }

  /** A covered cell of a normalised union lies inside a single member. */
  lemma {:induction false} Holder(u: seq<Cell>, q: Cell) returns (i: nat)
    requires IsNormalized(u) && Full(u, q)
    ensures i < |u| && Inside(q, u[i])
    decreases MAX_LEVEL - q.level
  {
    ValidIsAscending(u);
    RangeOfId(q);
    if IsLeaf(q) {
      assert InCell(q, Lo(q));
      i :| 0 <= i < |u| && InCell(u[i], Lo(q));
      Overlapping(u[i], q, Lo(q));
    } else {
      var i0 := ChildHolder(u, q, 0);
      var i1 := ChildHolder(u, q, 1);
      var i2 := ChildHolder(u, q, 2);
      var i3 := ChildHolder(u, q, 3);
      if u[i0] != Child(q, 0) {
        i := HoldsParent(u, q, 0, i0);
      } else if u[i1] != Child(q, 1) {
        i := HoldsParent(u, q, 1, i1);
      } else if u[i2] != Child(q, 2) {
        i := HoldsParent(u, q, 2, i2);
      } else if u[i3] != Child(q, 3) {
        i := HoldsParent(u, q, 3, i3);
      } else {
        ChildrenStandTogether(u, q, i0, i1, i2, i3);
        assert false;
      }
    }
  }

  lemma ChildrenStandTogether(u: seq<Cell>, q: Cell, i0: nat, i1: nat, i2: nat, i3: nat)
    requires Ascending(u) && !IsLeaf(q)
    requires i0 < |u| && i1 < |u| && i2 < |u| && i3 < |u|
    requires u[i0] == Child(q, 0) && u[i1] == Child(q, 1) && u[i2] == Child(q, 2) && u[i3] == Child(q, 3)
    ensures SiblingsAt(u, i0)
  {
    hide Lo, Hi, Id, Width, Pow4, AreSiblings;
    ChildrenCover(q);
    Adjacent(u, i0, i1);
    Adjacent(u, i1, i2);
    Adjacent(u, i2, i3);
    ChildrenAreSiblings(q, u[i0], u[i0 + 1], u[i0 + 2], u[i0 + 3]);
  }

  lemma {:induction false} ChildHolder(u: seq<Cell>, q: Cell, k: nat) returns (i: nat)
    requires IsNormalized(u) && Full(u, q) && !IsLeaf(q) && k < 4
    ensures i < |u| && Inside(Child(q, k), u[i])
    decreases MAX_LEVEL - q.level, 0
  {
    ChildRange(q, k);
    forall x | InCell(Child(q, k), x) ensures Covers(u, x) {
      assert InCell(q, x);
    }
    i := Holder(u, Child(q, k));
  }

  /** A member that strictly holds a child of `q` holds `q`. */
  lemma HoldsParent(u: seq<Cell>, q: Cell, k: nat, j: nat) returns (i: nat)
    requires !IsLeaf(q) && k < 4 && j < |u| && Inside(Child(q, k), u[j]) && u[j] != Child(q, k)
    ensures i < |u| && Inside(q, u[i])
  {
    i := j;
    InsideLevel(Child(q, k), u[j]);
    ChildRange(q, k);
    RangeOfId(Child(q, k));
    assert InCell(q, Lo(Child(q, k)));
    Overlapping(u[j], q, Lo(Child(q, k)));
  }

  /** Members whose ranges touch are neighbours in the list. */
  lemma Adjacent(u: seq<Cell>, i: nat, j: nat)
    requires Ascending(u) && i < |u| && j < |u| && Hi(u[i]) == Lo(u[j])
    ensures j == i + 1
  {
    RangeOfId(u[i]);
    RangeOfId(u[j]);
    if i + 1 < j {
      RangeOfId(u[i + 1]);
    }
  }

  /** No member of an ascending list lies inside another, so none has its parent inside one. */
  lemma NotTwoHolders(u: seq<Cell>, m: nat, i: nat)
    requires Ascending(u) && m < |u| && i < |u| && u[m].level > 0
    ensures !Inside(Parent(u[m]), u[i])
  {
    hide Lo, Hi, Id, Width, Pow4;
    ParentChild(u[m]);
    RangeOfId(u[m]);
    if Inside(Parent(u[m]), u[i]) {
      InsideLevel(Parent(u[m]), u[i]);
    }
  }

  lemma StrictHolderHoldsParent(u: seq<Cell>, c: Cell, i: nat)
    requires i < |u| && Inside(c, u[i]) && u[i] != c
    ensures c.level > 0 && Full(u, Parent(c))
  {
    hide Lo, Hi, Id, Width, Pow4;
    InsideLevel(c, u[i]);
    ParentChild(c);
    RangeOfId(c);
    Overlapping(u[i], Parent(c), Lo(c));
  }

  /** The members of a normalised union are the maximal cells of its region. */
  lemma MemberIffMaximal(u: seq<Cell>, c: Cell)
    requires IsNormalized(u)
    ensures c in u <==> Full(u, c) && (c.level > 0 ==> !Full(u, Parent(c)))
  {
    hide Lo, Hi, Id, Width, Pow4;
    ValidIsAscending(u);
    if c in u {
      var m :| 0 <= m < |u| && u[m] == c;
      if c.level > 0 && Full(u, Parent(c)) {
        var i := Holder(u, Parent(c));
        NotTwoHolders(u, m, i);
        assert false;
      }
    }
    if Full(u, c) && (c.level > 0 ==> !Full(u, Parent(c))) {
      var i := Holder(u, c);
      if u[i] != c {
        StrictHolderHoldsParent(u, c, i);
        assert false;
      }
    }
  }

  /** An ascending list is determined by its members. */
  lemma {:induction false} AscendingUnique(u: seq<Cell>, v: seq<Cell>)
    requires Ascending(u) && Ascending(v)
    requires forall c: Cell :: c in u <==> c in v
    ensures u == v
  {
    assert u != [] ==> u[0] in v;
    assert v != [] ==> v[0] in u;
    if u != [] {
      FirstIsLeast(u, v);
      FirstIsLeast(v, u);
      RangeOfId(u[0]);
      RangeOfId(v[0]);
      Grid(u[0].index, Width(u[0]));
      assert u[0] == v[0] by {
        assert u[0] in v && v[0] in u;
        var j :| 0 <= j < |v| && v[j] == u[0];
      }
      forall c: Cell ensures c in u[1..] <==> c in v[1..] {
        TailMember(u, c);
        TailMember(v, c);
      }
      AscendingUnique(u[1..], v[1..]);
    }
  }

  lemma FirstIsLeast(u: seq<Cell>, v: seq<Cell>)
    requires Ascending(u) && u != [] && v != []
    requires forall c: Cell :: c in v ==> c in u
    ensures Lo(u[0]) <= Lo(v[0])
  {
    assert v[0] in u;
    RangeOfId(u[0]);
  }

  lemma TailMember(u: seq<Cell>, c: Cell)
    requires Ascending(u) && u != []
    ensures c in u[1..] <==> c in u && c != u[0]
  {
    if c in u[1..] {
      var j :| 0 <= j < |u[1..]| && u[1..][j] == c;
      RangeOfId(u[0]);
      assert Hi(u[0]) <= Lo(u[j + 1]);
    }
  }

  /** Two normalised unions of the same region are the same list of cells. */
  lemma NormalFormUnique(u: seq<Cell>, v: seq<Cell>)
    requires IsNormalized(u) && IsNormalized(v)
    ensures u == v <==> SameCoverage(u, v)
  {
    if SameCoverage(u, v) {
      ValidIsAscending(u);
      ValidIsAscending(v);
      forall c: Cell ensures c in u <==> c in v {
        MemberIffMaximal(u, c);
        MemberIffMaximal(v, c);
        assert Full(u, c) <==> Full(v, c);
        if c.level > 0 {
          assert Full(u, Parent(c)) <==> Full(v, Parent(c));
        }
      }
      AscendingUnique(u, v);
    }
  }
}
