/**
 The arithmetic on 64-bit ids behind the cells: children, parents, neighbours and the sibling test
 are computed on the numbers, and agree with the cells they stand for.
 */
module CellBits {
  import opened Cells
  import opened CellUnion
  import opened Denormalize
  import opened Division

  // ----- ids -----

  /** Every id is a positive 64-bit number. */
  lemma IdFits(c: Cell)
    ensures 0 < Id(c) < 13835058055282163712
  {
    hide Pow4;
    CoarserIsMultiple(c.level, MAX_LEVEL);
    RangeOfId(c);
    GridBelow(c.index, 6 * Pow4(c.level), Width(c));
    FacesEnd();
  }

  /** A face's id is its number and a one in the bits below; a leaf's is odd. */
  lemma FaceAndLeafIds(c: Cell)
    ensures c.level == 0 ==> c.index < 6 && Id(c) == c.index * 2305843009213693952 + 1152921504606846976
    ensures c.level == 30 <==> Id(c) % 2 == 1
    ensures c.level == 30 ==> Id(c) == 2 * c.index + 1
  {
    hide Pow4;
    FacesEnd();
    assert Pow4(0) == 1 by { FirstPowers(); }
    if c.level < 30 {
      WidthOfLevel(c, Child(c, 0));
      EvenId(c.index, Width(Child(c, 0)));
    }
  }

  lemma FirstPowers()
    ensures Pow4(0) == 1 && Pow4(1) == 4
  {
  }

  lemma EvenId(i: nat, w: nat)
    ensures (2 * i + 1) * (4 * w) == 2 * ((2 * i + 1) * (2 * w))
  {
  }

  /** A cell is determined by its id. */
  lemma IdIsInjective(a: Cell, b: Cell)
    ensures Id(a) == Id(b) <==> a == b
  {
    hide Lo, Hi, Width, Pow4;
    if Id(a) == Id(b) {
      RangeOfId(a);
      RangeOfId(b);
      ContainsIsInside(a, b);
      ContainsIsInside(b, a);
      InsideLevel(a, b);
      InsideLevel(b, a);
    }
  }

  lemma Shuffle(a: nat, b: nat)
    ensures 4 * a * b == a * (4 * b)
  {
  }

  lemma GridBelow(i: nat, n: nat, w: nat)
    requires i < n
    ensures i * w + w <= n * w
  {
    assert (i + 1) * w <= n * w;
  }

  lemma FacesEnd()
    ensures Pow4(MAX_LEVEL) == 1152921504606846976
  {
    assert Pow4(4) == 256;
    assert Pow4(8) == 65536;
    assert Pow4(12) == 16777216;
    assert Pow4(16) == 4294967296;
    assert Pow4(20) == 1099511627776;
    assert Pow4(24) == 281474976710656;
    assert Pow4(28) == 72057594037927936;
  }

  /** An id as its odd factor times its marker. */
  function OddTimes(i: nat, w: nat): nat {
    (2 * i + 1) * w
  }

  lemma IdIsOddTimes(c: Cell)
    ensures Id(c) == OddTimes(c.index, Width(c))
  {
    hide Pow4, Width;
  }

  /** `children`: the first child's id, and the step to the next. */
  lemma ChildId(c: Cell, k: nat)
    requires !IsLeaf(c) && k < 4
    ensures var oldLsb, newLsb := Width(c), Width(c) / 4;
      Id(Child(c, k)) == Id(c) - oldLsb + newLsb + k * (2 * newLsb)
  {
    hide Pow4, Width, OddTimes, Id;
    WidthOfLevel(c, Child(c, k));
    IdIsOddTimes(c);
    IdIsOddTimes(Child(c, k));
    ChildArithmetic(c.index, k, Width(Child(c, k)));
  }

  lemma ChildArithmetic(i: nat, k: nat, w: nat)
    ensures OddTimes(4 * i + k, w) == OddTimes(i, 4 * w) - 4 * w + w + k * (2 * w)
    ensures 4 * w / 4 == w
  {
    assert (2 * (4 * i + k) + 1) * w == 8 * (i * w) + 2 * (k * w) + w;
    assert (2 * i + 1) * (4 * w) == 8 * (i * w) + 4 * w;
    assert k * (2 * w) == 2 * (k * w);
  }

  /** An id, split at the two bits of its child position: the parent's index, the position, the marker. */
  lemma IdSplit(c: Cell)
    ensures Id(c) == 8 * (Width(c) * (c.index / 4)) + 2 * (Width(c) * (c.index % 4)) + Width(c)
  {
    var w, q, r := Width(c), c.index / 4, c.index % 4;
    assert c.index == 4 * q + r;
    hide Pow4, Width;
    Expand(w, q, r);
  }

  lemma Expand(w: nat, q: nat, r: nat)
    ensures (2 * (4 * q + r) + 1) * w == 8 * (w * q) + 2 * (w * r) + w
  {
  }

  /** `parent`: the bits below the new marker are cleared and the marker is set. */
  lemma ParentId(c: Cell)
    requires c.level > 0
    ensures var nlsb := 4 * Width(c);
      Id(Parent(c)) == 2 * nlsb * (Id(c) / (2 * nlsb)) + nlsb
  {
    WidthOfLevel(Parent(c), c);
    IdSplit(c);
    var w, q := Width(c), c.index / 4;
    assert Id(Parent(c)) == (2 * q + 1) * (4 * w);
    hide Pow4, Width, Id;
    ParentArithmetic(Id(c), w, q, c.index % 4);
  }

  lemma ParentArithmetic(x: nat, w: nat, q: nat, r: nat)
    requires w > 0 && r < 4 && x == 8 * (w * q) + 2 * (w * r) + w
    ensures (2 * q + 1) * (4 * w) == 2 * (4 * w) * (x / (2 * (4 * w))) + 4 * w
  {
    Position(w, r);
    assert 8 * (w * q) == 8 * w * q;
    DivModIs(x, 8 * w, q, 2 * (w * r) + w);
    assert (2 * q + 1) * (4 * w) == 8 * w * q + 4 * w;
  }

  lemma Position(w: nat, r: nat)
    requires r < 4
    ensures w * r <= 3 * w
  {
  }

  /** `next`: the neighbour along the curve is two markers on. */
  lemma NextId(c: Cell, d: Cell)
    requires d.level == c.level && d.index == c.index + 1
    ensures Id(d) == Id(c) + 2 * Width(c)
  {
    hide Pow4;
    Neighbour(c.index, Width(c));
  }

  lemma Neighbour(i: nat, w: nat)
    ensures (2 * (i + 1) + 1) * w == (2 * i + 1) * w + 2 * w
  {
  }

  /** A cell `p` times as wide, and the ends of its descendants on the finer grid. */
  lemma GridEnds(i: nat, p: nat, w: nat, wide: nat)
    requires p > 0 && wide == p * w
    ensures OddTimes(i * p, w) == OddTimes(i, wide) - wide + w
    ensures OddTimes(i * p + (p - 1), w) + 2 * w == OddTimes(i, wide) + wide + w
  {
    var x := i * wide;
    RegroupProduct(i, p, w, wide);
    assert OddTimes(i, wide) == 2 * x + wide;
    assert OddTimes(i * p, w) == 2 * x + w;
    AddedProduct(i * p, p - 1, w);
    AddedProduct(0, p - 1, w);
    assert p * w == (p - 1) * w + w;
  }

  lemma RegroupProduct(i: nat, p: nat, w: nat, wide: nat)
    requires wide == p * w
    ensures i * wide == i * p * w
  {
  }

  lemma AddedProduct(a: nat, b: nat, w: nat)
    ensures OddTimes(a + b, w) == OddTimes(a, w) + 2 * (b * w)
  {
  }

  /**
   `child_begin_at_level` and `child_end_at_level`: the ids of the first descendant at a level and of
   the cell past the last one; the latter, past the sixth face, is no cell's.
   */
  lemma {:induction false} DescendantIds(c: Cell, level: nat)
    requires c.level <= level <= MAX_LEVEL
    ensures var u, lsbForLevel := DescendantsAt(c, level), Pow4(MAX_LEVEL - level);
      && u != [] && Id(u[0]) == Id(c) - Width(c) + lsbForLevel
      && Id(u[|u| - 1]) + 2 * lsbForLevel == Id(c) + Width(c) + lsbForLevel
  {
    hide Pow4, Width, OddTimes, DescendantsAt, Consecutive, Id;
    var u, p, w, wide := DescendantsAt(c, level), Pow4(level - c.level), Pow4(MAX_LEVEL - level), Width(c);
    WidthAtLevel(c, level);
    IdIsOddTimes(c);
    DescendantsAreConsecutive(c, level);
    EndsOf(u, level, c.index * p, p);
    GridEnds(c.index, p, w, wide);
  }

  lemma {:induction false} WidthAtLevel(c: Cell, level: nat)
    requires c.level <= level <= MAX_LEVEL
    ensures Width(c) == Pow4(level - c.level) * Pow4(MAX_LEVEL - level)
  {
    hide Pow4;
    CoarserIsMultiple(level - c.level, MAX_LEVEL - c.level);
    assert MAX_LEVEL - c.level - (level - c.level) == MAX_LEVEL - level;
  }

  lemma {:induction false} EndsOf(u: seq<Cell>, level: nat, start: nat, n: nat)
    requires Consecutive(u, level, start) && |u| == n > 0 && level <= MAX_LEVEL
    ensures Id(u[0]) == OddTimes(start, Pow4(MAX_LEVEL - level))
    ensures Id(u[n - 1]) == OddTimes(start + (n - 1), Pow4(MAX_LEVEL - level))
  {
    hide Pow4, Consecutive, OddTimes, Id;
    ConsecutiveAt(u, level, start, 0);
    ConsecutiveAt(u, level, start, n - 1);
  }

  lemma {:induction false} ConsecutiveAt(u: seq<Cell>, level: nat, start: nat, i: nat)
    requires Consecutive(u, level, start) && i < |u| && level <= MAX_LEVEL
    ensures Id(u[i]) == OddTimes(start + i, Pow4(MAX_LEVEL - level))
  {
    hide Pow4;
    assert u[i].level == level && u[i].index == start + i;
  }

  // ----- exclusive or -----

  /** Exclusive or of two numbers, bit by bit. */
  function Xor64(a: nat, b: nat): nat {
    if a == 0 && b == 0 then 0 else 2 * Xor64(a / 2, b / 2) + (a % 2 + b % 2) % 2
  }

  function Xor3(a: nat, b: nat, c: nat): nat {
    Xor64(Xor64(a, b), c)
  }

  function Odd(n: nat): (b: nat)
    ensures b < 2
  {
    n % 2
  }

  lemma XorBit(a: nat, b: nat, p: nat, q: nat)
    requires p < 2 && q < 2
    ensures Xor64(2 * a + p, 2 * b + q) == 2 * Xor64(a, b) + Odd(p + q)
  {
    assert (2 * a + p) / 2 == a && (2 * b + q) / 2 == b;
  }

  lemma Xor3Bit(a: nat, b: nat, c: nat, p: nat, q: nat, r: nat)
    requires p < 2 && q < 2 && r < 2
    ensures Xor3(2 * a + p, 2 * b + q, 2 * c + r) == 2 * Xor3(a, b, c) + Odd(p + q + r)
  {
    hide Xor64;
    XorBit(a, b, p, q);
    XorBit(Xor64(a, b), c, Odd(p + q), r);
  }

  lemma {:induction false} Xor3Same(a: nat)
    ensures Xor3(a, a, a) == a
    decreases a
  {
    if a > 0 {
      hide Xor64, Xor3;
      var h, r := a / 2, a % 2;
      Xor3Same(h);
      Xor3Bit(h, h, h, r, r, r);
      assert a == 2 * h + r && (r + r + r) % 2 == r;
    }
  }

  lemma Xor3Quadruple(x: nat, y: nat, z: nat)
    ensures Xor3(4 * x, 4 * y, 4 * z) == 4 * Xor3(x, y, z)
  {
    hide Xor64, Xor3;
    Xor3Bit(2 * x, 2 * y, 2 * z, 0, 0, 0);
    Xor3Bit(x, y, z, 0, 0, 0);
    assert 2 * (2 * x) + 0 == 4 * x && 2 * (2 * y) + 0 == 4 * y && 2 * (2 * z) + 0 == 4 * z;
  }

  lemma {:induction false} Xor3Scaled(k: nat, a: nat, b: nat, c: nat)
    ensures Xor3(Pow4(k) * a, Pow4(k) * b, Pow4(k) * c) == Pow4(k) * Xor3(a, b, c)
    decreases k
  {
    hide Xor64, Xor3;
    if k > 0 {
      var w := Pow4(k - 1);
      assert Pow4(k) == 4 * w;
      Xor3Scaled(k - 1, a, b, c);
      hide Pow4;
      Xor3Quadruple(w * a, w * b, w * c);
      Quadruple(w, a);
      Quadruple(w, b);
      Quadruple(w, c);
      Quadruple(w, Xor3(a, b, c));
    } else {
      assert Pow4(0) == 1;
    }
  }

  lemma Quadruple(w: nat, x: nat)
    ensures 4 * w * x == 4 * (w * x)
  {
  }

  /** Of three ids that differ only in their child positions, only the positions combine. */
  lemma Xor3OfPositions(q: nat, a: nat, b: nat, c: nat)
    requires a < 4 && b < 4 && c < 4
    ensures Xor3(8 * q + 2 * a + 1, 8 * q + 2 * b + 1, 8 * q + 2 * c + 1) == 8 * q + 2 * Xor(Xor(a, b), c) + 1
  {
    hide Xor64, Xor3, Xor;
    Xor3OfDigits(q, a, b, c);
    Xor3Bit(4 * q + a, 4 * q + b, 4 * q + c, 1, 1, 1);
    assert 2 * (4 * q + a) + 1 == 8 * q + 2 * a + 1;
    assert 2 * (4 * q + b) + 1 == 8 * q + 2 * b + 1;
    assert 2 * (4 * q + c) + 1 == 8 * q + 2 * c + 1;
  }

  /** Two bits, each the parity of a sum. */
  function Parities(hi: nat, lo: nat): nat {
    2 * Odd(hi) + Odd(lo)
  }

  lemma Xor3OfDigits(q: nat, a: nat, b: nat, c: nat)
    requires a < 4 && b < 4 && c < 4
    ensures Xor3(4 * q + a, 4 * q + b, 4 * q + c) == 4 * q + Xor(Xor(a, b), c)
  {
    hide *;
    var a1, a0 := Digits2(a);
    var b1, b0 := Digits2(b);
    var c1, c0 := Digits2(c);
    Xor3OfBits(q, a1, a0, b1, b0, c1, c0);
    XorTwice(a1, a0, b1, b0, c1, c0);
  }

  lemma XorTwice(a1: nat, a0: nat, b1: nat, b0: nat, c1: nat, c0: nat)
    requires a1 < 2 && a0 < 2 && b1 < 2 && b0 < 2 && c1 < 2 && c0 < 2
    ensures Xor(Xor(2 * a1 + a0, 2 * b1 + b0), 2 * c1 + c0) == Parities(a1 + b1 + c1, a0 + b0 + c0)
  {
    hide Xor;
    XorOfBits(a1, a0, b1, b0);
    var hi, lo := (a1 + b1) % 2, (a0 + b0) % 2;
    XorOfBits(hi, lo, c1, c0);
    Parity(a1 + b1, c1);
    Parity(a0 + b0, c0);
  }

  lemma Digits2(a: nat) returns (hi: nat, lo: nat)
    requires a < 4
    ensures a == 2 * hi + lo && hi < 2 && lo < 2
  {
    hi, lo := a / 2, a % 2;
  }

  lemma Parity(x: nat, y: nat)
    ensures (x % 2 + y) % 2 == (x + y) % 2
  {
  }

  lemma XorOfBits(a1: nat, a0: nat, b1: nat, b0: nat)
    requires a1 < 2 && a0 < 2 && b1 < 2 && b0 < 2
    ensures Xor(2 * a1 + a0, 2 * b1 + b0) == 2 * ((a1 + b1) % 2) + (a0 + b0) % 2
  {
    LowBit(a1, a0);
    LowBit(b1, b0);
    LowBit(a1 + b1, a0 + b0);
    assert 2 * a1 + a0 + (2 * b1 + b0) == 2 * (a1 + b1) + (a0 + b0);
  }

  lemma LowBit(x: nat, y: nat)
    ensures (2 * x + y) % 2 == y % 2 && (y < 2 ==> (2 * x + y) / 2 == x)
  {
  }

  lemma Xor3OfBits(q: nat, a1: nat, a0: nat, b1: nat, b0: nat, c1: nat, c0: nat)
    requires a1 < 2 && a0 < 2 && b1 < 2 && b0 < 2 && c1 < 2 && c0 < 2
    ensures Xor3(4 * q + (2 * a1 + a0), 4 * q + (2 * b1 + b0), 4 * q + (2 * c1 + c0))
         == 4 * q + Parities(a1 + b1 + c1, a0 + b0 + c0)
  {
    hide Xor64, Xor3, Odd;
    Xor3Same(q);
    Xor3Bit(q, q, q, a1, b1, c1);
    Xor3Bit(2 * q + a1, 2 * q + b1, 2 * q + c1, a0, b0, c0);
    assert 2 * (2 * q + a1) + a0 == 4 * q + (2 * a1 + a0);
    assert 2 * (2 * q + b1) + b0 == 4 * q + (2 * b1 + b0);
    assert 2 * (2 * q + c1) + c0 == 4 * q + (2 * c1 + c0);
  }

  // ----- the sibling test -----

  /** An id with the two bits above the marker cleared. */
  function Masked(x: nat, lsb: nat): int
    requires lsb > 0
  {
    x - 2 * lsb * (x / (2 * lsb) % 4)
  }

  /** `are_siblings` on ids; the last test says that `d` is not a face. */
  predicate AreSiblingIds(a: nat, b: nat, c: nat, d: nat, lsb: nat)
    requires lsb > 0
  {
    && Xor3(a, b, c) == d
    && Masked(a, lsb) == Masked(d, lsb) && Masked(b, lsb) == Masked(d, lsb) && Masked(c, lsb) == Masked(d, lsb)
    && lsb != Pow4(MAX_LEVEL)
  }

  function Quotient(x: nat, w: nat): int
    requires w > 0
  {
    x / (8 * w)
  }

  function Rest(x: nat, w: nat): (r: nat)
    requires w > 0
    ensures r < 2 * w
  {
    x % (2 * w)
  }

  lemma MaskedSplit(x: nat, w: nat)
    requires w > 0
    ensures Masked(x, w) == 8 * (w * Quotient(x, w)) + Rest(x, w)
  {
    var q, r := x / (2 * w), x % (2 * w);
    assert x == 2 * w * q + r;
    NaturalQuotient(x, 2 * w);
    var h, p := q / 4, q % 4;
    hide Masked, Quotient, Rest;
    MaskedParts(x, w, h, p, r);
  }

  lemma NaturalQuotient(x: nat, d: nat)
    requires d > 0
    ensures x / d >= 0
  {
  }

  lemma MaskedParts(x: nat, w: nat, h: nat, p: nat, r: nat)
    requires w > 0 && p < 4 && r < 2 * w && x == 2 * w * (4 * h + p) + r
    ensures Masked(x, w) == 8 * (w * h) + r && Quotient(x, w) == h && Rest(x, w) == r
  {
    Regroup(w, h, p);
    Position(w, p);
    DivModIs(x, 8 * w, h, 2 * (w * p) + r);
    DivModIs(x, 2 * w, 4 * h + p, r);
    Digits(h, p);
  }

  lemma Regroup(w: nat, h: nat, p: nat)
    ensures 2 * w * (4 * h + p) == 8 * w * h + 2 * (w * p) && 8 * w * h == 8 * (w * h) && 2 * w * p == 2 * (w * p)
  {
  }

  /** At its own marker, a masked id keeps its parent's index and the marker. */
  lemma MaskedOwn(c: Cell)
    ensures Masked(Id(c), Width(c)) == 8 * (Width(c) * (c.index / 4)) + Width(c)
  {
    IdSplit(c);
    hide Pow4, Width, Id, Masked;
    OwnArithmetic(Id(c), Width(c), c.index / 4, c.index % 4);
  }

  lemma OwnArithmetic(x: nat, w: nat, q: nat, r: nat)
    requires w > 0 && r < 4 && x == 8 * (w * q) + 2 * (w * r) + w
    ensures Masked(x, w) == 8 * (w * q) + w
  {
    hide Masked, Quotient, Rest;
    Regroup(w, q, r);
    MaskedParts(x, w, q, r, w);
  }

  lemma {:induction false} CoarserIsMultiple(k: nat, j: nat)
    requires k <= j
    ensures Pow4(j) == Pow4(k) * Pow4(j - k)
    decreases j
  {
    if j > k {
      CoarserIsMultiple(k, j - 1);
      Shuffle(Pow4(k), Pow4(j - 1 - k));
      assert Pow4(j) == 4 * Pow4(j - 1) && Pow4(j - k) == 4 * Pow4(j - 1 - k);
    }
  }

  /** The marker shows in the remainder only at the id's own level. */
  lemma MarkerAtOwnLevel(c: Cell, d: Cell)
    requires Rest(Id(c), Width(d)) == Width(d)
    ensures c.level == d.level
  {
    hide *;
    IdIsOddTimes(c);
    if c.level < d.level {
      WidthRatio(c, d);
      CoarseMarker(c.index, Width(c), Pow4(d.level - c.level - 1), Width(d));
    } else if c.level > d.level {
      WidthRatio(d, c);
      FineMarker(c.index, Width(c), Pow4(c.level - d.level - 1), Width(d));
    }
  }

  lemma WidthRatio(c: Cell, d: Cell)
    requires c.level < d.level
    ensures Width(c) == Width(d) * (4 * Pow4(d.level - c.level - 1))
  {
    assert Pow4(d.level - c.level) == 4 * Pow4(d.level - c.level - 1);
    hide Pow4;
    CoarserIsMultiple(MAX_LEVEL - d.level, MAX_LEVEL - c.level);
    assert MAX_LEVEL - c.level - (MAX_LEVEL - d.level) == d.level - c.level;
  }

  lemma CoarseMarker(i: nat, v: nat, m: nat, w: nat)
    requires w > 0 && v == w * (4 * m)
    ensures Rest(OddTimes(i, v), w) != w
  {
    EvenMultiple(2 * i + 1, w, m);
    DivModIs(OddTimes(i, v), 2 * w, (2 * i + 1) * (2 * m), 0);
  }

  lemma EvenMultiple(i: nat, w: nat, m: nat)
    ensures i * (w * (4 * m)) == 2 * w * (i * (2 * m))
  {
  }

  lemma FineMarker(i: nat, v: nat, m: nat, w: nat)
    requires v > 0 && w > 0 && w == v * (4 * m)
    ensures Rest(OddTimes(i, v), w) != w
  {
    var x := OddTimes(i, v);
    var q := x / (2 * w);
    assert x == 2 * w * q + Rest(x, w);
    OddIsNoMultiple(2 * i + 1, v, m, w, q);
    hide Rest;
  }

  lemma OddIsNoMultiple(i: nat, v: nat, m: nat, w: nat, q: int)
    requires v > 0 && i % 2 == 1 && w == v * (4 * m)
    ensures i * v != 2 * w * q + w
  {
    var n := 2 * (4 * m * q + 2 * m);
    assert 2 * w * q + w == v * n by { Collect(v, m, q); }
    if i < n {
      StepUp(v, i, n);
    } else {
      StepUp(v, n, i);
    }
  }

  lemma Collect(v: nat, m: nat, q: int)
    ensures 2 * (v * (4 * m)) * q + v * (4 * m) == v * (2 * (4 * m * q + 2 * m))
  {
  }

  /** Masked at `d`'s marker, ids agree exactly for cells of `d`'s level with `d`'s parent index. */
  lemma MaskedAgree(c: Cell, d: Cell)
    ensures Masked(Id(c), Width(d)) == Masked(Id(d), Width(d)) <==> c.level == d.level && c.index / 4 == d.index / 4
  {
    hide Masked, Rest, Quotient;
    MaskedOwn(d);
    if c.level == d.level {
      MaskedOwn(c);
      assert Width(c) == Width(d);
      hide Pow4, Width, Id;
      CancelWidth(Width(d), c.index / 4, d.index / 4);
    } else if Masked(Id(c), Width(d)) == Masked(Id(d), Width(d)) {
      hide Pow4, Width, Id;
      MaskedSplit(Id(c), Width(d));
      SameRemainder(Width(d), Quotient(Id(c), Width(d)), Rest(Id(c), Width(d)), d.index / 4);
      MarkerAtOwnLevel(c, d);
    }
  }

  lemma CancelWidth(w: nat, a: nat, b: nat)
    requires w > 0
    ensures w * a == w * b <==> a == b
  {
    if a < b {
      StepUp(w, a, b);
    } else if b < a {
      StepUp(w, b, a);
    }
  }

  lemma SameRemainder(w: nat, a: int, r: nat, b: nat)
    requires w > 0 && r < 2 * w && 8 * (w * a) + r == 8 * (w * b) + w
    ensures r == w
  {
    if a < b {
      StepUp(w, a, b);
    } else if b < a {
      StepUp(w, b, a);
    }
  }

  function Scaled(k: nat, x: nat): nat {
    Pow4(k) * x
  }

  lemma IdFactored(c: Cell)
    ensures Id(c) == Scaled(MAX_LEVEL - c.level, 8 * (c.index / 4) + 2 * (c.index % 4) + 1)
  {
    hide Pow4;
    IdSplit(c);
    Factored(Width(c), c.index / 4, c.index % 4);
  }

  /** The exclusive-or test, for cells that agree outside their positions. */
  lemma XorOfSiblings(a: Cell, b: Cell, c: Cell, d: Cell)
    requires a.level == b.level == c.level == d.level
    requires a.index / 4 == b.index / 4 == c.index / 4 == d.index / 4
    ensures Xor3(Id(a), Id(b), Id(c)) == Id(d) <==> Xor(Xor(a.index % 4, b.index % 4), c.index % 4) == d.index % 4
  {
    hide Pow4, Xor3, Xor, Id, Scaled;
    IdFactored(a);
    IdFactored(b);
    IdFactored(c);
    IdFactored(d);
    XorAtLevel(MAX_LEVEL - d.level, d.index / 4, a.index % 4, b.index % 4, c.index % 4, d.index % 4);
  }

  lemma XorAtLevel(k: nat, q: nat, a: nat, b: nat, c: nat, d: nat)
    requires a < 4 && b < 4 && c < 4
    ensures Xor3(Scaled(k, 8 * q + 2 * a + 1), Scaled(k, 8 * q + 2 * b + 1), Scaled(k, 8 * q + 2 * c + 1))
         == Scaled(k, 8 * q + 2 * d + 1)
       <==> Xor(Xor(a, b), c) == d
  {
    hide Pow4, Xor3, Xor;
    Xor3Scaled(k, 8 * q + 2 * a + 1, 8 * q + 2 * b + 1, 8 * q + 2 * c + 1);
    Xor3OfPositions(q, a, b, c);
    CancelWidth(Pow4(k), 8 * q + 2 * Xor(Xor(a, b), c) + 1, 8 * q + 2 * d + 1);
  }

  lemma Factored(w: nat, q: nat, r: nat)
    ensures 8 * (w * q) + 2 * (w * r) + w == w * (8 * q + 2 * r + 1)
  {
  }

  lemma FaceWidth(d: Cell)
    ensures Width(d) == Pow4(MAX_LEVEL) <==> d.level == 0
  {
    if d.level > 0 {
      WiderIsShallower(CellId(0, 0), d);
    }
  }

  /** The library's test on four ids accepts exactly the four cells that `AreSiblings` does. */
  lemma SiblingTestOnIds(a: Cell, b: Cell, c: Cell, d: Cell)
    ensures AreSiblingIds(Id(a), Id(b), Id(c), Id(d), Width(d)) <==> AreSiblings(a, b, c, d)
  {
    FaceWidth(d);
    MaskedAgree(a, d);
    MaskedAgree(b, d);
    MaskedAgree(c, d);
    hide Pow4, Width, Id, Masked, Xor3;
    if a.level == b.level == c.level == d.level && a.index / 4 == b.index / 4 == c.index / 4 == d.index / 4 {
      XorOfSiblings(a, b, c, d);
    }
  }
}
