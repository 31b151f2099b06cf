/**
 The E5, E6 and E7 forms of an angle: rounding half to even built from `floor`, saturation to 32
 bits, and the round trip through rounded products. Floating-point arithmetic is a rounding
 function on the reals with the properties IEEE 754 (2019, section 4.3.1) gives binary64.
 */
module EForm {
  datatype F64 = NaN | PosInf | NegInf | Fin(r: real)

  /** An arithmetic: how exact results are rounded, and the constant pi as stored. */
  datatype Machine = Machine(rnd: real -> F64, pi: real)

  const U: real := 1.0 / 9007199254740992.0
  const PRECISION: int := 9007199254740992
  const I32_MAX: int := 2147483647
  const I32_MIN: int := -2147483648

  function Pow2(e: nat): (p: int)
    ensures p >= 1
  {
    if e == 0 then 1 else 2 * Pow2(e - 1)
  }

  function Abs(x: real): real {
    if x < 0.0 then -x else x
  }

  function Floor(x: real): real {
    x.Floor as real
  }

  // ----- what binary64 arithmetic promises -----

  ghost predicate IsScaled(x: real, m: int, e: nat) {
    x * Pow2(e) as real == m as real
  }

  ghost predicate IsMultiple(x: real, m: int, e: nat) {
    x == (m * Pow2(e)) as real
  }

  /** The finite doubles: a 53-bit integer times a power of two, in the exponent range of the format. */
  ghost predicate Representable(x: real) {
    || (exists m: int, e: nat :: -9007199254740992 < m < 9007199254740992 && e <= 1074 && IsScaled(x, m, e))
    || (exists m: int, e: nat :: -9007199254740992 < m < 9007199254740992 && e <= 971 && IsMultiple(x, m, e))
  }

  ghost predicate LeqF(a: F64, b: F64) {
    match (a, b)
    case (NaN, _) => false
    case (_, NaN) => false
    case (NegInf, _) => true
    case (_, PosInf) => true
    case (Fin(x), Fin(y)) => x <= y
    case _ => false
  }

  ghost predicate Monotone(rnd: real -> F64) {
    forall x, y :: x <= y ==> LeqF(rnd(x), rnd(y))
  }

  ghost predicate ExactOnDoubles(rnd: real -> F64) {
    forall x :: Representable(x) ==> rnd(x) == Fin(x)
  }

  ghost predicate GivesDoubles(rnd: real -> F64) {
    forall x :: rnd(x).Fin? ==> Representable(rnd(x).r)
  }

  /** Numbers of ordinary size, on which no rounding underflows or overflows. */
  ghost predicate Moderate(x: real) {
    x == 0.0 || 0.0000000001 <= Abs(x) <= 10000000000000000.0
  }

  /** Relative error at most 2^-53 on such numbers. */
  ghost predicate Accurate(rnd: real -> F64) {
    forall x :: Moderate(x) ==> rnd(x).Fin? && Abs(rnd(x).r - x) <= U * Abs(x)
  }

  // ----- the functions of the reference description -----

  function Product(x: real, y: real): real {
    x * y
  }

  /** IEEE multiplication. */
  function Times(m: Machine, a: F64, b: F64): F64 {
    match (a, b)
    case (Fin(x), Fin(y)) => m.rnd(Product(x, y))
    case (NaN, _) => NaN
    case (_, NaN) => NaN
    case (Fin(x), _) => if x == 0.0 then NaN else if (x > 0.0) == b.PosInf? then PosInf else NegInf
    case (_, Fin(y)) => if y == 0.0 then NaN else if (y > 0.0) == a.PosInf? then PosInf else NegInf
    case _ => if a == b then PosInf else NegInf
  }

  function FromDegrees(m: Machine, d: F64): F64
    requires m.pi > 0.0
  {
    Times(m, d, m.rnd(m.pi / 180.0))
  }

  function Degrees(m: Machine, r: F64): F64
    requires m.pi > 0.0
  {
    Times(m, r, m.rnd(180.0 / m.pi))
  }

  function TenTo(k: nat): real {
    if k == 5 then 100000.0 else if k == 6 then 1000000.0 else 10000000.0
  }

  /** The literals `1e-5`, `1e-6`, `1e-7`: the powers, rounded. */
  function ScaleDown(m: Machine, k: nat): F64 {
    m.rnd(1.0 / TenTo(k))
  }

  function ScaleUp(k: nat): F64 {
    Fin(TenTo(k))
  }

  function FromE(m: Machine, k: nat, n: int): F64
    requires m.pi > 0.0
  {
    FromDegrees(m, Times(m, Fin(n as real), ScaleDown(m, k)))
  }

  predicate Below(a: F64, c: real) {
    a == NegInf || (a.Fin? && a.r < c)
  }

  predicate Above(a: F64, c: real) {
    a == PosInf || (a.Fin? && a.r > c)
  }

  /** Half to even, from `floor`; every intermediate result is rounded. */
  function RoundHalfEven(rnd: real -> F64, v: real): F64 {
    var f := Floor(v);
    var d := rnd(v - f);
    var half := rnd(f / 2.0);
    var even := half.Fin? && rnd(Floor(half.r) * 2.0) == Fin(f);
    if Below(d, 0.5) || (d == Fin(0.5) && even) then Fin(f) else rnd(f + 1.0)
  }

  function EProduct(m: Machine, k: nat, r: F64): F64
    requires m.pi > 0.0
  {
    Times(m, Degrees(m, r), ScaleUp(k))
  }

  function ToE(m: Machine, k: nat, r: F64): int
    requires m.pi > 0.0
  {
    match EProduct(m, k, r)
    case NaN => 0
    case PosInf => I32_MAX
    case NegInf => I32_MIN
    case Fin(v) =>
      var n := RoundHalfEven(m.rnd, v);
      if Above(n, I32_MAX as real) then I32_MAX
      else if Below(n, I32_MIN as real) then I32_MIN
      else if n.Fin? then n.r.Floor else 0
  }

  /** The generator's range test on a product. */
  predicate EOutOfRange(v: F64) {
    match v
    case Fin(x) => !(x >= -2147483648.5 && x < 2147483647.5)
    case _ => true
  }

  // ----- nearest integer, ties to even -----

  predicate IsNearestEven(v: real, n: int) {
    && -0.5 <= v - n as real <= 0.5
    && (v - n as real == 0.5 || v - n as real == -0.5 ==> n % 2 == 0)
  }

  function NearestEven(v: real): int {
    var f := v.Floor;
    var d := v - f as real;
    if d < 0.5 || (d == 0.5 && f % 2 == 0) then f else f + 1
  }

  lemma NearestEvenIs(v: real)
    ensures IsNearestEven(v, NearestEven(v))
  {
    var f := v.Floor;
    assert f % 2 == 0 || (f + 1) % 2 == 0;
  }

  lemma NearestIsUnique(v: real, n: int, m: int)
    requires IsNearestEven(v, n) && IsNearestEven(v, m)
    ensures n == m
  {
  }

  lemma NearestIsMonotone(v: real, w: real, n: int, m: int)
    requires v <= w && IsNearestEven(v, n) && IsNearestEven(w, m)
    ensures n <= m
  {
    if m < n {
      assert n == m + 1;
      assert v == w;
      NearestIsUnique(v, n, m);
    }
  }

  // ----- exact subtractions -----

  lemma IntegersRepresentable(n: int)
    requires -PRECISION <= n <= PRECISION
    ensures Representable(n as real) && Representable(n as real / 2.0)
  {
    assert Pow2(0) == 1 && Pow2(1) == 2;
    if -PRECISION < n < PRECISION {
      assert IsScaled(n as real, n, 0) && IsScaled(n as real / 2.0, n, 1);
    } else {
      var m := n / 2;
      assert IsMultiple(n as real, m, 1) && IsScaled(n as real / 2.0, m, 0);
    }
  }

  lemma HalvesRepresentable()
    ensures Representable(0.5) && Representable(0.46875) && Representable(0.53125)
  {
    assert Pow2(1) == 2 && Pow2(2) == 4 && Pow2(3) == 8 && Pow2(4) == 16 && Pow2(5) == 32;
    assert IsScaled(0.5, 1, 1) && IsScaled(0.46875, 15, 5) && IsScaled(0.53125, 17, 5);
  }

  /** The floor of a scaled integer, and its fraction, on the same scale. */
  lemma {:induction false} FloorOfScaled(x: real, m: int, e: nat)
    requires IsScaled(x, m, e)
    ensures x.Floor == m / Pow2(e) && IsScaled(x - Floor(x), m % Pow2(e), e)
  {
    var p, q, s := Pow2(e), m / Pow2(e), m % Pow2(e);
    assert m == p * q + s && 0 <= s < p;
    assert x * p as real == p as real * q as real + s as real;
    assert (x - q as real) * p as real == s as real;
    QuotientBounds(x - q as real, p as real, s as real);
    assert 0.0 <= x - q as real < 1.0;
  }

  lemma QuotientBounds(y: real, p: real, s: real)
    requires p > 0.0 && y * p == s && 0.0 <= s < p
    ensures 0.0 <= y < 1.0
  {
  }

  lemma {:induction false} Pow2Large(e: nat)
    requires e >= 54
    ensures Pow2(e) >= 2 * PRECISION
  {
    if e == 54 {
      Pow2At54();
    } else {
      Pow2Large(e - 1);
    }
  }

  lemma Pow2At54()
    ensures Pow2(52) == PRECISION / 2 && Pow2(53) == PRECISION && Pow2(54) == 2 * PRECISION
  {
    assert Pow2(8) == 256 by { assert Pow2(4) == 16; }
    assert Pow2(16) == 65536 by { assert Pow2(12) == 4096; }
    assert Pow2(24) == 16777216 by { assert Pow2(20) == 1048576; }
    assert Pow2(32) == 4294967296 by { assert Pow2(28) == 268435456; }
    assert Pow2(40) == 1099511627776 by { assert Pow2(36) == 68719476736; }
    assert Pow2(48) == 281474976710656 by { assert Pow2(44) == 17592186044416; }
    assert Pow2(52) == 4503599627370496;
  }

  lemma {:induction false} Pow2Small(e: nat)
    requires e <= 53
    ensures Pow2(e) <= PRECISION
    decreases 53 - e
  {
    if e == 53 {
      Pow2At54();
    } else {
      Pow2Small(e + 1);
    }
  }

  /**
   The fraction of a double is a double, so `v - f` is exact, with one exception: strictly between
   minus one half and zero.
   */
  lemma FractionIsExact(v: real)
    requires Representable(v)
    ensures -0.5 < v < 0.0 || Representable(v - Floor(v))
  {
    if m: int, e: nat :| -PRECISION < m < PRECISION && e <= 1074 && IsScaled(v, m, e) {
      FloorOfScaled(v, m, e);
      var p, s := Pow2(e), m % Pow2(e);
      if m >= 0 {
        ModAtMost(m, p);
        assert IsScaled(v - Floor(v), s, e);
      } else if e <= 53 {
        Pow2Small(e);
        assert IsScaled(v - Floor(v), s, e);
      } else {
        Pow2Large(e);
        SmallQuotient(v, p as real, m as real);
      }
    } else {
      var m: int, e: nat :| -PRECISION < m < PRECISION && e <= 971 && IsMultiple(v, m, e);
      IntegersRepresentable(0);
      assert v - Floor(v) == 0.0;
    }
  }

  /** A number between one half and one is a double exactly when it is a multiple of 2^-53. */
  lemma UpperHalfRepresentable(x: real)
    requires 0.5 < x < 1.0
    ensures Representable(x) <==> exists k: int :: IsScaled(x, k, 53)
  {
    hide Pow2;
    Pow2At54();
    if Representable(x) {
      if m: int, e: nat :| -PRECISION < m < PRECISION && e <= 1074 && IsScaled(x, m, e) {
        var k := ScaledInUpperHalf(x, m, e);
      } else {
        var m: int, e: nat :| -PRECISION < m < PRECISION && e <= 971 && IsMultiple(x, m, e);
        WholeNotBetween(x, m * Pow2(e));
      }
    }
    if k: int :| IsScaled(x, k, 53) {
      assert -PRECISION < k < PRECISION;
    }
  }

  lemma WholeNotBetween(x: real, n: int)
    requires x == n as real
    ensures !(0.5 < x < 1.0)
  {
  }

  lemma ScaledInUpperHalf(x: real, m: int, e: nat) returns (k: int)
    requires 0.5 < x < 1.0 && m < PRECISION && IsScaled(x, m, e)
    ensures IsScaled(x, k, 53)
  {
    hide Pow2;
    AtMost53Places(x, m, e);
    k := Refined(x, m, e, 53);
  }

  /** A multiple of one power of two is a multiple of every smaller one. */
  lemma Refined(x: real, m: int, e: nat, f: nat) returns (k: int)
    requires e <= f && IsScaled(x, m, e)
    ensures IsScaled(x, k, f)
  {
    hide Pow2;
    var q := Pow2(f - e);
    k := m * q;
    Pow2Sum(e, f - e);
    assert Pow2(e) * q == Pow2(f);
    Rescale(x, m, Pow2(e), q);
  }

  lemma AtMost53Places(x: real, m: int, e: nat)
    requires 0.5 < x && m < PRECISION && IsScaled(x, m, e)
    ensures e <= 53
  {
    hide Pow2;
    if e > 53 {
      Pow2Large(e);
      ScaleInequality(0.5, x, Pow2(e) as real);
    }
  }

  lemma Rescale(x: real, m: int, p: int, q: int)
    requires x * p as real == m as real
    ensures x * (p * q) as real == (m * q) as real
  {
    assert x * (p * q) as real == x * p as real * q as real;
  }

  lemma {:induction false} Pow2Sum(a: nat, b: nat)
    ensures Pow2(a) * Pow2(b) == Pow2(a + b)
  {
    if a > 0 {
      Pow2Sum(a - 1, b);
      TwiceProduct(Pow2(a - 1), Pow2(b));
    }
  }

  lemma TwiceProduct(p: int, q: int)
    ensures 2 * p * q == 2 * (p * q)
  {
  }

  /**
   Exactly when the subtraction in `round_half_even` is exact: outside (-1/2, 0) always, inside it
   only on multiples of 2^-53.
   */
  lemma FractionExactIff(v: real)
    requires Representable(v)
    ensures Representable(v - Floor(v)) <==> !(-0.5 < v < 0.0) || exists k: int :: IsScaled(v, k, 53)
  {
    if -0.5 < v < 0.0 {
      var x := v + 1.0;
      assert v - Floor(v) == x;
      UpperHalfRepresentable(x);
      Pow2At54();
      hide Representable, Pow2;
      if k: int :| IsScaled(x, k, 53) {
        assert IsScaled(v, k - PRECISION, 53);
      }
      if k: int :| IsScaled(v, k, 53) {
        assert IsScaled(x, k + PRECISION, 53);
      }
    } else {
      FractionIsExact(v);
    }
  }

  lemma ModAtMost(m: int, p: int)
    requires 0 <= m && 0 < p
    ensures m % p <= m
  {
  }

  lemma SmallQuotient(y: real, p: real, s: real)
    requires y * p == s && -(PRECISION as real) < s < 0.0 && p >= 2.0 * PRECISION as real
    ensures -0.5 < y < 0.0
  {
  }

  /** A double outside the 53-bit integers is itself an integer. */
  lemma LargeIsInteger(v: real)
    requires Representable(v) && !(-PRECISION as real < v < PRECISION as real)
    ensures v == Floor(v)
  {
    if m: int, e: nat :| -PRECISION < m < PRECISION && e <= 1074 && IsScaled(v, m, e) {
      ScaledIsSmaller(v, m, Pow2(e));
    } else {
      var m: int, e: nat :| -PRECISION < m < PRECISION && e <= 971 && IsMultiple(v, m, e);
    }
  }

  lemma ScaledIsSmaller(x: real, m: int, p: int)
    requires p >= 1 && x * p as real == m as real
    ensures Abs(x) <= Abs(m as real)
  {
  }

  /** Evenness as the code tests it. */
  lemma EvenTest(rnd: real -> F64, f: int)
    requires ExactOnDoubles(rnd) && -PRECISION <= f <= PRECISION
    ensures rnd(f as real / 2.0) == Fin(f as real / 2.0)
    ensures rnd(Floor(f as real / 2.0) * 2.0) == Fin(f as real) <==> f % 2 == 0
  {
    var h := f / 2;
    IntegersRepresentable(f);
    assert f == 2 * h + f % 2;
    assert (f as real / 2.0).Floor == h;
    IntegersRepresentable(2 * h);
    assert Floor(f as real / 2.0) * 2.0 == (2 * h) as real;
  }

  /** When the subtraction is exact the comparisons with one half are the true ones. */
  lemma RoundExactFraction(rnd: real -> F64, v: real)
    requires ExactOnDoubles(rnd) && -PRECISION as real < v < PRECISION as real
    requires rnd(v - Floor(v)) == Fin(v - Floor(v))
    ensures RoundHalfEven(rnd, v) == Fin(NearestEven(v) as real)
  {
    hide Representable, ExactOnDoubles;
    EvenTest(rnd, v.Floor);
    ExactInteger(rnd, v.Floor + 1);
    assert Floor(v) + 1.0 == (v.Floor + 1) as real;
  }

  lemma ExactInteger(rnd: real -> F64, n: int)
    requires ExactOnDoubles(rnd) && -PRECISION <= n <= PRECISION
    ensures rnd(n as real) == Fin(n as real)
  {
    IntegersRepresentable(n);
  }

  /** Just below zero the subtraction may round, but never below one half, and -1 is odd. */
  lemma RoundJustBelowZero(rnd: real -> F64, v: real)
    requires Monotone(rnd) && ExactOnDoubles(rnd) && -0.5 < v < 0.0
    ensures RoundHalfEven(rnd, v) == Fin(0 as real) && IsNearestEven(v, 0)
  {
    HalvesRepresentable();
    assert rnd(0.5) == Fin(0.5);
    hide Representable, ExactOnDoubles;
    ExactInteger(rnd, 0);
    EvenTest(rnd, -1);
    assert Floor(v) == -1.0;
    assert LeqF(rnd(0.5), rnd(v - Floor(v)));
  }

  /**
   `round_half_even` is right on every double: the nearest integer, ties to even, although its
   subtraction may round.
   */
  lemma RoundHalfEvenIsNearest(rnd: real -> F64, v: real)
    requires Monotone(rnd) && ExactOnDoubles(rnd) && Representable(v)
    ensures exists n: int :: RoundHalfEven(rnd, v) == Fin(n as real) && IsNearestEven(v, n)
  {
    var f := v.Floor;
    FractionIsExact(v);
    if -PRECISION as real < v < PRECISION as real {
      if -0.5 < v < 0.0 {
        RoundJustBelowZero(rnd, v);
      } else {
        RoundExactFraction(rnd, v);
        NearestEvenIs(v);
      }
    } else {
      LargeIsInteger(v);
      IntegersRepresentable(0);
      assert rnd(v - Floor(v)) == Fin(0.0);
      hide Representable;
      assert RoundHalfEven(rnd, v) == Fin(f as real) && IsNearestEven(v, f);
    }
  }

  // ----- saturation -----

  function Clamp(n: int): int {
    if n > 2147483647 then 2147483647 else if n < -2147483648 then -2147483648 else n
  }

  ghost predicate Sound(m: Machine) {
    3.0 <= m.pi <= 4.0 && Monotone(m.rnd) && ExactOnDoubles(m.rnd) && GivesDoubles(m.rnd)
  }

  lemma QuotientRange(q: real, p: real)
    requires q * p == 180.0 && 3.0 <= p <= 4.0
    ensures 45.0 <= q <= 60.0
  {
    if q < 0.0 {
      ScaleInequality(q, 0.0, p);
    } else {
      ScaleInequality(3.0, p, q);
      ScaleInequality(p, 4.0, q);
    }
  }

  lemma SmallConstants(m: Machine)
    requires Sound(m)
    ensures m.rnd(180.0 / m.pi).Fin? && m.rnd(180.0 / m.pi).r > 0.0
  {
    hide Representable, ExactOnDoubles, GivesDoubles;
    ExactInteger(m.rnd, 45);
    ExactInteger(m.rnd, 60);
    QuotientRange(180.0 / m.pi, m.pi);
    assert m.rnd(45.0) == Fin(45.0) && m.rnd(60.0) == Fin(60.0);
    assert LeqF(m.rnd(45.0), m.rnd(180.0 / m.pi)) && LeqF(m.rnd(180.0 / m.pi), m.rnd(60.0));
  }

  lemma ProductIsDouble(m: Machine, k: nat, r: F64)
    requires Sound(m) && EProduct(m, k, r).Fin?
    ensures Representable(EProduct(m, k, r).r)
  {
  }

  lemma ToEIsClampedRounding(m: Machine, k: nat, r: F64, n: int)
    requires Sound(m) && EProduct(m, k, r).Fin? && IsNearestEven(EProduct(m, k, r).r, n)
    ensures ToE(m, k, r) == Clamp(n)
  {
    hide *;
    SoundParts(m);
    var v := EProduct(m, k, r).r;
    ProductIsDouble(m, k, r);
    RoundHalfEvenIsNearest(m.rnd, v);
    var i: int :| RoundHalfEven(m.rnd, v) == Fin(i as real) && IsNearestEven(v, i);
    NearestIsUnique(v, i, n);
    ToEOfRounded(m, k, r, n);
  }

  lemma SoundParts(m: Machine)
    requires Sound(m)
    ensures 3.0 <= m.pi <= 4.0 && m.pi > 0.0 && Monotone(m.rnd) && ExactOnDoubles(m.rnd) && GivesDoubles(m.rnd)
  {
  }

  lemma ToEOfRounded(m: Machine, k: nat, r: F64, n: int)
    requires m.pi > 0.0 && EProduct(m, k, r).Fin? && RoundHalfEven(m.rnd, EProduct(m, k, r).r) == Fin(n as real)
    ensures ToE(m, k, r) == Clamp(n)
  {
    hide EProduct, RoundHalfEven;
  }

  /**
   The generator's range test fires exactly on NaN, on infinities, and where the rounding leaves
   the 32-bit range; elsewhere the E-form is the rounding itself.
   */
  lemma OutOfRangeIff(v: F64)
    ensures EOutOfRange(v) <==> !v.Fin? || exists n: int :: IsNearestEven(v.r, n) && Clamp(n) != n
  {
    if v.Fin? {
      var n := NearestEven(v.r);
      NearestEvenIs(v.r);
      ClampsIff(v.r, n);
      hide IsNearestEven, EOutOfRange, Clamp, NearestEven;
      if i: int :| IsNearestEven(v.r, i) && Clamp(i) != i {
        NearestIsUnique(v.r, i, n);
      }
    }
  }

  lemma ClampsIff(v: real, n: int)
    requires IsNearestEven(v, n)
    ensures Clamp(n) != n <==> !(-2147483648.5 <= v < 2147483647.5)
  {
    if n == 2147483647 {
      assert n % 2 == 1;
    } else if n == -2147483648 - 1 {
      assert n % 2 == 1;
    }
  }

  lemma InRangeIsRounding(m: Machine, k: nat, r: F64)
    requires Sound(m) && !EOutOfRange(EProduct(m, k, r))
    ensures IsNearestEven(EProduct(m, k, r).r, ToE(m, k, r))
  {
    var v := EProduct(m, k, r);
    ProductIsDouble(m, k, r);
    RoundHalfEvenIsNearest(m.rnd, v.r);
    OutOfRangeIff(v);
    hide Representable, RoundHalfEven;
    var i: int :| RoundHalfEven(m.rnd, v.r) == Fin(i as real) && IsNearestEven(v.r, i);
    ToEIsClampedRounding(m, k, r, i);
  }

  lemma TimesMonotone(m: Machine, a: F64, b: F64, c: real)
    requires Monotone(m.rnd) && LeqF(a, b) && c > 0.0
    ensures LeqF(Times(m, a, Fin(c)), Times(m, b, Fin(c)))
  {
    if a.Fin? && b.Fin? {
      ScaleInequality(a.r, b.r, c);
    }
    if a.Fin? {
      assert LeqF(m.rnd(Product(a.r, c)), m.rnd(Product(a.r, c)));
    }
    if b.Fin? {
      assert LeqF(m.rnd(Product(b.r, c)), m.rnd(Product(b.r, c)));
    }
  }

  /** A larger angle never has a smaller E-form, infinities included. */
  lemma ToEIsMonotone(m: Machine, k: nat, r: F64, s: F64)
    requires Sound(m) && LeqF(r, s)
    ensures ToE(m, k, r) <= ToE(m, k, s)
  {
    SmallConstants(m);
    TimesMonotone(m, r, s, m.rnd(180.0 / m.pi).r);
    TimesMonotone(m, Degrees(m, r), Degrees(m, s), TenTo(k));
    var v, w := EProduct(m, k, r), EProduct(m, k, s);
    assert LeqF(v, w);
    if v.Fin? {
      ProductIsDouble(m, k, r);
      RoundHalfEvenIsNearest(m.rnd, v.r);
    }
    if w.Fin? {
      ProductIsDouble(m, k, s);
      RoundHalfEvenIsNearest(m.rnd, w.r);
    }
    hide Representable, RoundHalfEven, EProduct, Monotone, ToE;
    var i := ClampedOrEnd(m, k, r);
    var j := ClampedOrEnd(m, k, s);
    if v.Fin? && w.Fin? {
      NearestIsMonotone(v.r, w.r, i, j);
    }
  }

  lemma ClampedOrEnd(m: Machine, k: nat, r: F64) returns (i: int)
    requires Sound(m)
    ensures -2147483648 <= ToE(m, k, r) <= 2147483647
    ensures EProduct(m, k, r).PosInf? ==> ToE(m, k, r) == 2147483647
    ensures EProduct(m, k, r).NegInf? ==> ToE(m, k, r) == -2147483648
    ensures EProduct(m, k, r).Fin? ==> IsNearestEven(EProduct(m, k, r).r, i) && ToE(m, k, r) == Clamp(i)
  {
    i := 0;
    if EProduct(m, k, r).Fin? {
      var v := EProduct(m, k, r).r;
      ProductIsDouble(m, k, r);
      RoundHalfEvenIsNearest(m.rnd, v);
      hide Representable, RoundHalfEven;
      i :| RoundHalfEven(m.rnd, v) == Fin(i as real) && IsNearestEven(v, i);
      ToEIsClampedRounding(m, k, r, i);
    }
  }

  // ----- the round trip -----

  /** `x` is within relative error `t` of `y`. */
  ghost predicate Close(x: real, y: real, t: real) {
    Abs(x - y) <= t * Abs(y)
  }

  lemma AbsOfProduct(x: real, y: real)
    ensures Abs(x * y) == Abs(x) * Abs(y)
  {
  }

  lemma AbsOfSum(x: real, y: real)
    ensures Abs(x + y) <= Abs(x) + Abs(y)
  {
  }

  lemma CloseScales(x: real, y: real, t: real, c: real)
    requires Close(x, y, t)
    ensures Close(x * c, y * c, t)
  {
    AbsOfProduct(x - y, c);
    AbsOfProduct(y, c);
    assert (x - y) * c == x * c - y * c;
    ScaleInequality(Abs(x - y), t * Abs(y), Abs(c));
    assert t * Abs(y) * Abs(c) == t * (Abs(y) * Abs(c));
  }

  lemma ScaleInequality(a: real, b: real, c: real)
    requires a <= b && c >= 0.0
    ensures a * c <= b * c && Product(a, c) <= Product(b, c)
  {
  }

  /** Errors add up, with a little slack for their product. */
  lemma CloseCompose(x: real, y: real, z: real, s: real, t: real)
    requires Close(x, y, s) && Close(y, z, t) && 0.0 <= s && 0.0 <= t <= 0.001
    ensures Close(x, z, t + 1.001 * s)
  {
    assert x - z == (x - y) + (y - z) && y == z + (y - z);
    AbsOfSum(x - y, y - z);
    AbsOfSum(z, y - z);
    hide Abs;
    ErrorSum(Abs(x - y), Abs(y), Abs(z), s, t);
  }

  lemma ErrorSum(a: real, y: real, b: real, s: real, t: real)
    requires 0.0 <= s && 0.0 <= t <= 0.001 && 0.0 <= b
    requires a <= s * y && y <= b + t * b
    ensures a + t * b <= (t + 1.001 * s) * b
  {
    ScaleInequality(t, 0.001, b);
    assert y <= 1.001 * b;
    ScaleInequality(y, 1.001 * b, s);
    assert y * s == s * y;
    Distribute(t, s, b);
  }

  lemma Distribute(t: real, s: real, b: real)
    ensures (t + 1.001 * s) * b == t * b + 1.001 * b * s
  {
  }

  /** One more rounding, on a moderate exact result. */
  lemma Rounded(rnd: real -> F64, x: real, y: real, t: real)
    requires Accurate(rnd) && Moderate(x) && Close(x, y, t) && 0.0 <= t <= 0.001
    ensures rnd(x).Fin? && Close(rnd(x).r, y, t + 1.001 * U)
  {
    CloseCompose(rnd(x).r, x, y, U, t);
  }

  lemma Widen(x: real, y: real, s: real, t: real)
    requires Close(x, y, s) && s <= t
    ensures Close(x, y, t)
  {
    ScaleInequality(s, t, Abs(y));
  }

  /** Closeness keeps numbers of ordinary size moderate. */
  lemma StaysModerate(x: real, y: real)
    requires Close(x, y, 0.001) && Ordinary(y)
    ensures Moderate(x)
  {
  }

  ghost predicate Ordinary(y: real) {
    y == 0.0 || 0.000000001 <= Abs(y) <= 1000000000000000.0
  }

  lemma TimesFinite(m: Machine, x: real, y: real)
    ensures Times(m, Fin(x), Fin(y)) == m.rnd(Product(x, y))
  {
  }

  /**
   One factor of the chain: the constant is off by a relative error of at most `s`, the product is
   rounded, and the true value stays of ordinary size.
   */
  lemma Factor(m: Machine, x: real, y: real, t: real, c: real, c': real, s: real)
    requires Accurate(m.rnd) && Close(x, y, t) && Close(c', c, s)
    requires 0.0 <= s <= U && 0.0 <= t <= 0.0001 && Ordinary(y * c)
    ensures Times(m, Fin(x), Fin(c')).Fin?
    ensures Close(Times(m, Fin(x), Fin(c')).r, y * c, t + 1.001 * s + 1.001 * U)
  {
    hide Close, Accurate, Moderate, Ordinary, Times;
    CloseScales(c', c, s, x);
    assert c' * x == x * c' && c * x == x * c;
    CloseScales(x, y, t, c);
    CloseCompose(x * c', x * c, y * c, s, t);
    Widen(x * c', y * c, t + 1.001 * s, 0.001);
    StaysModerate(x * c', y * c);
    Rounded(m.rnd, x * c', y * c, t + 1.001 * s);
    TimesFinite(m, x, c');
  }

  lemma ConstantClose(m: Machine, x: real)
    requires Accurate(m.rnd) && 0.0000001 <= x <= 100.0
    ensures m.rnd(x).Fin? && Close(m.rnd(x).r, x, U)
  {
    assert Moderate(x);
  }

  lemma ExactlyClose(x: real)
    ensures Close(x, x, 0.0)
  {
  }

  /** The size of the true products, and that they come back to the start. */
  lemma TrueProducts(n: int, ten: real, pi: real)
    requires -562949953421312 < n < 562949953421312
    requires ten == 100000.0 || ten == 1000000.0 || ten == 10000000.0
    requires 3.0 <= pi <= 4.0
    ensures var y := Product(n as real, 1.0 / ten);
      && Ordinary(n as real) && Ordinary(y) && Ordinary(Product(y, pi / 180.0))
      && Product(Product(y, pi / 180.0), 180.0 / pi) == y && Product(y, ten) == n as real
  {
    var y, b := Product(n as real, 1.0 / ten), pi / 180.0;
    FirstProduct(n as real, ten);
    Cancel(y, pi);
    assert 0.016 <= b <= 0.1;
    AbsOfProduct(y, b);
    assert Product(y, b) == y * b && Product(Abs(y), b) == Abs(y) * b;
    hide Product;
    if n != 0 {
      Bounds(Abs(y), b);
    }
  }

  lemma FirstProduct(x: real, ten: real)
    requires -562949953421312.0 < x < 562949953421312.0
    requires ten == 100000.0 || ten == 1000000.0 || ten == 10000000.0
    ensures Product(Product(x, 1.0 / ten), ten) == x
    ensures Abs(x) >= 1.0 ==> 0.0000001 <= Abs(Product(x, 1.0 / ten)) <= 10000000000.0
    ensures x == 0.0 ==> Product(x, 1.0 / ten) == 0.0
  {
    if ten == 100000.0 {
      assert Product(x, 1.0 / ten) == 0.00001 * x;
    } else if ten == 1000000.0 {
      assert Product(x, 1.0 / ten) == 0.000001 * x;
    } else {
      assert Product(x, 1.0 / ten) == 0.0000001 * x;
    }
  }

  lemma Bounds(a: real, b: real)
    requires 0.0000001 <= a <= 10000000000.0 && 0.016 <= b <= 0.1
    ensures 0.000000001 <= Product(a, b) <= 1000000000000.0
  {
    ScaleInequality(a, 10000000000.0, b);
    ScaleInequality(0.0000001, a, b);
    assert Product(10000000000.0, b) == 10000000000.0 * b && Product(0.0000001, b) == 0.0000001 * b;
    hide Product;
  }

  lemma Cancel(y: real, p: real)
    requires p > 0.0
    ensures Product(Product(y, p / 180.0), 180.0 / p) == y
  {
    var a, b := p / 180.0, 180.0 / p;
    Inverse(a, b, p);
    Associate(y, a, b);
    assert Product(y, 1.0) == y;
  }

  lemma Associate(x: real, y: real, z: real)
    ensures Product(Product(x, y), z) == Product(x, Product(y, z))
  {
  }

  lemma Inverse(a: real, b: real, p: real)
    requires p > 0.0 && a * 180.0 == p && b * p == 180.0
    ensures Product(a, b) == 1.0
  {
    assert Product(b, p) == 180.0;
    assert Product(b, a * 180.0) == 180.0 * Product(a, b);
  }

  /** The product that the E-form rounds is within 0.45 of the integer it came from. */
  lemma ProductIsNear(m: Machine, k: nat, n: int)
    requires 3.0 <= m.pi <= 4.0 && Accurate(m.rnd) && -562949953421312 < n < 562949953421312
    ensures EProduct(m, k, FromE(m, k, n)).Fin?
    ensures -0.45 < EProduct(m, k, FromE(m, k, n)).r - n as real < 0.45
  {
    hide Close, Accurate, Ordinary, Times;
    var ten, pi, x0 := TenTo(k), m.pi, n as real;
    var y := Product(x0, 1.0 / ten);
    TrueProducts(n, ten, pi);
    QuotientRange(180.0 / pi, pi);
    ConstantClose(m, 1.0 / ten);
    ConstantClose(m, pi / 180.0);
    ConstantClose(m, 180.0 / pi);
    hide TenTo, Product;
    var s, c, d := m.rnd(1.0 / ten).r, m.rnd(pi / 180.0).r, m.rnd(180.0 / pi).r;
    ChainOfFour(m, x0, y, Product(y, pi / 180.0), ten, 1.0 / ten, pi / 180.0, 180.0 / pi, s, c, d);
    NearInteger(EProduct(m, k, FromE(m, k, n)).r, n);
  }

  /** The four products of the round trip, with their three rounded constants. */
  lemma ChainOfFour(m: Machine, x0: real, y1: real, y2: real, ten: real,
                    a: real, b: real, e: real, a': real, b': real, e': real)
    requires Accurate(m.rnd) && Close(a', a, U) && Close(b', b, U) && Close(e', e, U)
    requires Product(x0, a) == y1 && Product(y1, b) == y2 && Product(y2, e) == y1 && Product(y1, ten) == x0
    requires Ordinary(x0) && Ordinary(y1) && Ordinary(y2)
    ensures var z := Times(m, Times(m, Times(m, Times(m, Fin(x0), Fin(a')), Fin(b')), Fin(e')), Fin(ten));
      z.Fin? && Close(z.r, x0, 7.007 * U)
  {
    ExactlyClose(x0);
    ExactlyClose(ten);
    hide Close, Accurate, Ordinary, Times;
    Factor(m, x0, x0, 0.0, a, a', U);
    var x1 := Times(m, Fin(x0), Fin(a')).r;
    Factor(m, x1, y1, 2.002 * U, b, b', U);
    var x2 := Times(m, Fin(x1), Fin(b')).r;
    Factor(m, x2, y2, 4.004 * U, e, e', U);
    var x3 := Times(m, Fin(x2), Fin(e')).r;
    Factor(m, x3, y1, 6.006 * U, ten, ten, 0.0);
  }

  lemma NearInteger(x: real, n: int)
    requires Close(x, n as real, 7.007 * U) && -562949953421312 < n < 562949953421312
    ensures -0.45 < x - n as real < 0.45
  {
    ScaleInequality(Abs(n as real), 562949953421312.0, 7.007 * U);
  }

  /** A value near an integer rounds to it, whatever the subtraction does to its fraction. */
  lemma RoundsToNear(rnd: real -> F64, v: real, n: int)
    requires Monotone(rnd) && ExactOnDoubles(rnd)
    requires -0.45 < v - n as real < 0.45 && -PRECISION < n < PRECISION
    ensures RoundHalfEven(rnd, v) == Fin(n as real)
  {
    HalvesRepresentable();
    assert rnd(0.46875) == Fin(0.46875) && rnd(0.53125) == Fin(0.53125);
    hide Representable, ExactOnDoubles;
    ExactInteger(rnd, n);
    if n as real <= v {
      assert v.Floor == n;
      assert LeqF(rnd(v - Floor(v)), rnd(0.46875));
    } else {
      assert v.Floor == n - 1;
      assert LeqF(rnd(0.53125), rnd(v - Floor(v)));
      assert Floor(v) + 1.0 == n as real;
    }
  }

  /**
   The E-form round trip, for any accurate arithmetic: the rounding of the product that comes back
   from `n` is `n` for every `n` below 2^49 in size, so every 32-bit integer survives.
   */
  lemma EFormRoundTrip(m: Machine, k: nat, n: int)
    requires 3.0 <= m.pi <= 4.0 && Monotone(m.rnd) && ExactOnDoubles(m.rnd) && Accurate(m.rnd)
    requires -562949953421312 < n < 562949953421312
    ensures EProduct(m, k, FromE(m, k, n)).Fin?
    ensures RoundHalfEven(m.rnd, EProduct(m, k, FromE(m, k, n)).r) == Fin(n as real)
    ensures -2147483648 <= n <= 2147483647 ==> ToE(m, k, FromE(m, k, n)) == n
  {
    hide Monotone, ExactOnDoubles, Accurate, RoundHalfEven, EProduct, FromE;
    ProductIsNear(m, k, n);
    RoundsToNear(m.rnd, EProduct(m, k, FromE(m, k, n)).r, n);
  }

  /** The hypotheses of the round trip are met, for one, by exact arithmetic. */
  lemma ExactArithmeticQualifies()
    ensures Monotone(x => Fin(x)) && ExactOnDoubles(x => Fin(x)) && Accurate(x => Fin(x))
  {
    hide Representable;
  }
}
