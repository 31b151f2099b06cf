/**
 Halving and adding in binary64: when both are exact, and when a rounded half is half the rounding.
 */
module Halving {
  import opened EForm
  import opened Binary64

  // ----- powers of two -----

  lemma {:induction false} Pow2Rises(e: nat, f: nat)
    requires e <= f
    ensures Pow2(e) <= Pow2(f)
    decreases f
  {
    if e < f {
      Pow2Rises(e, f - 1);
    }
  }

  lemma {:induction false} UlpTimes(a: nat, b: nat)
    ensures Ulp(a) * Pow2(a + b) as real == Pow2(b) as real
  {
    if a > 0 {
      UlpTimes(a - 1, b);
      HalfTimesTwice(Ulp(a - 1), Pow2(a - 1 + b));
    }
  }

  lemma HalfTimesTwice(u: real, p: int)
    ensures u / 2.0 * (2 * p) as real == u * p as real
  {
  }

  /** The largest double. */
  function LargestDouble(): real {
    Product((PRECISION - 1) as real, Pow2(971) as real)
  }

  /** Twice the smallest normal double. */
  const TWICE_SMALLEST: real := Ulp(1021)

  lemma LargestIsDouble()
    ensures Representable(LargestDouble())
  {
    hide Pow2;
    assert IsMultiple(LargestDouble(), PRECISION - 1, 971);
  }

  /** No double is larger. */
  lemma DoublesBounded(x: real)
    requires Representable(x)
    ensures Abs(x) <= LargestDouble()
  {
    if m: int, e: nat :| -PRECISION < m < PRECISION && e <= 1074 && IsScaled(x, m, e) {
      ScaledIsSmaller(x, m, Pow2(e));
      assert Pow2(971) >= 1;
      hide Pow2;
      MultipleBounded(m as real, m, 1, Pow2(971));
    } else {
      var m: int, e: nat :| -PRECISION < m < PRECISION && e <= 971 && IsMultiple(x, m, e);
      Pow2Rises(e, 971);
      hide Pow2;
      MultipleBounded(x, m, Pow2(e), Pow2(971));
    }
  }

  lemma MultipleBounded(x: real, m: int, p: int, q: int)
    requires x == (m * p) as real && -PRECISION < m < PRECISION && 1 <= p <= q
    ensures Abs(x) <= Product((PRECISION - 1) as real, q as real)
  {
    NonnegativeProduct(PRECISION - 1 - m, p);
    NonnegativeProduct(PRECISION - 1 + m, p);
    assert (PRECISION - 1 - m) * p == (PRECISION - 1) * p - m * p;
    assert (PRECISION - 1 + m) * p == (PRECISION - 1) * p + m * p;
  }

  lemma NonnegativeProduct(a: int, b: int)
    requires a >= 0 && b >= 0
    ensures a * b >= 0
  {
  }

  /** Up to the largest double nothing overflows. */
  lemma BoundedIsFinite(x: real)
    requires Abs(x) <= LargestDouble()
    ensures Round64(x).Fin?
  {
    LargestIsDouble();
    NegatedRepresentable(LargestDouble());
    Round64IsExactOnDoubles();
    hide Representable, Round64, LargestDouble;
    Round64Rises(x, LargestDouble());
    Round64Rises(-LargestDouble(), x);
  }

  // ----- half of a rounding -----

  lemma {:induction false} FineShift(x: real, e: nat, j: nat)
    requires 0.0 <= x && HALF as real <= x * Pow2(j) as real && j + e + 1 <= 1074
    ensures Fine(x, e).Fin? && Fine(x, e + 1) == Fin(Fine(x, e).r / 2.0)
    decreases j
  {
    hide NearestEven;
    if x < HALF as real {
      assert j > 0 && Pow2(j) == 2 * Pow2(j - 1);
      HalfTimesTwice(2.0 * x, Pow2(j - 1));
      FineShift(2.0 * x, e + 1, j - 1);
    } else {
      assert Product(NearestEven(x) as real, Ulp(e + 1)) == Product(NearestEven(x) as real, Ulp(e)) / 2.0;
    }
  }

  lemma {:induction false} CoarseShift(x: real, e: nat)
    requires 0.0 <= x && e <= 971 && Coarse(x, e + 1).Fin?
    ensures Coarse(x, e) == Fin(Coarse(x, e + 1).r / 2.0)
    decreases 972 - e
  {
    hide NearestEven;
    if x < PRECISION as real {
      var n := NearestEven(x);
      assert Pow2(e + 1) == 2 * Pow2(e);
      assert Product(n as real, Pow2(e + 1) as real) / 2.0 == Product(n as real, Pow2(e) as real);
    } else {
      CoarseShift(x / 2.0, e + 1);
    }
  }

  lemma MagnitudeHalves(s: real)
    requires TWICE_SMALLEST <= s && Magnitude(s).Fin?
    ensures Magnitude(s / 2.0) == Fin(Magnitude(s).r / 2.0)
  {
    if s < HALF as real {
      FineHalves(s);
    } else if s < PRECISION as real {
      SeamHalves(s);
    } else {
      hide Coarse;
      CoarseHalves(s);
    }
  }

  lemma {:induction false} FineHalves(s: real)
    requires TWICE_SMALLEST <= s < HALF as real
    ensures Fine(s, 0).Fin? && Fine(s / 2.0, 0) == Fin(Fine(s, 0).r / 2.0)
  {
    hide Pow2, Ulp;
    FineOnce(s / 2.0);
    hide Fine;
    assert 2.0 * (s / 2.0) == s && Ulp(1021) > 0.0;
    EnoughForHalf(s);
    FineShift(s, 0, 1073);
  }

  lemma {:induction false} FineOnce(x: real)
    requires x < HALF as real
    ensures Fine(x, 0) == Fine(2.0 * x, 1)
  {
  }

  lemma {:induction false} SeamHalves(s: real)
    requires HALF as real <= s < PRECISION as real
    ensures Coarse(s, 0).Fin? && Fine(s / 2.0, 0) == Fin(Coarse(s, 0).r / 2.0)
  {
    hide NearestEven;
    assert Ulp(0) == 1.0 && Ulp(1) == 0.5 && Pow2(0) == 1;
    FineOnce(s / 2.0);
    assert 2.0 * (s / 2.0) == s;
    assert Coarse(s, 0) == Fin(Product(NearestEven(s) as real, 1.0));
    assert Fine(s, 1) == Fin(Product(NearestEven(s) as real, 0.5));
  }

  lemma {:induction false} CoarseHalves(s: real)
    requires PRECISION as real <= s && Coarse(s, 0).Fin?
    ensures Coarse(s / 2.0, 0) == Fin(Coarse(s, 0).r / 2.0)
  {
    assert Coarse(s, 0) == Coarse(s / 2.0, 1);
    hide Coarse;
    CoarseShift(s / 2.0, 0);
  }

  lemma EnoughForHalf(s: real)
    requires TWICE_SMALLEST <= s
    ensures HALF as real <= s * Pow2(1073) as real
  {
    hide Pow2, Ulp;
    UlpTimes(1021, 52);
    Pow2At54();
    ScaleInequality(Ulp(1021), s, Pow2(1073) as real);
  }

  /** Away from the smallest numbers half of a rounding is the rounding of the half. */
  lemma {:induction false} HalfRounds(s: real)
    requires TWICE_SMALLEST <= Abs(s) && Round64(s).Fin?
    ensures Round64(s / 2.0) == Fin(Round64(s).r / 2.0)
  {
    assert Ulp(1021) > 0.0;
    hide Magnitude, Ulp;
    MagnitudeHalves(Abs(s));
  }

  /** There a double's half is a double. */
  lemma HalfIsDouble(x: real)
    requires Representable(x) && TWICE_SMALLEST <= Abs(x)
    ensures Representable(x / 2.0)
  {
    Round64IsExactOnDoubles();
    Round64GivesDoubles();
    hide Representable, Round64;
    HalfRounds(x);
  }

  // ----- sums -----

  /** Every double is a multiple of the smallest one. */
  lemma MultipleOfLeast(x: real) returns (k: int)
    requires Representable(x)
    ensures IsScaled(x, k, 1074)
  {
    if m: int, e: nat :| -PRECISION < m < PRECISION && e <= 1074 && IsScaled(x, m, e) {
      k := Refined(x, m, e, 1074);
    } else {
      var m: int, e: nat :| -PRECISION < m < PRECISION && e <= 971 && IsMultiple(x, m, e);
      k := m * Pow2(e) * Pow2(1074);
      hide Pow2;
      WholeMultiple(x, m * Pow2(e), Pow2(1074));
    }
  }

  lemma WholeMultiple(x: real, n: int, q: int)
    requires x == n as real
    ensures x * q as real == (n * q) as real
  {
  }

  /** Among the smallest numbers sums are exact. */
  lemma SmallSumIsDouble(a: real, b: real)
    requires Representable(a) && Representable(b) && Abs(a + b) < TWICE_SMALLEST
    ensures Representable(a + b)
  {
    hide Pow2, Ulp, Representable;
    var k := MultipleOfLeast(a);
    var l := MultipleOfLeast(b);
    UlpTimes(1021, 53);
    Pow2At54();
    SumScaled(a, b, Pow2(1074) as real, k, l);
    SmallScaled(a + b, Ulp(1021), Pow2(1074) as real, k + l);
    ScaledIsDouble(a + b, k + l, 1074);
  }

  lemma {:induction false} ScaledIsDouble(x: real, m: int, e: nat)
    requires -PRECISION < m < PRECISION && e <= 1074 && x * Pow2(e) as real == m as real
    ensures Representable(x)
  {
    assert IsScaled(x, m, e);
  }

  lemma SumScaled(a: real, b: real, p: real, k: int, l: int)
    requires a * p == k as real && b * p == l as real
    ensures (a + b) * p == (k + l) as real
  {
  }

  lemma SmallScaled(x: real, u: real, p: real, n: int)
    requires p > 0.0 && Abs(x) < u && u * p == PRECISION as real && x * p == n as real
    ensures -PRECISION < n < PRECISION
  {
    StrictScale(x, u, p);
    StrictScale(-u, x, p);
    assert -u * p == -(u * p);
  }

  /** A large double absorbs what is less than a quarter. */
  lemma LargeAbsorbs(y: real, delta: real)
    requires Representable(y) && Abs(y) >= 2.0 * PRECISION as real && Abs(delta) < 0.25 && Round64(y + delta).Fin?
    ensures Round64(y + delta) == Fin(y)
  {
    hide Representable, Round64;
    var r := Round64(y + delta).r;
    Round64IsNearest(y + delta, y);
    NearLarge(y, delta, r);
    LargeIsInteger(y);
    LargeIsInteger(r);
    CloseIntegers(y.Floor, r.Floor);
  }

  lemma NearLarge(y: real, delta: real, r: real)
    requires Abs(y) >= 2.0 * PRECISION as real && Abs(delta) < 0.25 && Abs(r - (y + delta)) <= Abs(y - (y + delta))
    ensures Abs(r - y) < 1.0 && !(-PRECISION as real < r < PRECISION as real)
  {
  }

  lemma CloseIntegers(m: int, n: int)
    requires Abs(n as real - m as real) < 1.0
    ensures m == n
  {
  }
}
