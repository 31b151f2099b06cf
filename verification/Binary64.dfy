/**
 Binary64 itself: the nearest double to a real, ties to even, with overflow to infinity. It has
 every property that the E-form proofs ask of an arithmetic, so they hold of the machine's own.
 */
module Binary64 {
  import opened EForm

  const HALF: int := 4503599627370496

  /** Two to the minus `e`. */
  function Ulp(e: nat): (u: real)
    ensures u > 0.0
  {
    if e == 0 then 1.0 else Ulp(e - 1) / 2.0
  }

  /** A magnitude scaled up by 2^e: scale until it has 53 bits or the exponent range ends, and round. */
  function Fine(x: real, e: nat): F64
    requires e <= 1074
    decreases 1074 - e
  {
    if x >= HALF as real || e == 1074 then Fin(Product(NearestEven(x) as real, Ulp(e)))
    else Fine(2.0 * x, e + 1)
  }

  /** A magnitude scaled down by 2^e, likewise. */
  function Coarse(x: real, e: nat): F64
    requires e <= 972
    decreases 972 - e
  {
    if e == 972 then PosInf
    else if x < PRECISION as real then Stored(NearestEven(x), e)
    else Coarse(x / 2.0, e + 1)
  }

  function Stored(n: int, e: nat): F64 {
    if e == 971 && n == PRECISION then PosInf else Fin(Product(n as real, Pow2(e) as real))
  }

  function Magnitude(x: real): F64 {
    if x < HALF as real then Fine(x, 0) else Coarse(x, 0)
  }

  function Negated(a: F64): F64 {
    match a
    case Fin(r) => Fin(-r)
    case PosInf => NegInf
    case NegInf => PosInf
    case NaN => NaN
  }

  /** Rounding to nearest, ties to even (IEEE 754-2019, section 4.3.1). */
  function Round64(x: real): F64 {
    if x < 0.0 then Negated(Magnitude(-x)) else Magnitude(x)
  }

  lemma NearestOfInteger(n: int)
    ensures NearestEven(n as real) == n
  {
  }

  lemma NearestInRange(x: real, lo: int, hi: int)
    requires lo as real <= x <= hi as real
    ensures lo <= NearestEven(x) <= hi
  {
  }

  /** No integer is closer. */
  lemma NoCloserInteger(x: real, k: int)
    ensures Abs(NearestEven(x) as real - x) <= Abs(k as real - x) && Abs(NearestEven(x) as real - x) <= 0.5
  {
    NearestEvenIs(x);
    hide NearestEven;
    assert k == NearestEven(x) || k <= NearestEven(x) - 1 || k >= NearestEven(x) + 1;
  }

  lemma NearestRises(x: real, y: real)
    requires x <= y
    ensures NearestEven(x) <= NearestEven(y)
  {
    NearestEvenIs(x);
    NearestEvenIs(y);
    NearestIsMonotone(x, y, NearestEven(x), NearestEven(y));
  }

  lemma ScaleAbs(a: real, b: real, x: real, c: real)
    requires Abs(a - x) <= Abs(b - x) && c > 0.0
    ensures Abs(Product(a, c) - Product(x, c)) <= Abs(Product(b, c) - Product(x, c))
  {
    AbsOfProduct(a - x, c);
    AbsOfProduct(b - x, c);
    assert (a - x) * c == a * c - x * c && (b - x) * c == b * c - x * c;
    ScaleInequality(Abs(a - x), Abs(b - x), c);
  }

  // ----- order -----

  lemma {:induction false} FineAtMost(x: real, e: nat)
    requires 0.0 <= x <= PRECISION as real && e <= 1074
    ensures Fine(x, e).Fin? && 0.0 <= Fine(x, e).r <= Product(PRECISION as real, Ulp(e))
    decreases 1074 - e
  {
    hide NearestEven;
    if x >= HALF as real || e == 1074 {
      NearestInRange(x, 0, PRECISION);
      ScaleInequality(0.0, NearestEven(x) as real, Ulp(e));
      ScaleInequality(NearestEven(x) as real, PRECISION as real, Ulp(e));
    } else {
      FineAtMost(2.0 * x, e + 1);
    }
  }

  lemma {:induction false} FineRises(x: real, y: real, e: nat)
    requires 0.0 <= x <= y <= PRECISION as real && e <= 1074
    ensures LeqF(Fine(x, e), Fine(y, e))
    decreases 1074 - e
  {
    hide NearestEven;
    if x >= HALF as real || e == 1074 {
      NearestRises(x, y);
      ScaleInequality(NearestEven(x) as real, NearestEven(y) as real, Ulp(e));
    } else if y >= HALF as real {
      FineAtMost(2.0 * x, e + 1);
      NearestInRange(y, HALF, PRECISION);
      ScaleInequality(HALF as real, NearestEven(y) as real, Ulp(e));
    } else {
      FineRises(2.0 * x, 2.0 * y, e + 1);
    }
  }

  lemma {:induction false} CoarseAtLeast(x: real, e: nat)
    requires HALF as real <= x && e <= 972
    ensures Coarse(x, e) == PosInf || (Coarse(x, e).Fin? && Coarse(x, e).r >= Product(HALF as real, Pow2(e) as real))
    decreases 972 - e
  {
    hide NearestEven;
    if e < 972 {
      if x < PRECISION as real {
        NearestInRange(x, HALF, PRECISION);
        ScaleInequality(HALF as real, NearestEven(x) as real, Pow2(e) as real);
      } else {
        CoarseAtLeast(x / 2.0, e + 1);
      }
    }
  }

  lemma {:induction false} CoarseRises(x: real, y: real, e: nat)
    requires HALF as real <= x <= y && e <= 972
    ensures LeqF(Coarse(x, e), Coarse(y, e))
    decreases 972 - e
  {
    hide NearestEven;
    if e < 972 {
      if y < PRECISION as real {
        NearestRises(x, y);
        NearestInRange(y, HALF, PRECISION);
        ScaleInequality(NearestEven(x) as real, NearestEven(y) as real, Pow2(e) as real);
      } else if x < PRECISION as real {
        NearestInRange(x, HALF, PRECISION);
        ScaleInequality(NearestEven(x) as real, PRECISION as real, Pow2(e) as real);
        CoarseAtLeast(y / 2.0, e + 1);
      } else {
        CoarseRises(x / 2.0, y / 2.0, e + 1);
      }
    }
  }

  lemma MagnitudeRises(x: real, y: real)
    requires 0.0 <= x <= y
    ensures LeqF(Fin(0.0), Magnitude(x)) && LeqF(Magnitude(x), Magnitude(y))
  {
    hide Coarse;
    if x < HALF as real {
      FineAtMost(x, 0);
      FineAtMost(2.0 * x, 1);
    } else {
      CoarseAtLeast(x, 0);
    }
    if y < HALF as real {
      FineRises(x, y, 0);
    } else {
      CoarseAtLeast(y, 0);
      if x >= HALF as real {
        CoarseRises(x, y, 0);
      }
    }
  }

  lemma Round64Rises(x: real, y: real)
    requires x <= y
    ensures LeqF(Round64(x), Round64(y))
  {
    hide Magnitude;
    if x >= 0.0 {
      MagnitudeRises(x, y);
    } else if y >= 0.0 {
      MagnitudeRises(-x, -x);
      MagnitudeRises(y, y);
    } else {
      MagnitudeRises(-y, -x);
    }
  }

  lemma Round64IsMonotone()
    ensures Monotone(Round64)
  {
    hide Round64, LeqF;
    forall x, y | x <= y ensures LeqF(Round64(x), Round64(y)) {
      Round64Rises(x, y);
    }
  }

  // ----- doubles stay as they are -----

  lemma {:induction false} WholeIfLarge(x: real, m: int, j: nat)
    requires x >= HALF as real && x * Pow2(j) as real == m as real && m < PRECISION
    ensures j == 0 && x == m as real
  {
    if j > 0 {
      assert Pow2(j) == 2 * Pow2(j - 1);
      ScaleInequality(HALF as real, x, Pow2(j) as real);
    }
  }

  lemma {:induction false} FineExact(x: real, e: nat, m: int, j: nat)
    requires 0.0 <= x < PRECISION as real && 0 <= m < PRECISION && j + e <= 1074
    requires x * Pow2(j) as real == m as real
    ensures Fine(x, e) == Fin(Product(x, Ulp(e)))
    decreases 1074 - e
  {
    hide NearestEven;
    if x >= HALF as real || e == 1074 {
      if x >= HALF as real {
        WholeIfLarge(x, m, j);
      }
      NearestOfInteger(m);
    } else {
      if j > 0 {
        DoubledScale(x, Pow2(j - 1));
        FineExact(2.0 * x, e + 1, m, j - 1);
      } else {
        FineExact(2.0 * x, e + 1, 2 * m, 0);
      }
      DoubledProduct(x, Ulp(e));
    }
  }

  lemma DoubledProduct(x: real, u: real)
    ensures Product(2.0 * x, u / 2.0) == Product(x, u)
  {
  }

  lemma DoubledScale(x: real, p: int)
    ensures 2.0 * x * p as real == x * (2 * p) as real
  {
  }

  lemma HalveMultiple(x: real, m: int, j: nat)
    requires PRECISION as real <= x && m < PRECISION && x == (m * Pow2(j)) as real
    ensures j > 0 && x / 2.0 == (m * Pow2(j - 1)) as real
  {
    if j > 0 {
      assert m * Pow2(j) == 2 * (m * Pow2(j - 1));
    }
  }

  lemma HalvedProduct(x: real, p: int)
    ensures Product(x / 2.0, (2 * p) as real) == Product(x, p as real)
  {
  }

  lemma {:induction false} CoarseExact(x: real, e: nat, m: int, j: nat)
    requires HALF as real <= x && 0 <= m < PRECISION && j + e <= 971
    requires x == (m * Pow2(j)) as real
    ensures Coarse(x, e) == Fin(Product(x, Pow2(e) as real))
    decreases 972 - e
  {
    hide NearestEven;
    if x < PRECISION as real {
      hide Pow2;
      NearestOfInteger(m * Pow2(j));
    } else {
      HalveMultiple(x, m, j);
      CoarseExact(x / 2.0, e + 1, m, j - 1);
      HalvedProduct(x, Pow2(e));
    }
  }

  lemma MagnitudeExact(x: real)
    requires Representable(x) && x >= 0.0
    ensures Magnitude(x) == Fin(x)
  {
    hide Fine, Coarse;
    assert Pow2(0) == 1 && Ulp(0) == 1.0;
    if m: int, e: nat :| -PRECISION < m < PRECISION && e <= 1074 && IsScaled(x, m, e) {
      ScaledIsSmaller(x, m, Pow2(e));
      ScaleInequality(0.0, x, Pow2(e) as real);
      if x < HALF as real {
        FineExact(x, 0, m, e);
      } else {
        WholeIfLarge(x, m, e);
        CoarseExact(x, 0, m, 0);
      }
    } else {
      var m: int, e: nat :| -PRECISION < m < PRECISION && e <= 971 && IsMultiple(x, m, e);
      NonnegativeFactor(m, Pow2(e));
      if x < HALF as real {
        FineExact(x, 0, m * Pow2(e), 0);
      } else {
        CoarseExact(x, 0, m, e);
      }
    }
  }

  lemma NonnegativeFactor(m: int, p: int)
    requires p >= 1 && m * p >= 0
    ensures m >= 0
  {
  }

  lemma NegatedRepresentable(x: real)
    requires Representable(x)
    ensures Representable(-x)
  {
    if m: int, e: nat :| -PRECISION < m < PRECISION && e <= 1074 && IsScaled(x, m, e) {
      assert IsScaled(-x, -m, e);
    } else {
      var m: int, e: nat :| -PRECISION < m < PRECISION && e <= 971 && IsMultiple(x, m, e);
      assert -m * Pow2(e) == -(m * Pow2(e));
      assert IsMultiple(-x, -m, e);
    }
  }

  lemma Round64IsExactOnDoubles()
    ensures ExactOnDoubles(Round64)
  {
    forall x | Representable(x) ensures Round64(x) == Fin(x) {
      hide Magnitude, Representable;
      if x < 0.0 {
        NegatedRepresentable(x);
        MagnitudeExact(-x);
      } else {
        MagnitudeExact(x);
      }
    }
  }

  // ----- results are doubles -----

  lemma {:induction false} UlpPow(e: nat)
    ensures Ulp(e) * Pow2(e) as real == 1.0
  {
    if e > 0 {
      UlpPow(e - 1);
      assert Ulp(e) * Pow2(e) as real == Ulp(e - 1) / 2.0 * (2.0 * Pow2(e - 1) as real);
    }
  }

  lemma {:induction false} FineValueRepresentable(n: int, e: nat)
    requires 0 <= n <= PRECISION && e <= 1074
    ensures Representable(Product(n as real, Ulp(e)))
  {
    if n < PRECISION {
      UlpPow(e);
      assert n as real * Ulp(e) * Pow2(e) as real == n as real * (Ulp(e) * Pow2(e) as real);
      assert IsScaled(Product(n as real, Ulp(e)), n, e);
    } else if e == 0 {
      assert Pow2(1) == 2;
      assert IsMultiple(PRECISION as real, HALF, 1);
    } else {
      assert Product(n as real, Ulp(e)) == Product(HALF as real, Ulp(e - 1));
      FineValueRepresentable(HALF, e - 1);
    }
  }

  lemma {:induction false} FineGivesDouble(x: real, e: nat)
    requires 0.0 <= x <= PRECISION as real && e <= 1074
    ensures Fine(x, e).Fin? && Representable(Fine(x, e).r)
    decreases 1074 - e
  {
    hide NearestEven, Representable;
    if x >= HALF as real || e == 1074 {
      NearestInRange(x, 0, PRECISION);
      FineValueRepresentable(NearestEven(x), e);
    } else {
      FineGivesDouble(2.0 * x, e + 1);
    }
  }

  lemma StoredRepresentable(n: int, e: nat)
    requires 0 <= n <= PRECISION && e <= 971
    ensures Stored(n, e).Fin? ==> Representable(Stored(n, e).r)
  {
    if n < PRECISION {
      assert IsMultiple(Product(n as real, Pow2(e) as real), n, e);
    } else if e < 971 {
      assert PRECISION * Pow2(e) == HALF * Pow2(e + 1);
      assert IsMultiple(Product(n as real, Pow2(e) as real), HALF, e + 1);
    }
  }

  lemma {:induction false} CoarseGivesDouble(x: real, e: nat)
    requires 0.0 <= x && e <= 972
    ensures Coarse(x, e).Fin? ==> Representable(Coarse(x, e).r)
    decreases 972 - e
  {
    hide NearestEven, Representable, Stored;
    if e < 972 {
      if x < PRECISION as real {
        NearestInRange(x, 0, PRECISION);
        StoredRepresentable(NearestEven(x), e);
      } else {
        CoarseGivesDouble(x / 2.0, e + 1);
      }
    }
  }

  lemma Round64GivesDoubles()
    ensures GivesDoubles(Round64)
  {
    forall x | Round64(x).Fin? ensures Representable(Round64(x).r) {
      hide Fine, Coarse, Representable;
      var y := if x < 0.0 then -x else x;
      if y < HALF as real {
        FineGivesDouble(y, 0);
      } else {
        CoarseGivesDouble(y, 0);
      }
      if x < 0.0 && Magnitude(y).Fin? {
        NegatedRepresentable(Magnitude(y).r);
      }
    }
  }

  // ----- accuracy -----

  lemma RelativeError(x: real, c: real)
    requires HALF as real <= x && c > 0.0
    ensures Abs(Product(NearestEven(x) as real, c) - Product(x, c)) <= U * Product(x, c)
  {
    NoCloserInteger(x, 0);
    hide NearestEven;
    var n := NearestEven(x) as real;
    AbsOfProduct(n - x, c);
    assert (n - x) * c == n * c - x * c;
    assert Abs(n - x) <= U * x;
    ScaleInequality(Abs(n - x), U * x, c);
    assert U * x * c == U * (x * c);
  }

  lemma {:induction false} FineAccurate(x: real, e: nat, j: nat)
    requires 0.0 <= x && HALF as real <= x * Pow2(j) as real && j + e <= 1074
    ensures Fine(x, e).Fin? && Abs(Fine(x, e).r - Product(x, Ulp(e))) <= U * Product(x, Ulp(e))
    decreases 1074 - e
  {
    hide NearestEven, Abs;
    if x >= HALF as real || e == 1074 {
      RelativeError(x, Ulp(e));
    } else {
      assert j > 0 && Pow2(j) == 2 * Pow2(j - 1);
      assert 2.0 * x * Pow2(j - 1) as real == x * Pow2(j) as real;
      FineAccurate(2.0 * x, e + 1, j - 1);
      assert Product(2.0 * x, Ulp(e + 1)) == Product(x, Ulp(e));
    }
  }

  lemma {:induction false} CoarseAccurate(x: real, e: nat, j: nat)
    requires HALF as real <= x < PRECISION as real * Pow2(j) as real && j + e <= 970
    ensures Coarse(x, e).Fin? && Abs(Coarse(x, e).r - Product(x, Pow2(e) as real)) <= U * Product(x, Pow2(e) as real)
    decreases 972 - e
  {
    hide NearestEven, Abs;
    if x < PRECISION as real {
      RelativeError(x, Pow2(e) as real);
    } else {
      assert j > 0 && Pow2(j) == 2 * Pow2(j - 1);
      CoarseAccurate(x / 2.0, e + 1, j - 1);
      assert Product(x / 2.0, Pow2(e + 1) as real) == Product(x, Pow2(e) as real);
    }
  }

  lemma Pow2At90()
    ensures Pow2(90) >= 1000000000000000000000000000
  {
    Pow2At54();
    assert Pow2(58) == 288230376151711744;
    assert Pow2(62) == 4611686018427387904;
    assert Pow2(66) == 73786976294838206464;
    assert Pow2(70) == 1180591620717411303424;
    assert Pow2(74) == 18889465931478580854784;
    assert Pow2(78) == 302231454903657293676544;
    assert Pow2(82) == 4835703278458516698824704;
    assert Pow2(86) == 77371252455336267181195264;
  }

  lemma MagnitudeAccurate(x: real)
    requires 0.0000000001 <= x <= 10000000000000000.0
    ensures Magnitude(x).Fin? && Abs(Magnitude(x).r - x) <= U * x
  {
    assert Pow2(0) == 1 && Ulp(0) == 1.0 && Pow2(1) == 2;
    hide Fine, Coarse, Pow2, Ulp, Abs;
    ProductOne(x);
    if x < HALF as real {
      EnoughDoublings(x);
      FineAccurate(x, 0, 90);
    } else {
      CoarseAccurate(x, 0, 1);
    }
  }

  lemma ProductOne(x: real)
    ensures Product(x, 1.0) == x
  {
  }

  lemma EnoughDoublings(x: real)
    requires 0.0000000001 <= x
    ensures HALF as real <= x * Pow2(90) as real
  {
    Pow2At90();
    hide Pow2;
    ScaleInequality(0.0000000001, x, Pow2(90) as real);
  }

  lemma Round64IsAccurate()
    ensures Accurate(Round64)
  {
    forall x | Moderate(x) ensures Round64(x).Fin? && Abs(Round64(x).r - x) <= U * Abs(x) {
      if x == 0.0 {
        IntegersRepresentable(0);
        MagnitudeExact(0.0);
      } else {
        hide Magnitude;
        MagnitudeAccurate(Abs(x));
      }
    }
  }

  // ----- the nearest double -----

  /** No real of the half-open binade of `x`, and none outside it, that is a double is closer. */
  lemma {:induction false} FineNearest(x: real, y: real, e: nat)
    requires 0.0 <= x < PRECISION as real && 0.0 <= y && e <= 1074
    requires y < PRECISION as real ==> Fine(y, e) == Fin(Product(y, Ulp(e)))
    ensures Fine(x, e).Fin?
    ensures Abs(Fine(x, e).r - Product(x, Ulp(e))) <= Abs(Product(y, Ulp(e)) - Product(x, Ulp(e)))
    decreases 1074 - e
  {
    hide NearestEven, Abs;
    if x >= HALF as real || e == 1074 {
      FineBinade(x, y, e);
      ScaleAbs(NearestEven(x) as real, y, x, Ulp(e));
    } else {
      DoubledProduct(x, Ulp(e));
      DoubledProduct(y, Ulp(e));
      FineNearest(2.0 * x, 2.0 * y, e + 1);
    }
  }

  lemma CancelUlp(n: int, y: real, u: real)
    requires Product(n as real, u) == Product(y, u) && u > 0.0
    ensures y == n as real
  {
    if n as real < y {
      StrictScale(n as real, y, u);
    } else if y < n as real {
      StrictScale(y, n as real, u);
    }
  }

  lemma StrictScale(a: real, b: real, u: real)
    requires a < b && u > 0.0
    ensures Product(a, u) < Product(b, u)
  {
  }

  /** Around the last scaling step the doubles are integers, or lie beyond the integers at its ends. */
  lemma {:induction false} FineBinade(x: real, y: real, e: nat)
    requires 0.0 <= x < PRECISION as real && 0.0 <= y && e <= 1074 && (x >= HALF as real || e == 1074)
    requires y < PRECISION as real ==> Fine(y, e) == Fin(Product(y, Ulp(e)))
    ensures Abs(NearestEven(x) as real - x) <= Abs(y - x)
  {
    hide NearestEven, Ulp;
    if y >= PRECISION as real {
      NoCloserInteger(x, PRECISION);
    } else if y >= HALF as real || e == 1074 {
      CancelUlp(NearestEven(y), y, Ulp(e));
      NoCloserInteger(x, NearestEven(y));
    } else {
      NoCloserInteger(x, HALF);
    }
  }

  lemma {:induction false} CoarseNearest(x: real, y: real, e: nat)
    requires HALF as real <= x && 0.0 <= y && e <= 971 && Coarse(x, e).Fin?
    requires y >= HALF as real ==> Coarse(y, e) == Fin(Product(y, Pow2(e) as real))
    ensures Abs(Coarse(x, e).r - Product(x, Pow2(e) as real)) <= Abs(Product(y, Pow2(e) as real) - Product(x, Pow2(e) as real))
    decreases 972 - e
  {
    hide NearestEven, Abs;
    if x < PRECISION as real {
      CoarseBinade(x, y, e);
      ScaleAbs(NearestEven(x) as real, y, x, Pow2(e) as real);
    } else {
      HalvedProduct(x, Pow2(e));
      HalvedProduct(y, Pow2(e));
      CoarseNearest(x / 2.0, y / 2.0, e + 1);
    }
  }

  lemma {:induction false} CoarseBinade(x: real, y: real, e: nat)
    requires HALF as real <= x < PRECISION as real && 0.0 <= y && e <= 971
    requires y >= HALF as real ==> Coarse(y, e) == Fin(Product(y, Pow2(e) as real))
    ensures Abs(NearestEven(x) as real - x) <= Abs(y - x)
  {
    hide NearestEven, Pow2;
    if y >= PRECISION as real {
      NoCloserInteger(x, PRECISION);
    } else if y >= HALF as real {
      CancelUlp(NearestEven(y), y, Pow2(e) as real);
      NoCloserInteger(x, NearestEven(y));
    } else {
      NoCloserInteger(x, HALF);
    }
  }

  lemma MagnitudeNearest(x: real, y: real)
    requires 0.0 <= x && 0.0 <= y && Representable(y) && Magnitude(x).Fin?
    ensures Abs(Magnitude(x).r - x) <= Abs(y - x)
  {
    MagnitudeExact(y);
    assert Pow2(0) == 1 && Ulp(0) == 1.0;
    hide Representable, NearestEven;
    assert Product(x, 1.0) == x && Product(y, 1.0) == y;
    if x < HALF as real {
      FineAcross(y);
      FineNearest(x, y, 0);
    } else {
      CoarseNearest(x, y, 0);
    }
  }

  /** On doubles of 53 whole bits the two scalings agree. */
  lemma {:induction false} FineAcross(y: real)
    requires 0.0 <= y && Magnitude(y) == Fin(y)
    ensures y < PRECISION as real ==> Fine(y, 0) == Fin(y)
  {
    assert Pow2(0) == 1 && Ulp(0) == 1.0;
  }

  /** A finite result is a double to which no double is closer. */
  lemma Round64IsNearest(x: real, y: real)
    requires Round64(x).Fin? && Representable(y)
    ensures Representable(Round64(x).r) && Abs(Round64(x).r - x) <= Abs(y - x)
  {
    Round64GivesDoubles();
    IntegersRepresentable(0);
    NegatedRepresentable(y);
    hide Magnitude, Representable;
    if x >= 0.0 {
      MagnitudeNearest(x, if y >= 0.0 then y else 0.0);
    } else {
      MagnitudeNearest(-x, if y <= 0.0 then -y else 0.0);
    }
  }

  // ----- the E-forms of the machine -----

  /** The library's arithmetic: binary64, with pi as `std::f64::consts::PI` stores it. */
  function Doubles(): Machine {
    Machine(Round64, 884279719003555.0 / 281474976710656.0)
  }

  /** In binary64 every theorem about the E-forms applies. */
  lemma Binary64IsSound()
    ensures Sound(Doubles()) && Accurate(Doubles().rnd)
  {
    hide Round64, Monotone, ExactOnDoubles, GivesDoubles, Accurate;
    Round64IsMonotone();
    Round64IsExactOnDoubles();
    Round64GivesDoubles();
    Round64IsAccurate();
  }

  /** Every 32-bit E-form, taken to radians and back, is itself. */
  lemma EveryEFormSurvives(k: nat, n: int)
    requires -2147483648 <= n <= 2147483647
    ensures ToE(Doubles(), k, FromE(Doubles(), k, n)) == n
  {
    hide ToE, FromE, Sound, Accurate, Monotone, ExactOnDoubles;
    Binary64IsSound();
    SoundParts(Doubles());
    EFormRoundTrip(Doubles(), k, n);
  }

  /** The E-form of an angle never falls as the angle grows, and is the clamped nearest integer. */
  lemma EFormsInBinary64(k: nat, r: F64, s: F64)
    ensures LeqF(r, s) ==> ToE(Doubles(), k, r) <= ToE(Doubles(), k, s)
    ensures EProduct(Doubles(), k, r).Fin? ==>
      ToE(Doubles(), k, r) == Clamp(NearestEven(EProduct(Doubles(), k, r).r))
  {
    hide ToE, EProduct, Sound, Accurate, LeqF, NearestEven;
    Binary64IsSound();
    SoundParts(Doubles());
    if LeqF(r, s) {
      ToEIsMonotone(Doubles(), k, r, s);
    }
    if EProduct(Doubles(), k, r).Fin? {
      var v := EProduct(Doubles(), k, r).r;
      NearestEvenIs(v);
      ToEIsClampedRounding(Doubles(), k, r, NearestEven(v));
    }
  }

  // ----- a subtraction that rounds -----

  /** A magnitude that takes `j` doublings to reach 53 bits, or the end of the range, where it is `z`. */
  lemma {:induction false} FineReaches(x: real, e: nat, j: nat, z: real)
    requires j + e <= 1074 && z == x * Pow2(j) as real && z < PRECISION as real && 0.0 <= x
    requires HALF as real <= z || j + e == 1074
    ensures Fine(x, e) == Fin(Product(NearestEven(z) as real, Ulp(e + j)))
    decreases 1074 - e
  {
    hide NearestEven;
    if x >= HALF as real || e == 1074 {
      if j > 0 {
        DoublingsLeft(x, j);
      }
    } else {
      assert j > 0 && Pow2(j) == 2 * Pow2(j - 1);
      assert 2.0 * x * Pow2(j - 1) as real == z;
      hide Pow2;
      FineReaches(2.0 * x, e + 1, j - 1, z);
    }
  }

  lemma {:induction false} DoublingsLeft(x: real, j: nat)
    requires j > 0 && x * Pow2(j) as real < PRECISION as real
    ensures x < HALF as real
  {
    assert Pow2(j) == 2 * Pow2(j - 1);
    if x >= HALF as real {
      ScaleInequality(HALF as real, x, Pow2(j) as real);
    }
  }

  lemma RoundsToOneIff(x: real)
    requires 0.5 <= x < 1.0
    ensures Round64(x) == Fin(1.0) <==> x * PRECISION as real >= PRECISION as real - 0.5
  {
    hide Fine, NearestEven, Product;
    var z := x * PRECISION as real;
    TopDouble();
    BelowOne(x, z);
    TopIff(z);
    if Product(NearestEven(z) as real, Ulp(53)) == 1.0 {
      CancelUlp(NearestEven(z), PRECISION as real, Ulp(53));
    }
  }

  lemma TopDouble()
    ensures Product(PRECISION as real, Ulp(53)) == 1.0
  {
    Pow2At54();
    UlpPow(53);
  }

  lemma BelowOne(x: real, z: real)
    requires 0.5 <= x < 1.0 && z == x * PRECISION as real
    ensures Round64(x) == Fin(Product(NearestEven(z) as real, Ulp(53)))
  {
    Pow2At54();
    hide Fine, NearestEven, Pow2, Ulp, Product;
    FineReaches(x, 0, 53, z);
  }

  lemma TopIff(z: real)
    requires z < PRECISION as real
    ensures NearestEven(z) == PRECISION <==> z >= PRECISION as real - 0.5
  {
  }

  /**
   Where the reference description's remark that the fraction is below one fails of its own
   subtraction: exactly from -2^-54 up to zero.
   */
  lemma FractionRoundsToOneIff(v: real)
    requires Representable(v)
    ensures Round64(v - Floor(v)) == Fin(1.0) <==> -0.5 <= v * PRECISION as real < 0.0
  {
    if -0.5 < v < 0.0 {
      hide Representable, Round64;
      RoundsToOneIff(v - Floor(v));
    } else {
      FractionIsExact(v);
      Round64IsExactOnDoubles();
      hide Representable, Round64;
      assert Round64(v - Floor(v)) == Fin(v - Floor(v));
    }
  }

  /** At -2^-60, for one: the fraction is no double, and its rounding is one. */
  lemma FractionAtMinusTwoToMinus60()
    ensures var v := -1.0 / 1152921504606846976.0;
      Representable(v) && !Representable(v - Floor(v)) && Round64(v - Floor(v)) == Fin(1.0)
  {
    var v := -1.0 / 1152921504606846976.0;
    Pow2At60();
    assert IsScaled(v, -1, 60);
    FractionRoundsToOneIff(v);
    FractionExactIff(v);
    Pow2At54();
    assert v * PRECISION as real == -0.0078125;
    forall k: int ensures !IsScaled(v, k, 53) {
      assert v * Pow2(53) as real == -0.0078125;
    }
  }

  lemma Pow2At60()
    ensures Pow2(60) == 1152921504606846976
  {
    Pow2At54();
    assert Pow2(58) == 288230376151711744;
  }
}
