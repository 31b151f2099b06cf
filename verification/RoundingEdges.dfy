/**
 The edges of binary64 rounding: midpoints go to the even neighbour, and overflow begins half a unit
 beyond the largest double (IEEE 754-2019, section 4.3.1).
 */
module RoundingEdges {
  import opened EForm
  import opened Binary64
  import opened Halving

  /** A magnitude that takes `j` halvings to come down to 53 bits, where it is `z`. */
  lemma {:induction false} CoarseReaches(x: real, e: nat, j: nat, z: real)
    requires j + e <= 971 && x == z * Pow2(j) as real && HALF as real <= z < PRECISION as real
    ensures Coarse(x, e) == Stored(NearestEven(z), e + j)
    decreases j
  {
    hide NearestEven, Stored;
    if j > 0 {
      assert Pow2(j) == 2 * Pow2(j - 1);
      HalvedScale(x, z, Pow2(j - 1));
      hide Pow2;
      CoarseReaches(x / 2.0, e + 1, j - 1, z);
    } else {
      assert Pow2(0) == 1;
    }
  }

  lemma HalvedScale(x: real, z: real, p: int)
    requires x == z * (2 * p) as real && z >= HALF as real && p >= 1
    ensures x / 2.0 == z * p as real && x >= PRECISION as real
  {
    ScaleInequality(HALF as real, z, (2 * p) as real);
    assert z * (2 * p) as real == 2.0 * (z * p as real);
  }

  lemma MidpointIsEven(n: int)
    ensures NearestEven(n as real + 0.5) == n + n % 2
  {
    var z := n as real + 0.5;
    assert z.Floor == n;
  }

  /** Halfway between two neighbouring doubles of 53 bits, or between two of the smallest. */
  lemma {:induction false} FineMidpoint(n: int, e: nat)
    requires 0 <= n < PRECISION && e <= 1074 && (n >= HALF || e == 1074)
    ensures Round64(Product(n as real + 0.5, Ulp(e))) == Fin(Product((n + n % 2) as real, Ulp(e)))
  {
    hide *;
    if e == 0 {
      SeamMidpoint(n);
    } else {
      var z := n as real + 0.5;
      var x := Product(z, Ulp(e));
      MidpointIsEven(n);
      MidpointPlace(z, e);
      SmallMagnitude(x);
      FineReaches(x, 0, e, z);
      assert 0 + e == e;
    }
  }

  lemma {:induction false} SmallMagnitude(x: real)
    requires 0.0 <= x < HALF as real
    ensures Round64(x) == Fine(x, 0)
  {
    hide Fine, Coarse;
  }

  /** Scaled down, such a midpoint lies below 2^52. */
  lemma {:induction false} MidpointPlace(z: real, e: nat)
    requires 0.0 <= z < PRECISION as real && e <= 1074
    ensures z == Product(z, Ulp(e)) * Pow2(e) as real && 0.0 <= Product(z, Ulp(e))
    ensures e > 0 ==> Product(z, Ulp(e)) < HALF as real
  {
    UlpPow(e);
    AssociateScale(z, Ulp(e), Pow2(e) as real);
    ScaleInequality(0.0, z, Ulp(e));
    if e > 0 {
      UlpAtMostHalf(e);
      hide Ulp, Pow2;
      ScaleInequality(Ulp(e), 0.5, z);
    }
  }

  lemma AssociateScale(z: real, u: real, p: real)
    requires u * p == 1.0
    ensures Product(z, u) * p == z
  {
  }

  lemma {:induction false} UlpAtMostHalf(e: nat)
    requires e > 0
    ensures Ulp(e) <= 0.5
  {
    if e > 1 {
      UlpAtMostHalf(e - 1);
    } else {
      assert Ulp(0) == 1.0;
    }
  }

  lemma SeamMidpoint(n: int)
    requires HALF <= n < PRECISION
    ensures Round64(Product(n as real + 0.5, Ulp(0))) == Fin(Product((n + n % 2) as real, Ulp(0)))
  {
    MidpointIsEven(n);
    assert Ulp(0) == 1.0 && Pow2(0) == 1;
    hide NearestEven;
  }

  /** Halfway between two large doubles; past the largest one lies infinity. */
  lemma {:induction false} CoarseMidpoint(n: int, e: nat)
    requires HALF <= n < PRECISION && e <= 971
    ensures Round64(Product(n as real + 0.5, Pow2(e) as real))
         == if e == 971 && n == PRECISION - 1 then PosInf else Fin(Product((n + n % 2) as real, Pow2(e) as real))
  {
    StoredEven(n, e);
    hide *;
    var z := n as real + 0.5;
    MidpointIsEven(n);
    LargeMagnitude(z, e);
    ProductIs(z, Pow2(e) as real);
    CoarseReaches(Product(z, Pow2(e) as real), 0, e, z);
    assert 0 + e == e;
  }

  lemma ProductIs(x: real, y: real)
    ensures Product(x, y) == x * y
  {
  }

  lemma {:induction false} StoredEven(n: int, e: nat)
    requires HALF <= n < PRECISION && e <= 971
    ensures Stored(n + n % 2, e)
         == if e == 971 && n == PRECISION - 1 then PosInf else Fin(Product((n + n % 2) as real, Pow2(e) as real))
  {
    hide Product, Pow2;
  }

  lemma {:induction false} LargeMagnitude(z: real, e: nat)
    requires z >= HALF as real
    ensures Round64(Product(z, Pow2(e) as real)) == Coarse(Product(z, Pow2(e) as real), 0)
  {
    ScaleInequality(1.0, Pow2(e) as real, z);
    hide Coarse, Fine, Pow2;
  }

  /** Where overflow begins. */
  function Threshold(): real {
    Product(PRECISION as real - 0.5, Pow2(971) as real)
  }

  /** A result is infinite exactly from half a unit beyond the largest double on. */
  lemma OverflowIff(x: real)
    requires x >= 0.0
    ensures Round64(x) == PosInf <==> x >= Threshold()
  {
    hide *;
    if x >= Threshold() {
      ThresholdOverflows();
      Round64Rises(Threshold(), x);
      AboveInfinity(Round64(x));
    } else if x <= LargestDouble() {
      SizeOf(x);
      BoundedIsFinite(x);
    } else {
      BetweenLargest(x);
    }
  }

  lemma SizeOf(x: real)
    requires x >= 0.0
    ensures Abs(x) == x
  {
  }

  lemma ThresholdOverflows()
    ensures Round64(Threshold()) == PosInf
  {
    hide Round64, Pow2, Product;
    CoarseMidpoint(PRECISION - 1, 971);
    assert (PRECISION - 1) as real + 0.5 == PRECISION as real - 0.5;
  }

  lemma AboveInfinity(a: F64)
    ensures LeqF(PosInf, a) ==> a == PosInf
  {
  }

  lemma BetweenLargest(x: real)
    requires LargestDouble() < x < Threshold()
    ensures Round64(x).Fin?
  {
    hide Coarse, Round64, Pow2, NearestEven;
    var p := Pow2(971) as real;
    var z := x / p;
    QuotientBetween(x, z, p);
    assert x == Product(z, p);
    LargeMagnitude(z, 971);
    CoarseReaches(x, 0, 971, z);
    NearestBelowTop(z);
  }

  lemma QuotientBetween(x: real, z: real, p: real)
    requires p > 0.0 && z * p == x
    requires Product((PRECISION - 1) as real, p) < x < Product(PRECISION as real - 0.5, p)
    ensures (PRECISION - 1) as real < z < PRECISION as real - 0.5
  {
    if z <= (PRECISION - 1) as real {
      ScaleInequality(z, (PRECISION - 1) as real, p);
    }
    if z >= PRECISION as real - 0.5 {
      ScaleInequality(PRECISION as real - 0.5, z, p);
    }
  }

  lemma NearestBelowTop(z: real)
    requires (PRECISION - 1) as real < z < PRECISION as real - 0.5
    ensures NearestEven(z) == PRECISION - 1
  {
  }
}
