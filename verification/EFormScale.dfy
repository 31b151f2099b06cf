/**
 What the E-forms measure: ten to the fifth, sixth and seventh of a degree. The computed products are
 compared with the exact ones, in which the power of ten is an exact power.
 */
module EFormScale {
  import opened EForm
  import opened Binary64

  function Power10(k: nat): (p: int)
    ensures p >= 1
  {
    if k == 0 then 1 else 10 * Power10(k - 1)
  }

  lemma SmallPowers10()
    ensures Power10(5) == 100000 && Power10(6) == 1000000 && Power10(7) == 10000000
  {
  }

  /** The exact E-form, not yet rounded, of an angle in radians. */
  function ExactE(m: Machine, k: nat, r: real): real
    requires m.pi > 0.0
  {
    Product(Product(r, 180.0 / m.pi), Power10(k) as real)
  }

  /** The exact angle in radians of an E-form. */
  function ExactFromE(m: Machine, k: nat, n: int): real
    requires m.pi > 0.0
  {
    Product(Product(n as real, 1.0 / Power10(k) as real), m.pi / 180.0)
  }

  lemma {:induction false} TenIsPower(k: nat)
    requires 5 <= k <= 7
    ensures TenTo(k) == Power10(k) as real && 100000.0 <= TenTo(k) <= 10000000.0
    ensures TenTo(k) == 100000.0 || TenTo(k) == 1000000.0 || TenTo(k) == 10000000.0
  {
    SmallPowers10();
    hide Power10;
    assert k == 5 || k == 6 || k == 7;
  }

  /** Angles between these sizes, and zero, neither underflow nor overflow on the way. */
  ghost predicate Sensible(r: real) {
    r == 0.0 || 0.0000000001 <= Abs(r) <= 1000000.0
  }

  lemma ProductRange(a: real, b: real, lo: real, hi: real, low: real, high: real)
    requires 0.0 < lo <= a <= hi && 0.0 < low <= b <= high
    ensures lo * low <= Product(a, b) <= hi * high
  {
    ScaleInequality(lo, a, b);
    ScaleInequality(a, hi, b);
    ScaleInequality(low, b, lo);
    ScaleInequality(b, high, hi);
  }

  lemma ExactProductsOrdinary(r: real, q: real, ten: real)
    requires Sensible(r) && 45.0 <= q <= 60.0 && 100000.0 <= ten <= 10000000.0
    ensures Ordinary(Product(r, q)) && Ordinary(Product(Product(r, q), ten))
  {
    AbsOfProduct(r, q);
    AbsOfProduct(Product(r, q), ten);
    if r != 0.0 {
      ProductRange(Abs(r), q, 0.0000000001, 1000000.0, 45.0, 60.0);
      var y := Product(Abs(r), q);
      assert Abs(Product(r, q)) == y;
      ProductRange(y, ten, 0.0000000045, 60000000.0, 100000.0, 10000000.0);
      assert Abs(Product(Product(r, q), ten)) == Product(y, ten);
      hide Product;
    }
  }

  lemma FactorProduct(m: Machine, x: real, y: real, t: real, c: real, c': real, s: real)
    requires Accurate(m.rnd) && Close(x, y, t) && Close(c', c, s)
    requires 0.0 <= s <= U && 0.0 <= t <= 0.0001 && Ordinary(Product(y, c))
    ensures Times(m, Fin(x), Fin(c')).Fin?
    ensures Close(Times(m, Fin(x), Fin(c')).r, Product(y, c), t + 1.001 * s + 1.001 * U)
  {
    hide Accurate, Close, Times, Ordinary;
    Factor(m, x, y, t, c, c', s);
  }

  /** Two products with rounded constants, from an exact start. */
  lemma TwoFactors(m: Machine, x: real, a: real, a': real, s: real, b: real, b': real, t: real)
    requires Accurate(m.rnd) && Close(a', a, s) && Close(b', b, t) && 0.0 <= s <= U && 0.0 <= t <= U
    requires Ordinary(Product(x, a)) && Ordinary(Product(Product(x, a), b))
    ensures var z := Times(m, Times(m, Fin(x), Fin(a')), Fin(b'));
      z.Fin? && Close(z.r, Product(Product(x, a), b), 0.0 + 1.001 * s + 1.001 * U + 1.001 * t + 1.001 * U)
  {
    ExactlyClose(x);
    assert 0.0 <= 0.0 + 1.001 * s + 1.001 * U <= 0.0001;
    hide *;
    FactorProduct(m, x, x, 0.0, a, a', s);
    var e := 0.0 + 1.001 * s + 1.001 * U;
    FactorProduct(m, Times(m, Fin(x), Fin(a')).r, Product(x, a), e, b, b', t);
  }

  lemma EProductShape(m: Machine, k: nat, r: real)
    requires m.pi > 0.0 && 5 <= k <= 7
    ensures EProduct(m, k, Fin(r)) == Times(m, Times(m, Fin(r), m.rnd(180.0 / m.pi)), Fin(TenTo(k)))
    ensures ExactE(m, k, r) == Product(Product(r, 180.0 / m.pi), TenTo(k))
  {
    hide Times, Product, TenTo, Power10;
    TenIsPower(k);
  }

  lemma ToTwoFactors(m: Machine, x: real, a: real, ten: real)
    requires Accurate(m.rnd) && 0.0000001 <= a <= 100.0
    requires Ordinary(Product(x, a)) && Ordinary(Product(Product(x, a), ten))
    ensures var z := Times(m, Times(m, Fin(x), m.rnd(a)), Fin(ten));
      z.Fin? && Close(z.r, Product(Product(x, a), ten), 3.003 * U)
  {
    assert U >= 0.0;
    ExactlyClose(ten);
    hide *;
    ConstantClose(m, a);
    TwoFactors(m, x, a, m.rnd(a).r, U, ten, ten, 0.0);
  }

  /** The product that is rounded is the exact E-form, to within three rounding errors. */
  lemma EProductIsNear(m: Machine, k: nat, r: real)
    requires 3.0 <= m.pi <= 4.0 && Accurate(m.rnd) && 5 <= k <= 7 && Sensible(r)
    ensures EProduct(m, k, Fin(r)).Fin? && Close(EProduct(m, k, Fin(r)).r, ExactE(m, k, r), 3.003 * U)
  {
    hide *;
    EProductShape(m, k, r);
    TenIsPower(k);
    QuotientRange(180.0 / m.pi, m.pi);
    ExactProductsOrdinary(r, 180.0 / m.pi, TenTo(k));
    ToTwoFactors(m, r, 180.0 / m.pi, TenTo(k));
  }

  lemma FromEShape(m: Machine, k: nat, n: int)
    requires m.pi > 0.0 && 5 <= k <= 7
    ensures FromE(m, k, n) == Times(m, Times(m, Fin(n as real), m.rnd(1.0 / TenTo(k))), m.rnd(m.pi / 180.0))
    ensures ExactFromE(m, k, n) == Product(Product(n as real, 1.0 / TenTo(k)), m.pi / 180.0)
  {
    TenIsPower(k);
    hide Times, Product, TenTo, Power10;
  }

  /** The angle that an E-form is taken to is the exact one, to within four rounding errors. */
  lemma FromEIsNear(m: Machine, k: nat, n: int)
    requires 3.0 <= m.pi <= 4.0 && Accurate(m.rnd) && 5 <= k <= 7 && -562949953421312 < n < 562949953421312
    ensures FromE(m, k, n).Fin? && Close(FromE(m, k, n).r, ExactFromE(m, k, n), 4.004 * U)
  {
    hide *;
    FromEShape(m, k, n);
    TenIsPower(k);
    ConstantRanges(TenTo(k), m.pi);
    TrueProducts(n, TenTo(k), m.pi);
    FromTwoFactors(m, n as real, 1.0 / TenTo(k), m.pi / 180.0);
  }

  lemma ConstantRanges(ten: real, pi: real)
    requires 100000.0 <= ten <= 10000000.0 && 3.0 <= pi <= 4.0
    ensures 0.0000001 <= 1.0 / ten <= 100.0 && 0.0000001 <= pi / 180.0 <= 100.0
  {
  }

  lemma FromTwoFactors(m: Machine, x: real, a: real, b: real)
    requires Accurate(m.rnd) && 0.0000001 <= a <= 100.0 && 0.0000001 <= b <= 100.0
    requires Ordinary(Product(x, a)) && Ordinary(Product(Product(x, a), b))
    ensures var z := Times(m, Times(m, Fin(x), m.rnd(a)), m.rnd(b));
      z.Fin? && Close(z.r, Product(Product(x, a), b), 4.004 * U)
  {
    assert U >= 0.0;
    hide *;
    ConstantClose(m, a);
    ConstantClose(m, b);
    TwoFactors(m, x, a, m.rnd(a).r, U, b, m.rnd(b).r, U);
  }

  // ----- the E-form of every angle -----

  /** Within this of the exact E-form, unless that is out of range. */
  ghost predicate NearE(n: int, x: real) {
    && (-2147483648.0 <= x <= 2147483647.0 ==> Abs(n as real - x) <= 0.500001)
    && (x > 2147483647.0 ==> n >= 2147483647 - 1)
    && (x < -2147483648.0 ==> n <= -2147483648 + 1)
    && (x >= 2147483648.0 ==> n == 2147483647)
    && (x <= -2147483649.0 ==> n == -2147483648)
  }

  lemma RoundedIsNear(v: real, x: real, i: int)
    requires Close(v, x, 3.003 * U) && IsNearestEven(v, i)
    ensures NearE(Clamp(i), x)
  {
    if Abs(x) <= 2147483700.0 {
      ScaleInequality(Abs(x), 2147483700.0, 3.003 * U);
      assert Abs(v - x) <= 0.000001;
    } else {
      ScaleInequality(3.003 * U, 0.0000000001, Abs(x));
      assert x > 0.0 ==> v >= 2147483699.0;
      assert x < 0.0 ==> v <= -2147483699.0;
    }
  }

  lemma SensibleToE(m: Machine, k: nat, r: real)
    requires Sound(m) && Accurate(m.rnd) && 5 <= k <= 7 && Sensible(r)
    ensures NearE(ToE(m, k, Fin(r)), ExactE(m, k, r))
  {
    hide *;
    SoundRange(m);
    EProductIsNear(m, k, r);
    var i := ClampedOrEnd(m, k, Fin(r));
    RoundedIsNear(EProduct(m, k, Fin(r)).r, ExactE(m, k, r), i);
  }

  lemma SoundRange(m: Machine)
    requires Sound(m)
    ensures 3.0 <= m.pi <= 4.0 && m.pi > 0.0
  {
  }

  lemma ExactERises(m: Machine, k: nat, r: real, s: real)
    requires 3.0 <= m.pi <= 4.0 && r <= s
    ensures ExactE(m, k, r) <= ExactE(m, k, s)
  {
    QuotientRange(180.0 / m.pi, m.pi);
    hide Power10;
    ScaleInequality(r, s, 180.0 / m.pi);
    ScaleInequality(Product(r, 180.0 / m.pi), Product(s, 180.0 / m.pi), Power10(k) as real);
  }

  lemma AtLimits(m: Machine, k: nat)
    requires 3.0 <= m.pi <= 4.0 && 5 <= k <= 7
    ensures -0.1 <= ExactE(m, k, -0.0000000001) <= ExactE(m, k, 0.0000000001) <= 0.1
    ensures ExactE(m, k, 1000000.0) >= 2147483648.0 && ExactE(m, k, -1000000.0) <= -2147483649.0
  {
    TenIsPower(k);
    var q, ten := 180.0 / m.pi, TenTo(k);
    QuotientRange(q, m.pi);
    hide TenTo, Power10;
    ProductRange(q, ten, 45.0, 60.0, 100000.0, 10000000.0);
    var p := Product(q, ten);
    Associate(0.0000000001, q, ten);
    Associate(-0.0000000001, q, ten);
    Associate(1000000.0, q, ten);
    Associate(-1000000.0, q, ten);
    assert Product(0.0000000001, p) == 0.0000000001 * p && Product(-0.0000000001, p) == -0.0000000001 * p;
    assert Product(1000000.0, p) == 1000000.0 * p && Product(-1000000.0, p) == -1000000.0 * p;
  }

  /**
   The E-form of every finite angle is within half a unit, and a millionth, of the exact E-form, or
   is the end of the 32-bit range when that lies beyond it.
   */
  lemma ToEIsNear(m: Machine, k: nat, r: real)
    requires Sound(m) && Accurate(m.rnd) && 5 <= k <= 7
    ensures NearE(ToE(m, k, Fin(r)), ExactE(m, k, r))
  {
    SoundRange(m);
    if Sensible(r) {
      SensibleToE(m, k, r);
    } else {
      AtLimits(m, k);
      hide Sound, Accurate, ToE, ExactE;
      if Abs(r) < 0.0000000001 {
        TinyToE(m, k, r);
      } else if r > 0.0 {
        ExactERises(m, k, 1000000.0, r);
        SensibleToE(m, k, 1000000.0);
        ToEIsMonotone(m, k, Fin(1000000.0), Fin(r));
        var i := ClampedOrEnd(m, k, Fin(r));
      } else {
        ExactERises(m, k, r, -1000000.0);
        SensibleToE(m, k, -1000000.0);
        ToEIsMonotone(m, k, Fin(r), Fin(-1000000.0));
        var i := ClampedOrEnd(m, k, Fin(r));
      }
    }
  }

  lemma TinyToE(m: Machine, k: nat, r: real)
    requires Sound(m) && Accurate(m.rnd) && 5 <= k <= 7 && Abs(r) < 0.0000000001
    ensures NearE(ToE(m, k, Fin(r)), ExactE(m, k, r))
  {
    var tiny := 0.0000000001;
    SoundRange(m);
    AtLimits(m, k);
    assert Sensible(tiny) && Sensible(-tiny) && -tiny <= r <= tiny;
    hide Sound, Accurate, ToE, ExactE, Sensible, Abs;
    ExactERises(m, k, -tiny, r);
    ExactERises(m, k, r, tiny);
    SensibleToE(m, k, -tiny);
    SensibleToE(m, k, tiny);
    ToEIsMonotone(m, k, Fin(-tiny), Fin(r));
    ToEIsMonotone(m, k, Fin(r), Fin(tiny));
    BetweenTiny(ToE(m, k, Fin(-tiny)), ToE(m, k, Fin(r)), ToE(m, k, Fin(tiny)),
      ExactE(m, k, -tiny), ExactE(m, k, r), ExactE(m, k, tiny));
  }

  lemma BetweenTiny(a: int, b: int, c: int, x: real, y: real, z: real)
    requires NearE(a, x) && NearE(c, z) && a <= b <= c && -0.1 <= x <= y <= z <= 0.1
    ensures NearE(b, y)
  {
    assert a == 0 && c == 0;
  }

  /** The values for NaN and the infinities. */
  lemma ToEOfSpecials(m: Machine, k: nat)
    requires Sound(m)
    ensures ToE(m, k, NaN) == 0 && ToE(m, k, PosInf) == 2147483647 && ToE(m, k, NegInf) == -2147483648
  {
    SmallConstants(m);
    assert TenTo(k) > 0.0;
    hide Sound, RoundHalfEven;
  }

  /** Any other form is taken for the seventh. */
  lemma OtherFormsAreSeventh(m: Machine, k: nat, r: F64, n: int)
    requires m.pi > 0.0 && k != 5 && k != 6
    ensures ToE(m, k, r) == ToE(m, 7, r) && FromE(m, k, n) == FromE(m, 7, n)
  {
  }

  // ----- in binary64 -----

  /** The stored pi is the double nearest to 3.14159265358979323846. */
  lemma PiIsNearest()
    ensures Round64(3.14159265358979323846) == Fin(Doubles().pi)
  {
    var x, z := 3.14159265358979323846, 3.14159265358979323846 * 2251799813685248.0;
    PowersAt51();
    hide Fine, Pow2, Ulp;
    FineReaches(x, 0, 51, z);
    assert NearestEven(z) == 7074237752028440;
  }

  lemma PowersAt51()
    ensures Pow2(51) == 2251799813685248 && Ulp(51) == 1.0 / 2251799813685248.0
  {
    Pow2At54();
    assert Pow2(52) == 2 * Pow2(51);
    UlpPow(51);
  }

  /** In binary64: half a unit of the exact E-form, or the end of the range. */
  lemma EFormMeasuresDegrees(k: nat, r: real)
    requires 5 <= k <= 7
    ensures NearE(ToE(Doubles(), k, Fin(r)), ExactE(Doubles(), k, r))
  {
    hide *;
    Binary64IsSound();
    ToEIsNear(Doubles(), k, r);
  }
}
