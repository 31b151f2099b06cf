/**
 The directed Hausdorff distance and the centre of intervals, as the vector generator restates them
 for the library, in binary64.
 */
module Intervals {
  import opened EForm
  import opened Binary64
  import opened Halving

  /** An interval with finite bounds. */
  datatype R1 = R1(lo: real, hi: real)

  predicate IsEmpty(x: R1) {
    x.lo > x.hi
  }

  predicate Contains(x: R1, p: real) {
    x.lo <= p <= x.hi
  }

  // ----- the distance -----

  function Max(a: real, b: real): real {
    if a < b then b else a
  }

  datatype Distance = Infinite | Finite(d: real)

  /** The distance without rounding. */
  function ExactHausdorff(x: R1, y: R1): Distance {
    if IsEmpty(x) then Finite(0.0)
    else if IsEmpty(y) then Infinite
    else Finite(Max(0.0, Max(x.hi - y.hi, y.lo - x.lo)))
  }

  /** `fmax`: of a NaN and a number, the number. */
  function FMax(a: F64, b: F64): F64 {
    match (a, b)
    case (NaN, _) => b
    case (_, NaN) => a
    case (PosInf, _) => PosInf
    case (_, PosInf) => PosInf
    case (NegInf, _) => b
    case (_, NegInf) => a
    case (Fin(r), Fin(s)) => Fin(Max(r, s))
  }

  function LibHausdorff(x: R1, y: R1): F64 {
    if IsEmpty(x) then Fin(0.0)
    else if IsEmpty(y) then PosInf
    else FMax(Fin(0.0), FMax(Round64(x.hi - y.hi), Round64(y.lo - x.lo)))
  }

  /** Every point of `x` has a point of `y` within distance `d`. */
  ghost predicate Reaches(x: R1, y: R1, d: real) {
    forall p :: Contains(x, p) ==> exists q :: Contains(y, q) && Abs(p - q) <= d
  }

  /** The point of `y` nearest to `p`. */
  function Nearest(y: R1, p: real): (q: real)
    requires !IsEmpty(y)
    ensures Contains(y, q) && forall r :: Contains(y, r) ==> Abs(p - q) <= Abs(p - r)
  {
    if p < y.lo then y.lo else if p > y.hi then y.hi else p
  }

  /**
   The exact value is the directed Hausdorff distance: a finite value reaches, and nothing smaller
   and non-negative does; an infinite one means that no distance reaches.
   */
  lemma ExactIsDirectedDistance(x: R1, y: R1)
    ensures match ExactHausdorff(x, y)
      case Finite(h) => h >= 0.0 && forall d :: 0.0 <= d ==> (Reaches(x, y, d) <==> h <= d)
      case Infinite => forall d :: !Reaches(x, y, d)
  {
    if !IsEmpty(x) && IsEmpty(y) {
      forall d ensures !Reaches(x, y, d) {
        assert Contains(x, x.lo);
      }
    } else if !IsEmpty(x) {
      var h := ExactHausdorff(x, y).d;
      forall d | 0.0 <= d ensures Reaches(x, y, d) <==> h <= d {
        if h <= d {
          forall p | Contains(x, p) ensures exists q :: Contains(y, q) && Abs(p - q) <= d {
            assert Contains(y, Nearest(y, p)) && Abs(p - Nearest(y, p)) <= d;
          }
        }
        if Reaches(x, y, d) {
          assert Contains(x, x.lo) && Contains(x, x.hi);
        }
      }
    }
  }

  /** The larger of two roundings is the rounding of the larger. */
  lemma MaxRounds(a: real, b: real)
    ensures FMax(Round64(a), Round64(b)) == Round64(Max(a, b))
  {
    hide Round64;
    Round64Rises(a, Max(a, b));
    Round64Rises(b, Max(a, b));
    Round64Rises(a, a);
    Round64Rises(b, b);
  }

  /** What the library computes is the directed Hausdorff distance, correctly rounded. */
  lemma LibHausdorffIsDirectedDistance(x: R1, y: R1)
    ensures match ExactHausdorff(x, y)
      case Finite(h) => LibHausdorff(x, y) == Round64(h)
                        && h >= 0.0 && forall d :: 0.0 <= d ==> (Reaches(x, y, d) <==> h <= d)
      case Infinite => LibHausdorff(x, y) == PosInf && forall d :: !Reaches(x, y, d)
  {
    hide *;
    ExactIsDirectedDistance(x, y);
    HausdorffRounds(x, y);
  }

  lemma HausdorffRounds(x: R1, y: R1)
    ensures LibHausdorff(x, y) == match ExactHausdorff(x, y) case Finite(h) => Round64(h) case Infinite => PosInf
  {
    hide Round64, Representable, FMax, Max;
    IntegersRepresentable(0);
    DoubleStays(0.0);
    MaxRounds(x.hi - y.hi, y.lo - x.lo);
    MaxRounds(0.0, Max(x.hi - y.hi, y.lo - x.lo));
  }

  // ----- the centre -----

  function Half(a: F64): F64 {
    match a
    case Fin(r) => Round64(r / 2.0)
    case _ => a
  }

  function Sum(a: F64, b: F64): F64 {
    match (a, b)
    case (Fin(r), Fin(s)) => Round64(r + s)
    case (NaN, _) => NaN
    case (_, NaN) => NaN
    case (Fin(_), _) => b
    case (_, Fin(_)) => a
    case _ => if a == b then a else NaN
  }

  /** At most half the largest double in size. */
  predicate Low(a: F64) {
    a.Fin? && Abs(a.r) <= LargestDouble() / 2.0
  }

  /** Less than twice the smallest normal double in size. */
  predicate Tiny(a: F64) {
    a.Fin? && Abs(a.r) < TWICE_SMALLEST
  }

  function LibCentre(a: F64, b: F64): F64 {
    if Low(a) && Low(b) then Half(Sum(a, b))
    else if Tiny(a) then Sum(a, Half(b))
    else if Tiny(b) then Sum(Half(a), b)
    else Sum(Half(a), Half(b))
  }

  /** The first case: the sum is exact or is halved exactly. */
  lemma SumHalved(a: real, b: real)
    requires Representable(a) && Representable(b) && Low(Fin(a)) && Low(Fin(b))
    ensures Round64(a + b).Fin? && Round64(Round64(a + b).r / 2.0) == Round64((a + b) / 2.0)
    ensures Round64((a + b) / 2.0).Fin?
  {
    hide *;
    LowSum(a, b);
    BoundedIsFinite(a + b);
    BoundedIsFinite((a + b) / 2.0);
    if Abs(a + b) < TWICE_SMALLEST {
      SmallSumIsDouble(a, b);
      DoubleStays(a + b);
    } else {
      HalfStays(a + b);
    }
  }

  lemma LowSum(a: real, b: real)
    requires Low(Fin(a)) && Low(Fin(b))
    ensures Abs(a + b) <= LargestDouble() && Abs((a + b) / 2.0) <= LargestDouble()
  {
    hide LargestDouble;
  }

  lemma DoubleStays(x: real)
    requires Representable(x)
    ensures Round64(x) == Fin(x)
  {
    hide Representable, Round64;
    Round64IsExactOnDoubles();
  }

  lemma HalfStays(s: real)
    requires TWICE_SMALLEST <= Abs(s) && Round64(s).Fin?
    ensures Round64(Round64(s).r / 2.0) == Round64(s / 2.0)
  {
    hide Representable, Round64, Ulp, Abs;
    HalfRounds(s);
    Round64GivesDoubles();
    DoubleStays(Round64(s / 2.0).r);
  }

  /** A bound beyond half the largest double has an exact half, which absorbs a tiny bound. */
  lemma LargeHalf(b: real)
    requires Representable(b) && !Low(Fin(b))
    ensures Representable(b / 2.0) && Round64(b / 2.0) == Fin(b / 2.0) && 2.0 * PRECISION as real <= Abs(b / 2.0)
  {
    hide Representable, Round64, LargestDouble, Ulp;
    BigAndSmall();
    HalfIsDouble(b);
    DoubleStays(b / 2.0);
  }

  lemma BigAndSmall()
    ensures LargestDouble() >= 8.0 * PRECISION as real && TWICE_SMALLEST <= 0.25
  {
    hide Pow2, Ulp;
    FirstPowers();
    UlpTimes(1021, 0);
    Pow2Rises(4, 971);
    Pow2Rises(2, 1021);
    ScaleInequality(16.0, Pow2(971) as real, (PRECISION - 1) as real);
    QuotientSmall(Ulp(1021), Pow2(1021) as real);
  }

  lemma FirstPowers()
    ensures Pow2(0) == 1 && Pow2(2) == 4 && Pow2(4) == 16
  {
  }

  lemma QuotientSmall(u: real, p: real)
    requires u * p == 1.0 && p >= 4.0
    ensures u <= 0.25
  {
    if u > 0.25 {
      StrictScale(0.25, u, p);
    }
  }

  lemma TinyAbsorbed(a: real, b: real)
    requires Representable(a) && Representable(b) && Tiny(Fin(a)) && !Low(Fin(b))
    ensures Round64(b / 2.0) == Fin(b / 2.0)
    ensures Round64(a + b / 2.0) == Fin(b / 2.0) && Round64((a + b) / 2.0) == Fin(b / 2.0)
  {
    hide Representable, Round64, LargestDouble, Ulp;
    BigAndSmall();
    LargeHalf(b);
    DoublesBounded(b);
    BoundedIsFinite(b / 2.0 + a);
    LargeAbsorbs(b / 2.0, a);
    BoundedIsFinite(b / 2.0 + a / 2.0);
    LargeAbsorbs(b / 2.0, a / 2.0);
    assert (a + b) / 2.0 == b / 2.0 + a / 2.0 && a + b / 2.0 == b / 2.0 + a;
  }

  lemma HalvesSummed(a: real, b: real)
    requires Representable(a) && Representable(b) && !Tiny(Fin(a)) && !Tiny(Fin(b))
    ensures Round64(a / 2.0) == Fin(a / 2.0) && Round64(b / 2.0) == Fin(b / 2.0)
    ensures Round64(a / 2.0 + b / 2.0) == Round64((a + b) / 2.0) && Round64((a + b) / 2.0).Fin?
  {
    hide Representable, Round64, LargestDouble, Ulp;
    HalfIsDouble(a);
    HalfIsDouble(b);
    DoubleStays(a / 2.0);
    DoubleStays(b / 2.0);
    DoublesBounded(a);
    DoublesBounded(b);
    BoundedIsFinite((a + b) / 2.0);
    assert a / 2.0 + b / 2.0 == (a + b) / 2.0;
  }

  /**
   For all finite bounds no step overflows, and the centre is the correctly rounded midpoint, in
   every branch and whatever the steps round.
   */
  lemma CentreNeverOverflows(a: real, b: real)
    requires Representable(a) && Representable(b)
    ensures LibCentre(Fin(a), Fin(b)).Fin? && LibCentre(Fin(a), Fin(b)) == Round64((a + b) / 2.0)
  {
    hide Representable, Round64, LargestDouble, Ulp, Low, Tiny;
    if Low(Fin(a)) && Low(Fin(b)) {
      SumHalved(a, b);
    } else if Tiny(Fin(a)) {
      TinyIsLow(Fin(a));
      TinyAbsorbed(a, b);
    } else if Tiny(Fin(b)) {
      TinyIsLow(Fin(b));
      TinyAbsorbed(b, a);
      assert b + a / 2.0 == a / 2.0 + b && (b + a) / 2.0 == (a + b) / 2.0;
    } else {
      HalvesSummed(a, b);
    }
  }

  /** With an infinite bound the centre is that infinity, and none if the infinities differ. */
  lemma CentreOfSpecials(a: F64, b: F64)
    requires (a.Fin? ==> Representable(a.r)) && (b.Fin? ==> Representable(b.r)) && !(a.Fin? && b.Fin?)
    ensures LibCentre(a, b) ==
      if a.NaN? || b.NaN? || (a.PosInf? && b.NegInf?) || (a.NegInf? && b.PosInf?) then NaN
      else if a.PosInf? || b.PosInf? then PosInf
      else NegInf
  {
    hide Representable, Round64, LargestDouble, Ulp, Low, Tiny;
    FiniteHalf(a);
    FiniteHalf(b);
    assert Low(a) ==> a.Fin? by { FiniteLow(a); }
    assert Low(b) ==> b.Fin? by { FiniteLow(b); }
  }

  lemma FiniteLow(a: F64)
    ensures (Low(a) ==> a.Fin?) && (Tiny(a) ==> a.Fin?)
  {
  }

  lemma FiniteHalf(a: F64)
    requires a.Fin? ==> Representable(a.r)
    ensures a.Fin? ==> Half(a).Fin?
  {
    hide Representable, Round64, LargestDouble, Ulp;
    if a.Fin? {
      DoublesBounded(a.r);
      BoundedIsFinite(a.r / 2.0);
    }
  }

  lemma TinyIsLow(a: F64)
    ensures Tiny(a) ==> Low(a)
  {
    hide LargestDouble, Ulp;
    BigAndSmall();
  }
}
