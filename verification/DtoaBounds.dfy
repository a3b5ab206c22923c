// Size bounds for doubles and the estimate of their decimal exponent, and the real worth of the
// integers the start values are made of.
module DtoaBounds {
  import opened MachineInts
  import opened Powers
  import opened RealPowers
  import opened ScaledStarts
  import opened DigitRatios
  import opened RatioRounding
  import opened DecimalRounding
  import opened Ieee

  /** What EstimatePower promises: 10^(k-1) <= v < 10^k with the estimate k or k - 1, for the upper
      boundary as well. */
  ghost predicate EstimateContract(d: int, estimate: int) {
    && 0 < d < INFINITY
    && Ten(estimate - 1) <= Value(d)
    && Midpoint(d) < Ten(estimate + 1)
  }

  lemma TenOrder(a: int, b: int)
    requires Ten(a) < Ten(b)
    ensures a < b
  {
    hide Ten;
    if b <= a {
      TenMono(b, a);
    }
  }

  lemma TwoMono(a: int, b: int)
    requires a <= b
    ensures Two(a) <= Two(b)
  {
    hide RPow;
    RPowMono(2, a, b);
  }

  lemma {:induction false} TenAboveTwo(n: nat)
    ensures Two(3 * n) <= Ten(n)
  {
    hide RPow;
    if n == 0 {
      RPowZero(2);
      RPowZero(10);
    } else {
      TenAboveTwo(n - 1);
      TwoNext(3 * n - 1);
      TwoNext(3 * n - 2);
      TwoNext(3 * n - 3);
      TenNext(n - 1);
    }
  }

  lemma TwoTo53()
    ensures Two(53) == 9007199254740992.0
  {
    hide Pow;
    TwoNat(53);
    TwoTo28();
    PowAdd(2, 28, 25);
    PowAdd(2, 25, 3);
    assert Pow(2, 3) == 8 by {
      PowNone(2);
      PowNext(2, 0);
      PowNext(2, 1);
      PowNext(2, 2);
    }
  }

  lemma ValueRange(d: int)
    requires 0 < d < INFINITY
    ensures Two(-1074) <= Value(d) < Two(1024)
    ensures -1074 <= Exponent(d) <= 971 && Significand(d) > 0
  {
    hide RPow, Fraction, BiasedExponent, Significand, Exponent;
    FieldRange(d);
    var e := Exponent(d);
    ScaledRange(Significand(d), e);
    TwoMono(-1074, e);
    TwoMono(53 + e, 1024);
  }

  lemma ScaledRange(f: int, e: int)
    requires 0 < f < 9007199254740992
    ensures Two(e) <= Scaled(f, e) < Two(53 + e)
  {
    hide RPow, Two;
    TwoTo53();
    TwoAdd(53, e);
    UnitsWithin(f as real, Two(53), Two(e), Scaled(f, e), Two(53 + e));
  }

  lemma UnitsWithin(f: real, limit: real, u: real, x: real, top: real)
    requires 1.0 <= f < limit && u > 0.0 && x == f * u && top == limit * u
    ensures u <= x < top
  {
    assert (f - 1.0) * u >= 0.0 && (limit - f) * u > 0.0;
  }

  lemma FieldRange(d: int)
    requires 0 < d < INFINITY
    ensures -1074 <= Exponent(d) <= 971 && 0 < Significand(d) < 9007199254740992
    ensures Exponent(d) > -1074 ==> Significand(d) >= 4503599627370496
  {
  }

  lemma EstimateRange(d: int, estimate: int)
    requires EstimateContract(d, estimate)
    ensures 0 < d < INFINITY
    ensures InDoubleRange(Exponent(d), estimate) && (Exponent(d) >= 0 ==> estimate >= 0)
  {
    hide RPow, Midpoint, Value, Two, Ten;
    ValueRange(d);
    MidpointIsMiddle(d);
    RPowZero(10);
    PowersApart();
    if estimate > 400 {
      TenMono(400, estimate - 1);
    }
    if estimate < -400 {
      TenMono(estimate + 1, -400);
    }
    if Exponent(d) >= 0 {
      ValueAtLeastOne(d);
      TenOrder(0, estimate + 1);
    }
  }

  lemma PowersApart()
    ensures Two(1024) < Ten(400) && Ten(-400) < Two(-1074) && Ten(0) == 1.0
  {
    hide RPow;
    RPowZero(2);
    RPowZero(10);
    TenAboveTwo(400);
    RPowMono(2, 1024, 1200);
    TenAdd(-400, 400);
    TwoAdd(-1200, 1200);
    ReciprocalOrder(Ten(-400), Ten(400), Two(-1200), Two(1200));
    RPowMono(2, -1200, -1074);
  }

  lemma ValueAtLeastOne(d: int)
    requires 0 < d < INFINITY && Exponent(d) >= 0
    ensures Value(d) >= 1.0
  {
    hide RPow, Fraction, BiasedExponent;
    FieldRange(d);
    RPowZero(2);
    TwoMono(0, Exponent(d));
    RMulMono(1.0, Significand(d) as real, Two(Exponent(d)));
  }

  /** The integers of the start values stand for v and its boundaries. */
  lemma UnitIsWorth(e: int, estimate: int)
    ensures Two(e) * Ten(-estimate) * (BaseOf(e, estimate) as real) == (UnitOf(e, estimate) as real)
  {
    hide Pow, RPow;
    var two, five := Max(e, 0), Max(-estimate, 0);
    RealProduct(Pow(2, Max(e, 0)), Pow(10, Max(-estimate, 0)));
    RealProduct(Pow(2, Max(-e, 0)), Pow(10, Max(estimate, 0)));
    TwoNat(Max(e, 0));
    TwoNat(Max(-e, 0));
    TenNat(Max(estimate, 0));
    TenNat(Max(-estimate, 0));
    TwoAdd(e, Max(-e, 0));
    TenAdd(-estimate, Max(estimate, 0));
    FourFactors(Two(e), Ten(-estimate), Pow(2, Max(-e, 0)) as real, Pow(10, Max(estimate, 0)) as real);
  }

  /** Whichever way the start values were scaled, one unit in the last place of v is worth 2^e. */
  lemma UnitWorth(e: int, estimate: int, k: nat, c: nat, point: int, unit: real)
    requires k > 0 && ((k * BaseOf(e, estimate)) as real) * unit == Ten(point - 1)
    requires (c == 1 && point == estimate + 1) || (c == 10 && point == estimate)
    ensures ((c * k * UnitOf(e, estimate)) as real) * unit == Two(e) && unit > 0.0
  {
    hide Pow, RPow, UnitOf, BaseOf;
    var b, u := BaseOf(e, estimate), UnitOf(e, estimate);
    UnitIsWorth(e, estimate);
    RealProduct(k, b);
    RealProduct(c * k, u);
    RealProduct(c, k);
    TenAdd(-estimate, point - 1);
    RPowZero(10);
    TenNext(-1);
    UnitArith(c as real, k as real, b as real, u as real, unit, Two(e), Ten(-estimate), Ten(point - 1));
  }

  lemma UnitArith(c: real, k: real, b: real, u: real, unit: real, two: real, ten: real, place: real)
    requires k > 0.0 && b > 0.0 && place > 0.0 && k * b * unit == place
    requires two * ten * b == u && c * (ten * place) == 1.0
    ensures c * k * u * unit == two && unit > 0.0
  {
    assert c * k * u * unit == c * k * (two * ten * b) * unit;
    assert c * k * (two * ten * b) * unit == c * two * ten * (k * b * unit) by {
      SevenFactors(c, k, two, ten, b, unit);
    }
    assert c * two * ten * place == two * (c * (ten * place)) by {
      SevenFactors(c, 1.0, two, ten, 1.0, place);
    }
    RMulMono(0.0, b, k);
    if unit <= 0.0 {
      RMulMono(unit, 0.0, k * b);
    }
  }

  lemma SevenFactors(c: real, k: real, two: real, ten: real, b: real, unit: real)
    ensures c * k * (two * ten * b) * unit == c * two * ten * (k * b * unit)
    ensures c * two * ten * unit == two * (c * (ten * unit))
  {
  }

  /** The ratio made of the start values stands for v between its boundaries. */
  lemma RatioStands(d: int, estimate: int, c: nat, point: int, q: Ratio, unit: real)
    requires 0 < d < INFINITY
    requires (c == 1 && point == estimate + 1) || (c == 10 && point == estimate)
    requires var k, u := Factor(true, LowerBoundaryIsCloser(d)), UnitOf(Exponent(d), estimate);
      && q.n == c * (k * (Significand(d) * u))
      && q.d == k * BaseOf(Exponent(d), estimate)
      && q.below == c * u && q.above == c * (if LowerBoundaryIsCloser(d) then 2 * u else u)
      && q.even == (d % 2 == 0)
    requires (q.d as real) * unit == Ten(point - 1)
    ensures Stands(q, unit, point, Value(d), ReadsBack(d))
  {
    hide Pow, RPow, UnitOf, BaseOf, Fraction, BiasedExponent, Significand, Exponent, Midpoint, Value;
    var f, e, u := Significand(d), Exponent(d), UnitOf(Exponent(d), estimate);
    var k := Factor(true, LowerBoundaryIsCloser(d));
    UnitWorth(e, estimate, k, c, point, unit);
    UnitProducts(c, k, f, u);
    ScaledRatioStands(d, k, c * u, point, q, unit);
  }

  lemma ScaledRatioStands(d: int, k: nat, u: nat, point: int, q: Ratio, unit: real)
    requires 0 < d < INFINITY && k == (if LowerBoundaryIsCloser(d) then 4 else 2)
    requires q.n == k * (Significand(d) * u) && q.below == u && q.above == (k / 2) * u && q.even == (d % 2 == 0)
    requires ((k * u) as real) * unit == Two(Exponent(d)) && unit > 0.0
    requires (q.d as real) * unit == Ten(point - 1)
    ensures Stands(q, unit, point, Value(d), ReadsBack(d))
  {
    hide Pow, RPow, Ten, Fraction, BiasedExponent, Significand, Exponent, Scaled;
    var f: int, e := Significand(d), Exponent(d);
    LowerNeighbour(d);
    UnitShare(k, u, unit, e);
    ScaledUp(f, e);
    if k == 2 {
      HalfUnits(f, u, q, unit, e - 1);
    } else {
      ScaledUp(2 * f, e - 1);
      ScaledUp(2 * f + 1, e - 1);
      QuarterUnits(f, u, q, unit, e - 2);
    }
  }

  lemma HalfUnits(f: int, u: nat, q: Ratio, unit: real, e: int)
    requires (u as real) * unit == Two(e) && q.n == 2 * (f * u) && q.below == u && q.above == u
    ensures (q.n as real) * unit == Scaled(2 * f, e)
    ensures ((q.n - q.below) as real) * unit == Scaled(2 * f - 1, e)
    ensures ((q.n + q.above) as real) * unit == Scaled(2 * f + 1, e)
  {
    hide Two, Scaled;
    assert q.n == 2 * f * u;
    assert q.n - q.below == (2 * f - 1) * u;
    assert q.n + q.above == (2 * f + 1) * u;
    Worth(2 * f, u, q.n, unit, e);
    Worth(2 * f - 1, u, q.n - q.below, unit, e);
    Worth(2 * f + 1, u, q.n + q.above, unit, e);
  }

  lemma QuarterUnits(f: int, u: nat, q: Ratio, unit: real, e: int)
    requires (u as real) * unit == Two(e) && q.n == 4 * (f * u) && q.below == u && q.above == 2 * u
    ensures (q.n as real) * unit == Scaled(4 * f, e)
    ensures ((q.n - q.below) as real) * unit == Scaled(4 * f - 1, e)
    ensures ((q.n + q.above) as real) * unit == Scaled(4 * f + 2, e)
  {
    hide Two, Scaled;
    assert q.n == 4 * f * u;
    assert q.n - q.below == (4 * f - 1) * u;
    assert q.n + q.above == (4 * f + 2) * u;
    Worth(4 * f, u, q.n, unit, e);
    Worth(4 * f - 1, u, q.n - q.below, unit, e);
    Worth(4 * f + 2, u, q.n + q.above, unit, e);
  }

  lemma UnitShare(k: nat, u: nat, unit: real, e: int)
    requires ((k * u) as real) * unit == Two(e) && (k == 2 || k == 4)
    ensures (u as real) * unit == Two(if k == 2 then e - 1 else e - 2)
  {
    hide RPow;
    TwoNext(e - 1);
    TwoNext(e - 2);
    assert (k * u) as real == (k as real) * (u as real) by {
      RealProduct(k, u);
    }
    RMulAssoc(k as real, u as real, unit);
  }

  lemma Worth(m: int, u: nat, x: int, unit: real, e: int)
    requires x == m * u && (u as real) * unit == Two(e)
    ensures (x as real) * unit == Scaled(m, e)
  {
    hide RPow;
    RealProduct(m, u);
    RMulAssoc(m as real, u as real, unit);
  }

  lemma UnitProducts(c: nat, k: nat, f: nat, u: nat)
    ensures c * (k * (f * u)) == k * (f * (c * u)) && c * k * u == k * (c * u)
    ensures c * (2 * u) == 2 * (c * u)
  {
    MulAssoc(c, k, f * u);
    MulAssoc(c, f, u);
    MulAssoc(c, k, u);
    MulAssoc(c, 2, u);
  }

  /** The lower boundary: half a unit down, or a quarter just above a power of two. */
  lemma LowerNeighbour(d: int)
    requires 0 < d < INFINITY
    ensures Midpoint(d - 1) == if LowerBoundaryIsCloser(d) then Scaled(4 * Significand(d) - 1, Exponent(d) - 2)
      else Scaled(2 * Significand(d) - 1, Exponent(d) - 1)
  {
    hide Scaled;
    NextFields(d - 1);
  }
}
