// Grisu3: the fast path of double to text (fast-dtoa.cc).
module FastDtoas {
  import opened MachineInts
  import opened Powers
  import opened RealPowers
  import opened Decimals
  import opened DiyFps
  import opened NormalizedDoubles
  import opened CachedPowers
  import opened DigitGens
  import opened RoundWeeds
  import opened GrisuRounding
  import opened CountedDigitGens
  import opened CountedRounding
  import opened DecimalRounding
  import opened DtoaBounds
  import opened DtoaModes
  import opened Ieee
  import opened PowerNeighbours
  import opened PowerTables

  /** A product with a cached power is off by less than one unit: half a unit, made of the power's
      half unit shrunk by the product, and half a unit for rounding the product. */
  lemma TimesWithinUnit(f: nat, e: int, c: nat, ce: int, mk: int, x: real)
    requires 0 < f < 0x1_0000_0000_0000_0000 && WithinHalfUnit(c, ce, mk) && x == Scaled(f, e) * Ten(mk)
    ensures WithinUnit(x, Product(f, c), e + ce + 64)
  {
    hide RPow, Ten, Two, Product;
    var p, unit := Product(f, c), Two(e + ce + 64);
    var exact := ((f * c) as real) * Two(e + ce);
    TwoAdd(e, ce);
    TwoTo63(e + ce);
    ProductError(f, c);
    RoundingError(f * c, p, Two(e + ce), unit);
    PowerError(f as real, Two(e), c as real, Two(ce), Ten(mk), x, exact, unit) by {
      TwoNext(ce - 1);
      RealProduct(f, c);
    }
    assert Scaled(p - 1, e + ce + 64) == (p as real) * unit - unit;
    assert Scaled(p + 1, e + ce + 64) == (p as real) * unit + unit;
  }

  lemma RoundingError(m: int, p: int, u: real, unit: real)
    requires 0x1_0000_0000_0000_0000 * p - 0x8000_0000_0000_0000 <= m < 0x1_0000_0000_0000_0000 * p + 0x8000_0000_0000_0000
    requires u > 0.0 && unit == 18446744073709551616.0 * u
    ensures (p as real) * unit - unit / 2.0 <= (m as real) * u <= (p as real) * unit + unit / 2.0
  {
    var big := 18446744073709551616.0 * (p as real);
    TimesBetween(m as real, big, 9223372036854775808.0, u, (p as real) * unit, unit / 2.0);
  }

  lemma TimesBetween(m: real, big: real, h: real, u: real, bigU: real, hU: real)
    requires big - h <= m <= big + h && u > 0.0 && bigU == big * u && hU == h * u
    ensures bigU - hU <= m * u <= bigU + hU
  {
    RMulMono(big - h, m, u);
    RMulMono(m, big + h, u);
    SumTimes(u, big, h);
  }

  /** The error of the cached power, carried through the product. */
  lemma PowerError(f: real, two: real, c: real, power: real, ten: real, x: real, exact: real, unit: real)
    requires 0.0 < f < 18446744073709551616.0 && two > 0.0 && power > 0.0
    requires x == f * two * ten && exact == f * c * (two * power) && unit == 18446744073709551616.0 * (two * power)
    requires Abs(c * power - ten) < power / 2.0
    ensures exact - unit / 2.0 < x < exact + unit / 2.0
  {
    var a, y, h := f * two, c * power, power / 2.0;
    assert a > 0.0 by {
      RMulMono(0.0, f, two);
    }
    assert (y - h) * a < ten * a < (y + h) * a by {
      RMulMono(y - h, ten, a);
      RMulMono(ten, y + h, a);
    }
    assert x == ten * a;
    assert a * y == exact;
    SumTimes(a, y, h);
    HalfOf(f, two, power, a * h, unit);
  }

  lemma HalfOf(f: real, two: real, power: real, ah: real, unit: real)
    requires 0.0 < f < 18446744073709551616.0 && two > 0.0 && power > 0.0
    requires ah == f * two * (power / 2.0) && unit == 18446744073709551616.0 * (two * power)
    ensures ah < unit / 2.0
  {
    var u := two * power;
    RMulMono(0.0, two, power);
    RMulMono(f, 18446744073709551616.0, u);
    assert 2.0 * ah == f * u;
  }

  lemma SumTimes(a: real, x: real, h: real)
    ensures (x - h) * a == a * x - a * h && (x + h) * a == a * x + a * h
  {
  }

  // ----- sizes -----

  lemma ProductLarge(a: uint64, c: uint64)
    requires a >= 0x4000_0000_0000_0000 && c >= 0x8000_0000_0000_0000
    ensures Product(a, c) >= 0x2000_0000_0000_0000
    ensures a >= 0x8000_0000_0000_0000 ==> Product(a, c) >= 0x4000_0000_0000_0000
  {
    MulMono(0x8000_0000_0000_0000, c, a);
  }

  lemma ProductGap(a: uint64, b: uint64, c: uint64)
    requires a + 1024 <= b && c >= 0x8000_0000_0000_0000
    ensures Product(a, c) + 2 <= Product(b, c)
  {
    MulMono(a + 1024, b, c);
    Distribute(c, a, 1024);
  }

  /** An interval that is wide enough stays wide enough for 17 digits. */
  lemma ProductRatio(a: uint64, b: uint64, c: uint64)
    requires a <= b && b <= 10_000_000_000_000_000 * (b - a)
    ensures Product(b, c) + 1 <= (Product(b, c) - Product(a, c) + 2) * Pow(10, 16)
  {
    hide Product, Pow;
    SixteenZeros();
    ProductError(a, c);
    ProductError(b, c);
    MulMono(b, 10_000_000_000_000_000 * (b - a), c);
    MulAssoc(10_000_000_000_000_000, b - a, c);
    Distribute(c, b, 0 - a);
  }

  lemma SixteenZeros()
    ensures Pow(10, 16) == 10_000_000_000_000_000
  {
    hide Pow;
    PowAdd(10, 8, 8);
    TenTo8();
  }

  /** The significands of the normalized double and its boundaries. */
  ghost predicate BoundariesOf(d: int, low: int, w: int, high: int)
    requires 0 < d < INFINITY
  {
    FieldRange(d);
    var f, k := Significand(d), Leading(Significand(d));
    && k >= 11 && w == f * Pow(2, k) && w >= 0x8000_0000_0000_0000 && high == (2 * f + 1) * Pow(2, k - 1)
    && low == (if LowerBoundaryIsCloser(d) then (4 * f - 1) * Pow(2, k - 2) else (2 * f - 1) * Pow(2, k - 1))
  }

  /** Their common exponent. */
  function NormalizedExponent(d: int): int
    requires 0 < d < INFINITY
  {
    FieldRange(d);
    Exponent(d) - Leading(Significand(d))
  }

  /** The products made of them are as DigitGen needs them. */
  lemma GrisuSizes(d: int, low: uint64, w: uint64, high: uint64, c: uint64)
    requires 0 < d < INFINITY && c >= 0x8000_0000_0000_0000 && BoundariesOf(d, low, w, high)
    ensures 0 < low && 0 < w && 0 < high
    ensures 1 <= Product(low, c) <= Product(w, c) <= Product(high, c) < 0xFFFF_FFFF_FFFF_FFFF
    ensures Product(low, c) + 2 <= Product(high, c) && Product(high, c) >= 0x4000_0000_0000_0000
    ensures Product(high, c) + 1 <= (Product(high, c) - Product(low, c) + 2) * Pow(10, 16)
  {
    hide Product, Pow, Leading, Significand, LowerBoundaryIsCloser;
    var f, k := Significand(d), Leading(Significand(d));
    var p := Pow(2, k - 2);
    FieldRange(d);
    CloserIsPower(d);
    PowMono(2, 9, k - 2);
    NineBits();
    PowNext(2, k - 2);
    PowNext(2, k - 1);
    QuarterShifts(f, p);
    MulAssoc(f, 4, p);
    BoundaryGap(f, p, LowerBoundaryIsCloser(d), low, w, high);
    ProductFits(high, c);
    ProductMono(low, w, c);
    ProductMono(w, high, c);
    ProductLarge(low, c);
    ProductLarge(w, c);
    ProductGap(low, high, c);
    ProductRatio(low, high, c);
  }

  lemma BoundaryGap(f: nat, p: nat, closer: bool, low: int, w: int, high: int)
    requires 0 < f < 9007199254740992 && p >= 512 && (closer ==> f == 4503599627370496)
    requires w == 4 * (f * p) && high == 4 * (f * p) + 2 * p && low == 4 * (f * p) - (if closer then p else 2 * p)
    requires w >= 0x8000_0000_0000_0000
    ensures 0x4000_0000_0000_0000 <= low < w < high && low + 1024 <= high
    ensures high <= 10_000_000_000_000_000 * (high - low)
  {
    MulMono(1, f, p);
    MulMono(f, 9007199254740991, p);
  }

  // ----- the shortest mode -----

  /** Fast shortest digits, or failure. The logarithm for choosing the cached power is the one the
      source computes in floating point. */
  method Grisu3(d: uint64, buffer: array<char>, table: seq<CachedPower>, ceilLog: int)
    returns (ok: bool, length: nat, decimalExponent: int)
    requires 0 < d < INFINITY && buffer.Length >= 17 && IsPowerTable(table)
    requires IsCeilLog(-61 - NormalizedExponent(d), ceilLog)
    modifies buffer
    ensures length <= 17
    ensures ok ==> ShortestDigits(buffer[..length], length + decimalExponent, d)
    ensures ok ==> OnlyClosest(buffer[..length], length + decimalExponent, Value(d), ReadsBack(d))
  {
    hide Pow, RPow, Ten, Two, Leading, Significand, Exponent, LowerBoundaryIsCloser, Product, IsPowerTable, IsCeilLog,
      WithinHalfUnit, Generated, ShortestDigits, OnlyClosest, ReadsBack, Value, BoundariesOf, NormalizedExponent;
    var w, boundaryMinus, boundaryPlus := NormalizedNumbers(d);
    NormalizedRange(d);
    var minExponent, maxExponent := -60 - (w.e + 64), -32 - (w.e + 64);
    var tenMk, mk := GetCachedPowerForBinaryExponentRange(table, minExponent, maxExponent, ceilLog);
    NormalizedPower(tenMk.f, tenMk.e, mk);
    var scaledW := DiyFp.Times(w, tenMk);
    var scaledMinus := DiyFp.Times(boundaryMinus, tenMk);
    var scaledPlus := DiyFp.Times(boundaryPlus, tenMk);
    GrisuSizes(d, boundaryMinus.f, w.f, boundaryPlus.f, tenMk.f);
    var kappa;
    ok, length, kappa := DigitGen(scaledMinus, scaledW, scaledPlus, buffer, 17);
    decimalExponent := -mk + kappa;
    if ok {
      Grisu3IsShortest(d, boundaryMinus.f, w.f, boundaryPlus.f, tenMk.f, tenMk.e, mk, buffer[..length], kappa);
    }
  }

  method NormalizedNumbers(d: uint64) returns (w: DiyFp, boundaryMinus: DiyFp, boundaryPlus: DiyFp)
    requires 0 < d < INFINITY
    ensures fresh(w) && fresh(boundaryMinus) && fresh(boundaryPlus)
    ensures BoundariesOf(d, boundaryMinus.f, w.f, boundaryPlus.f)
    ensures w.e == boundaryMinus.e == boundaryPlus.e == NormalizedExponent(d)
  {
    hide Pow, Leading, Significand, Exponent, LowerBoundaryIsCloser;
    w := AsNormalizedDiyFp(d);
    boundaryMinus, boundaryPlus := NormalizedBoundaries(d);
  }

  lemma NormalizedPower(c: int, ce: int, mk: int)
    requires WithinHalfUnit(c, ce, mk)
    ensures c >= 0x8000_0000_0000_0000
  {
  }

  lemma NormalizedRange(d: int)
    requires 0 < d < INFINITY
    ensures -1137 <= NormalizedExponent(d) <= 960
  {
    hide Leading, Significand, Exponent;
    FieldRange(d);
    AtLeastEleven(Significand(d));
  }

  /** The three scaled numbers are within one unit of the scaled double and its boundaries. */
  lemma Grisu3Inputs(d: int, low: uint64, w: uint64, high: uint64, c: uint64, ce: int, mk: int, v: real)
    requires 0 < d < INFINITY && WithinHalfUnit(c, ce, mk) && v == Value(d) * Ten(mk)
    requires BoundariesOf(d, low, w, high) && low > 0 && w > 0 && high > 0
    ensures var e, range := NormalizedExponent(d) + ce + 64, ScaledInterval(ReadsBack(d), mk);
      && WithinUnit(range.low, Product(low, c), e) && WithinUnit(v, Product(w, c), e)
      && WithinUnit(range.high, Product(high, c), e)
  {
    hide Pow, Ten, Two, Leading, Significand, Exponent, LowerBoundaryIsCloser, Product, WithinHalfUnit, Scaled, WithinUnit,
      BoundariesOf;
    var range, x := ScaledInterval(ReadsBack(d), mk), NormalizedExponent(d);
    NormalizedValues(d, low, w, high);
    TimesWithinUnit(low, x, c, ce, mk, range.low);
    TimesWithinUnit(w, x, c, ce, mk, v);
    TimesWithinUnit(high, x, c, ce, mk, range.high);
  }

  /** Normalizing keeps the values. */
  lemma NormalizedValues(d: int, low: uint64, w: uint64, high: uint64)
    requires 0 < d < INFINITY && BoundariesOf(d, low, w, high)
    ensures Scaled(low, NormalizedExponent(d)) == Midpoint(d - 1)
    ensures Scaled(w, NormalizedExponent(d)) == Value(d)
    ensures Scaled(high, NormalizedExponent(d)) == Midpoint(d)
  {
    hide Pow, Two, Leading, Significand, Exponent, LowerBoundaryIsCloser, Scaled;
    var f: int, x, k := Significand(d), Exponent(d), Leading(Significand(d));
    ScaledShift(f, k, x);
    ScaledShift(2 * f + 1, k - 1, x - 1);
    ScaledShift(4 * f - 1, k - 2, x - 2);
    ScaledShift(2 * f - 1, k - 1, x - 1);
    LowerNeighbour(d);
  }

  lemma Grisu3IsShortest(d: int, low: uint64, w: uint64, high: uint64, c: uint64, ce: int, mk: int, s: seq<char>, kappa: int)
    requires 0 < d < INFINITY && WithinHalfUnit(c, ce, mk)
    requires BoundariesOf(d, low, w, high) && low > 0 && w > 0 && high > 0
    requires var e := NormalizedExponent(d) + ce + 64;
      e <= 0 && Generated(s, kappa, Pow(2, -e), Product(low, c), Product(w, c), Product(high, c))
    ensures ShortestDigits(s, |s| - mk + kappa, d) && OnlyClosest(s, |s| - mk + kappa, Value(d), ReadsBack(d))
  {
    hide Pow, Ten, Two, Leading, Significand, Exponent, LowerBoundaryIsCloser, Product, WithinHalfUnit, Scaled, WithinUnit,
      Generated, Value, Midpoint, BoundariesOf, NormalizedExponent, DecimalAt, DecimalValue, IsShortest, AllFarther;
    var e := NormalizedExponent(d) + ce + 64;
    var range := ScaledInterval(ReadsBack(d), mk);
    var point, v := |s| - mk + kappa, Value(d) * Ten(mk);
    Grisu3Inputs(d, low, w, high, c, ce, mk, v);
    GeneratedIsShortest(s, kappa, e, Product(low, c), Product(w, c), Product(high, c), range, v);
    assert range.Has(Denoted(s, point + mk));
    Unscale(s, point, Value(d), ReadsBack(d), mk, v);
    OnlyIsClosest(s, point, Value(d), ReadsBack(d));
  }

  lemma OnlyIsClosest(s: seq<char>, point: int, v: real, range: Interval)
    requires OnlyClosest(s, point, v, range)
    ensures IsClosest(s, point, v, range)
  {
    hide DecimalAt, DecimalValue;
    var x, e := DecimalValue(s), point - |s|;
    forall y: int | range.Has(DecimalAt(y, e))
      ensures Abs(DecimalAt(x, e) - v) <= Abs(DecimalAt(y, e) - v)
    {
    }
  }

  // ----- the counted mode -----

  /** The double rounded half up to the digits asked for, or failure. */
  method Grisu3Counted(d: uint64, requestedDigits: nat, buffer: array<char>, table: seq<CachedPower>, ceilLog: int)
    returns (ok: bool, length: nat, decimalExponent: int, ghost magnitude: int)
    requires 0 < d < INFINITY && 1 <= requestedDigits <= buffer.Length && IsPowerTable(table)
    requires IsCeilLog(-61 - NormalizedExponent(d), ceilLog)
    modifies buffer
    ensures length <= requestedDigits
    ensures ok ==> CountedDigits(buffer[..length], length + decimalExponent, Value(d), requestedDigits, magnitude)
  {
    hide Pow, RPow, Ten, Two, Leading, Significand, Exponent, LowerBoundaryIsCloser, Product, IsPowerTable, IsCeilLog,
      WithinHalfUnit, CountedResult, CountedDigits, Value, NormalizedExponent;
    var w := NormalizedDouble(d);
    NormalizedRange(d);
    var minExponent, maxExponent := -60 - (w.e + 64), -32 - (w.e + 64);
    var tenMk, mk := GetCachedPowerForBinaryExponentRange(table, minExponent, maxExponent, ceilLog);
    NormalizedPower(tenMk.f, tenMk.e, mk);
    var scaledW := DiyFp.Times(w, tenMk);
    ProductLarge(w.f, tenMk.f);
    var kappa;
    ghost var place;
    ok, length, kappa, place := DigitGenCounted(scaledW, requestedDigits, buffer);
    decimalExponent := -mk + kappa;
    magnitude := 0;
    if ok {
      magnitude := CountedSuccess(d, w.f, tenMk.f, tenMk.e, mk, buffer[..length], kappa, place, requestedDigits);
    }
  }

  method NormalizedDouble(d: uint64) returns (w: DiyFp)
    requires 0 < d < INFINITY
    ensures fresh(w) && w.f >= 0x8000_0000_0000_0000 && w.e == NormalizedExponent(d)
    ensures Scaled(w.f, w.e) == Value(d)
  {
    hide Pow, Leading, Significand, Exponent, Scaled;
    w := AsNormalizedDiyFp(d);
    ScaledShift(Significand(d), Leading(Significand(d)), Exponent(d));
  }

  lemma CountedSuccess(d: int, w: uint64, c: uint64, ce: int, mk: int, s: seq<char>, kappa: int, place: int, count: nat)
    returns (magnitude: int)
    requires 0 < d < INFINITY && WithinHalfUnit(c, ce, mk) && w >= 0x8000_0000_0000_0000
    requires Scaled(w, NormalizedExponent(d)) == Value(d)
    requires var e := NormalizedExponent(d) + ce + 64;
      e <= 0 && CountedResult(s, kappa, place, count, Pow(2, -e), Product(w, c))
    ensures CountedDigits(s, |s| - mk + kappa, Value(d), count, magnitude)
  {
    hide Pow, RPow, Ten, Two, Product, WithinHalfUnit, Scaled, WithinUnit, Value, NormalizedExponent, DecimalAt, DecimalValue,
      CountedDigits, SafelyRounded, AlmostPower;
    var e, v, point := NormalizedExponent(d) + ce + 64, Value(d) * Ten(mk), |s| - mk + kappa;
    NormalizedPower(c, ce, mk);
    ProductLarge(w, c);
    TimesWithinUnit(w, NormalizedExponent(d), c, ce, mk, v);
    ProductFits(w, c);
    var m := CountedIsExact(s, kappa, place, count, e, Product(w, c), v);
    magnitude := m - mk;
    if CountedDigits(s, point + mk, v, count, m) {
      CountedUnscaled(s, point, Value(d), count, magnitude, mk, v);
    } else {
      AlmostUnscaled(Value(d), magnitude, mk, v);
      NoneAlmostPower(d, magnitude);
    }
  }

  lemma AlmostUnscaled(v: real, m: int, k: int, scaled: real)
    requires scaled == v * Ten(k) && AlmostPower(scaled, m + k)
    ensures AlmostPower(v, m)
  {
    hide Ten;
    TenAdd(m, k);
    AlmostScaled(v, Ten(m), Ten(k), scaled, Ten(m + k), 4611686018427387903.0);
  }

  lemma AlmostScaled(v: real, power: real, t: real, vt: real, powerT: real, parts: real)
    requires t > 0.0 && vt == v * t && powerT == power * t && vt < powerT && (powerT - vt) * parts < powerT
    ensures v < power && (power - v) * parts < power
  {
    RMulCancel(v, power, t);
    assert (power - v) * parts * t == (powerT - vt) * parts;
    RMulCancel((power - v) * parts, power, t);
  }

  lemma CountedUnscaled(s: seq<char>, point: int, v: real, count: nat, magnitude: int, k: int, scaled: real)
    requires scaled == v * Ten(k) && CountedDigits(s, point + k, scaled, count, magnitude + k)
    ensures CountedDigits(s, point, v, count, magnitude)
  {
    hide Ten, DecimalAt, DecimalValue;
    var x := DecimalValue(s);
    DecimalAtScaled(x, point - count, k);
    TenAdd(magnitude - 1, k);
    TenAdd(magnitude, k);
    TenAdd(magnitude - count, k);
    RMulCancel(Ten(magnitude - 1), v, Ten(k));
    RMulCancel(v, Ten(magnitude), Ten(k));
    HalfUpUnscaled(v, Denoted(s, point), Ten(magnitude - count), Ten(k), scaled, Denoted(s, point + k), Ten(magnitude - count + k));
  }

  lemma HalfUpUnscaled(v: real, x: real, unit: real, t: real, vt: real, xt: real, unitT: real)
    requires t > 0.0 && vt == v * t && xt == x * t && unitT == unit * t && RoundedHalfUp(vt, xt, unitT)
    ensures RoundedHalfUp(v, x, unit)
  {
    RMulCancel(x - unit / 2.0, v, t);
    RMulCancel(v, x + unit / 2.0, t);
    SumTimes(t, x, unit / 2.0);
  }
}
