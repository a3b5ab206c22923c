// BignumDtoa: the exact path of double to text in its three modes.
module DtoaModes {
  import opened MachineInts
  import opened Powers
  import opened RealPowers
  import opened Bigits
  import opened BigitSteps
  import opened Decimals
  import opened DigitRatios
  import opened Bignums
  import opened BignumDtoas
  import opened ScaledStarts
  import opened DtoaBounds
  import opened DecimalRounding
  import opened RatioRounding
  import opened Ieee

  datatype Mode = Shortest | Fixed | Precision

  /** The digits are a shortest decimal that reads back as d, and as close to d as any that short; on a tie
      the last digit is even. */
  ghost predicate ShortestDigits(s: seq<char>, point: int, d: int)
    requires 0 < d < INFINITY
  {
    && s != [] && AreDigits(s) && s[0] != '0'
    && ReadsBack(d).Has(Denoted(s, point))
    && IsShortest(s, ReadsBack(d)) && IsClosest(s, point, Value(d), ReadsBack(d))
  }

  /** v, which lies between 10^(magnitude - 1) and 10^magnitude, rounded half up to `count` digits. */
  ghost predicate CountedDigits(s: seq<char>, point: int, v: real, count: nat, magnitude: int) {
    && |s| == count > 0 && AreDigits(s) && s[0] != '0'
    && Ten(magnitude - 1) <= v < Ten(magnitude)
    && magnitude <= point <= magnitude + 1
    && RoundedHalfUp(v, Denoted(s, point), Ten(magnitude - count))
  }

  /** v rounded half up to `places` places after the point; no digits stand for zero. */
  ghost predicate FixedDigits(s: seq<char>, point: int, v: real, places: nat) {
    && AreDigits(s) && (s != [] ==> s[0] != '0')
    && point - |s| + places >= 0
    && (s == [] ==> point == 0 - places)
    && RoundedHalfUp(v, Denoted(s, point), Ten(0 - places))
  }

  method BignumDtoa(d: uint64, mode: Mode, requestedDigits: nat, estimate: int, buffer: array<char>)
    returns (length: nat, decimalPoint: int, ghost magnitude: int)
    requires EstimateContract(d, estimate)
    requires mode.Shortest? ==> buffer.Length >= 18
    requires mode.Precision? ==> 1 <= requestedDigits < buffer.Length
    requires mode.Fixed? ==> buffer.Length >= 2 && estimate + 1 + requestedDigits < buffer.Length
    modifies buffer
    ensures length < buffer.Length && buffer[length] == '\0'
    ensures mode.Shortest? ==> length <= 17 && ShortestDigits(buffer[..length], decimalPoint, d)
    ensures mode.Precision? ==> CountedDigits(buffer[..length], decimalPoint, Value(d), requestedDigits, magnitude)
    ensures mode.Fixed? ==> FixedDigits(buffer[..length], decimalPoint, Value(d), requestedDigits)
  {
    hide Weight, Pow, Value, Midpoint, UnitOf, BaseOf, Bignum.Valid, Bignum.Value, ShortestDigits, CountedDigits, FixedDigits;
    if mode.Fixed? && -estimate - 1 > requestedDigits {
      buffer[0] := '\0';
      FarTooSmall(d, estimate, requestedDigits, buffer[..0]);
      return 0, 0 - requestedDigits, 0;
    }
    var numerator, denominator, deltaMinus, deltaPlus := FourNumbers();
    EstimateRange(d, estimate);
    if mode.Shortest? {
      magnitude := 0;
      length, decimalPoint := ShortestMode(d, estimate, numerator, denominator, deltaMinus, deltaPlus, buffer);
    } else {
      length, decimalPoint, magnitude :=
        RoundingMode(d, mode, requestedDigits, estimate, numerator, denominator, deltaMinus, deltaPlus, buffer);
    }
    ghost var s := buffer[..length];
    buffer[length] := '\0';
    assert buffer[..length] == s;
  }

  method FourNumbers() returns (a: Bignum, b: Bignum, c: Bignum, d: Bignum)
    ensures fresh(a) && fresh(b) && fresh(c) && fresh(d)
    ensures fresh(a.bigits) && fresh(b.bigits) && fresh(c.bigits) && fresh(d.bigits)
    ensures AllApart(a, b, c, d)
    ensures FreshValue(a) && FreshValue(b) && FreshValue(c) && FreshValue(d)
  {
    a := new Bignum();
    b := new Bignum();
    c := new Bignum();
    d := new Bignum();
  }

  method ShortestMode(d: uint64, estimate: int, numerator: Bignum, denominator: Bignum,
      deltaMinus: Bignum, deltaPlus: Bignum, buffer: array<char>) returns (length: nat, decimalPoint: int)
    requires EstimateContract(d, estimate) && buffer.Length >= 18
    requires AllApart(numerator, denominator, deltaMinus, deltaPlus)
    requires FreshValue(numerator) && FreshValue(denominator) && FreshValue(deltaMinus) && FreshValue(deltaPlus)
    modifies numerator, numerator.bigits, denominator, denominator.bigits
    modifies deltaMinus, deltaMinus.bigits, deltaPlus, deltaPlus.bigits, buffer
    ensures length <= 17 && ShortestDigits(buffer[..length], decimalPoint, d)
  {
    hide Weight, Pow, Value, Midpoint, UnitOf, BaseOf, Bignum.Valid, Bignum.Value, Small, Significand, Exponent,
      ShortestResult, Ratio.Valid, Ratio.BelowTen, Ratio.ReachesOne, Stands, IsShortest, IsClosest, EstimateContract;
    EstimateRange(d, estimate);
    InitialScaledStartValues(Significand(d), Exponent(d), LowerBoundaryIsCloser(d), estimate, true,
      numerator, denominator, deltaMinus, deltaPlus);
    ghost var n, low, high := numerator.Value(), deltaMinus.Value(), deltaPlus.Value();
    BaseIsSmall(Exponent(d), estimate, Factor(true, LowerBoundaryIsCloser(d)));
    decimalPoint := FixupMultiply10(estimate, Significand(d) % 2 == 0, numerator, denominator, deltaMinus, deltaPlus);
    ghost var q := Ratio(numerator.Value(), denominator.Value(), deltaMinus.Value(), deltaPlus.Value(), Significand(d) % 2 == 0);
    ghost var unit := ShortestStart(d, estimate, n, low, high, decimalPoint, q);
    length := GenerateShortestDigits(numerator, denominator, deltaMinus, deltaPlus, Significand(d) % 2 == 0, buffer, q, 17);
    ShortestResultIsShortest(q, unit, decimalPoint, Value(d), ReadsBack(d), buffer[..length]);
    ResultDigits(q, buffer[..length]);
  }

  lemma ResultDigits(q: Ratio, s: seq<char>)
    requires ShortestResult(q, s)
    ensures s != [] && AreDigits(s) && s[0] != '0'
  {
  }

  /** The denominator leaves room for the digit loops. */
  lemma BaseIsSmall(e: int, estimate: int, k: nat)
    requires InDoubleRange(e, estimate) && 1 <= k <= 4
    ensures Small(k * BaseOf(e, estimate)) && k * BaseOf(e, estimate) > 0
  {
    hide Pow, Weight;
    var two, ten := Pow(2, Max(-e, 0)), Pow(10, Max(estimate, 0));
    TenBelowTwo(Max(estimate, 0));
    WeightIsPower(39);
    WeightIsPower(58);
    WeightIsPower(97);
    PowAdd(2, 1092, 1624);
    PowMono(2, Max(-e, 0), 1092);
    MulMono(two, Weight(39), ten);
    MulMono(ten, Weight(58), Weight(39));
    MulMono(k, 4, BaseOf(e, estimate));
    MulStrict(0, k, BaseOf(e, estimate));
    WeightOne(97);
    WeightMono(98, 120);
  }

  lemma WeightOne(n: nat)
    ensures Weight(n + 1) == 0x1000_0000 * Weight(n) && Weight(n) > 0
  {
  }

  /** After the scaling the ratio starts with its first digit, stands for v, and needs no more
      than 17 digits. */
  lemma ShortestStart(d: int, estimate: int, n: nat, low: nat, high: nat, point: int, q: Ratio) returns (unit: real)
    requires EstimateContract(d, estimate)
    requires var k, u := Factor(true, LowerBoundaryIsCloser(d)), UnitOf(Exponent(d), estimate);
      && n == k * (Significand(d) * u) && low == u && high == (if LowerBoundaryIsCloser(d) then 2 * u else u)
      && q.d == k * BaseOf(Exponent(d), estimate) && q.even == (Significand(d) % 2 == 0)
    requires var inRange := if q.even then n + high >= q.d else n + high > q.d;
      var c := if inRange then 1 else 10;
      && point == (if inRange then estimate + 1 else estimate)
      && q.n == c * n && q.below == c * low && q.above == c * high
    ensures q.Valid() && q.BelowTen(q.n, q.above) && q.ReachesOne()
    ensures q.d < (q.below + q.above) * Pow(10, 16)
    ensures Stands(q, unit, point, Value(d), ReadsBack(d))
  {
    hide Pow, Ten, Value, Midpoint, UnitOf, BaseOf, Significand, Exponent, Fraction, BiasedExponent, Stands,
      Ratio.BelowTen, LowerBoundaryIsCloser, Ratio.ReachesOne, Two;
    var k, u := Factor(true, LowerBoundaryIsCloser(d)), UnitOf(Exponent(d), estimate);
    var c := if point == estimate + 1 then 1 else 10;
    MulStrict(0, k, BaseOf(Exponent(d), estimate));
    unit := UnitFor(q.d, point);
    SameParity(d);
    RatioStands(d, estimate, c, point, q, unit);
    FieldRange(d);
    StartSizes(d, k, u, c, q);
    FirstPlace(d, estimate, c, point, q, unit);
    EnoughDigits(d, k, q);
  }

  lemma EnoughDigits(d: int, k: nat, q: Ratio)
    requires 0 < d < INFINITY && k == (if LowerBoundaryIsCloser(d) then 4 else 2)
    requires q.Valid() && q.n == k * (Significand(d) * q.below) && q.above == (k / 2) * q.below && q.ReachesOne()
    ensures q.d < (q.below + q.above) * Pow(10, 16)
  {
    hide Pow, Significand, LowerBoundaryIsCloser, Ratio.ReachesOne;
    FieldRange(d);
    CloserIsPower(d);
    ReachesDenominator(q);
    SixteenDigits(q.below, Significand(d), k, q);
  }

  lemma ReachesDenominator(q: Ratio)
    requires q.ReachesOne()
    ensures q.d <= q.n + q.above
  {
  }

  lemma CloserIsPower(d: int)
    requires 0 < d < INFINITY
    ensures LowerBoundaryIsCloser(d) ==> Significand(d) == 4503599627370496
  {
  }

  lemma UnitFor(d: nat, point: int) returns (unit: real)
    requires d > 0
    ensures (d as real) * unit == Ten(point - 1) && unit > 0.0
  {
    unit := Ten(point - 1) / (d as real);
    if unit <= 0.0 {
      RMulMono(unit, 0.0, d as real);
    }
  }

  lemma StartSizes(d: int, k: nat, u: nat, c: nat, q: Ratio)
    requires 0 < d < INFINITY && Significand(d) > 0 && u > 0 && (c == 1 || c == 10)
    requires k == (if LowerBoundaryIsCloser(d) then 4 else 2)
    requires q.d > 0 && q.n == c * (k * (Significand(d) * u)) && q.below == c * u
    requires q.above == c * (if LowerBoundaryIsCloser(d) then 2 * u else u)
    ensures q.Valid() && q.n == k * (Significand(d) * q.below) && q.above == (k / 2) * q.below
  {
    hide Significand, LowerBoundaryIsCloser;
    var f, doubled := Significand(d), LowerBoundaryIsCloser(d);
    SameSizes(f, u, f * u, c, k, doubled, q.n, q.below, q.above);
  }

  lemma SameSizes(f: nat, u: nat, z: nat, c: nat, k: nat, doubled: bool, n: nat, below: nat, above: nat)
    requires f > 0 && u > 0 && z == f * u && (c == 1 || c == 10) && k == (if doubled then 4 else 2)
    requires n == c * (k * z) && below == c * u && above == c * (if doubled then 2 * u else u)
    ensures 0 < below < n && above > 0 && n == k * (f * below) && above == (k / 2) * below
  {
    MulMono(1, f, u);
    MulAssoc(c, f, u);
    assert f * below == c * z;
  }

  lemma FirstPlace(d: int, estimate: int, c: nat, point: int, q: Ratio, unit: real)
    requires EstimateContract(d, estimate) && q.Valid() && unit > 0.0
    requires Stands(q, unit, point, Value(d), ReadsBack(d))
    requires c == 1 && point == estimate + 1 ==> if q.even then q.n + q.above >= q.d else q.n + q.above > q.d
    requires c == 10 && point == estimate ==> if q.even then q.n + q.above < 10 * q.d else q.n + q.above <= 10 * q.d
    requires (c == 1 && point == estimate + 1) || (c == 10 && point == estimate)
    ensures q.BelowTen(q.n, q.above) && q.ReachesOne()
  {
    hide Ten, Value, Midpoint;
    TenNext(point - 1);
    MidpointIsMiddle(d);
    CompareUnits(q.n + q.above, q.d, unit, Midpoint(d), Ten(point - 1));
  }

  lemma CompareUnits(top: int, d: int, unit: real, x: real, place: real)
    requires unit > 0.0 && (top as real) * unit == x && (d as real) * unit == place
    ensures x > place ==> top > d
    ensures x >= place ==> top >= d
    ensures x < 10.0 * place ==> top < 10 * d
    ensures top >= d ==> x >= place
    ensures top < 10 * d ==> x < 10.0 * place
  {
    assert (10 * d) as real * unit == 10.0 * place;
    RMulCancel(top as real, (10 * d) as real, unit);
    RMulCancel((10 * d) as real, top as real, unit);
    RMulCancel(d as real, top as real, unit);
    RMulCancel(top as real, d as real, unit);
  }

  lemma SixteenDigits(u: nat, f: nat, k: nat, q: Ratio)
    requires u > 0 && f < 9007199254740992 && (k == 2 || k == 4)
    requires q.n == k * (f * u) && q.below == u && q.above == (k / 2) * u
    requires q.d <= q.n + q.above && (k == 4 ==> f == 4503599627370496)
    ensures q.d < (q.below + q.above) * Pow(10, 16)
  {
    assert Pow(10, 16) == 10_000_000_000_000_000 by {
      PowAdd(10, 8, 8);
      TenTo8();
    }
    assert q.n + q.above == (k * f + k / 2) * u;
    MulStrict(k * f + k / 2, (1 + k / 2) * 10_000_000_000_000_000, u);
  }

  lemma TenTo8()
    ensures Pow(10, 8) == 100_000_000
  {
  }

  // ----- rounding to a place -----

  method RoundingMode(d: uint64, mode: Mode, requestedDigits: nat, estimate: int, numerator: Bignum, denominator: Bignum,
      deltaMinus: Bignum, deltaPlus: Bignum, buffer: array<char>) returns (length: nat, decimalPoint: int, ghost magnitude: int)
    requires EstimateContract(d, estimate) && !mode.Shortest?
    requires mode.Precision? ==> 1 <= requestedDigits < buffer.Length
    requires mode.Fixed? ==> buffer.Length >= 2 && estimate + 1 + requestedDigits < buffer.Length
    requires AllApart(numerator, denominator, deltaMinus, deltaPlus)
    requires FreshValue(numerator) && FreshValue(denominator) && FreshValue(deltaMinus) && FreshValue(deltaPlus)
    modifies numerator, numerator.bigits, denominator, denominator.bigits
    modifies deltaMinus, deltaMinus.bigits, deltaPlus, deltaPlus.bigits, buffer
    ensures length < buffer.Length
    ensures mode.Precision? ==> CountedDigits(buffer[..length], decimalPoint, Value(d), requestedDigits, magnitude)
    ensures mode.Fixed? ==> FixedDigits(buffer[..length], decimalPoint, Value(d), requestedDigits)
  {
    hide Weight, Pow, Ten, RPow, Value, Bignum.Valid, Bignum.Value, Small, EstimateContract, CountedDigits, FixedDigits,
      HalfUp, FixedHalfUp, DecimalValue, Significand, Exponent, Bignum.BigitLength, Bignum.Shape;
    ghost var unit;
    decimalPoint, unit := RoundingScale(d, estimate, numerator, denominator, deltaMinus, deltaPlus);
    magnitude := decimalPoint;
    ghost var n, base := numerator.Value(), denominator.Value();
    if mode.Fixed? {
      length, decimalPoint := BignumToFixed(requestedDigits, decimalPoint, numerator, denominator, buffer);
      FixedIsRounded(n, base, unit, magnitude, requestedDigits, buffer[..length], decimalPoint, Value(d));
    } else {
      length, decimalPoint := GenerateCountedDigits(requestedDigits, decimalPoint, numerator, denominator, buffer);
      CountedIsRounded(n, base, unit, magnitude, requestedDigits, buffer[..length], decimalPoint, Value(d));
    }
  }

  method RoundingScale(d: uint64, estimate: int, numerator: Bignum, denominator: Bignum,
      deltaMinus: Bignum, deltaPlus: Bignum) returns (decimalPoint: int, ghost unit: real)
    requires EstimateContract(d, estimate)
    requires AllApart(numerator, denominator, deltaMinus, deltaPlus)
    requires FreshValue(numerator) && FreshValue(denominator) && FreshValue(deltaMinus) && FreshValue(deltaPlus)
    modifies numerator, numerator.bigits, denominator, denominator.bigits
    modifies deltaMinus, deltaMinus.bigits, deltaPlus, deltaPlus.bigits
    ensures numerator.Valid() && denominator.Valid() && Small(denominator.Value())
    ensures decimalPoint <= estimate + 1
    ensures unit > 0.0 && (denominator.Value() as real) * unit == Ten(decimalPoint - 1)
    ensures (numerator.Value() as real) * unit == Value(d)
    ensures 0 < denominator.Value() <= numerator.Value() < 10 * denominator.Value()
    ensures Ten(decimalPoint - 1) <= Value(d) < Ten(decimalPoint)
  {
    hide Weight, Pow, Ten, Value, Midpoint, UnitOf, BaseOf, Bignum.Valid, Bignum.Value, Small, Significand, Exponent,
      EstimateContract;
    EstimateRange(d, estimate);
    InitialScaledStartValues(Significand(d), Exponent(d), LowerBoundaryIsCloser(d), estimate, false,
      numerator, denominator, deltaMinus, deltaPlus);
    ghost var start := numerator.Value();
    BaseIsSmall(Exponent(d), estimate, 1);
    decimalPoint := FixupMultiply10(estimate, Significand(d) % 2 == 0, numerator, denominator, deltaMinus, deltaPlus);
    unit := RoundingStart(d, estimate, start, decimalPoint, numerator.Value(), denominator.Value());
  }

  /** The scaled ratio stands for v and starts with a digit from one to nine. */
  lemma RoundingStart(d: int, estimate: int, start: nat, point: int, n: nat, base: nat) returns (unit: real)
    requires EstimateContract(d, estimate)
    requires start == Significand(d) * UnitOf(Exponent(d), estimate) && base == BaseOf(Exponent(d), estimate)
    requires var inRange := if Significand(d) % 2 == 0 then start >= base else start > base;
      point == (if inRange then estimate + 1 else estimate) && n == (if inRange then 1 else 10) * start
    ensures unit > 0.0 && (base as real) * unit == Ten(point - 1) && (n as real) * unit == Value(d)
    ensures 0 < base <= n < 10 * base
    ensures Ten(point - 1) <= Value(d) < Ten(point)
  {
    hide Pow, RPow, Ten, Value, Midpoint, UnitOf, BaseOf, Significand, Exponent;
    var f, e, u := Significand(d), Exponent(d), UnitOf(Exponent(d), estimate);
    var c := if point == estimate + 1 then 1 else 10;
    unit := UnitFor(base, point);
    UnitWorth(e, estimate, 1, c, point, unit);
    RoundingWorth(d, c, f, u, n, unit);
    MidpointIsMiddle(d);
    TenNext(point - 1);
    CompareUnits(n, base, unit, Value(d), Ten(point - 1));
    if start == base {
      OddIsNoPower(d, estimate);
    }
  }

  lemma RoundingWorth(d: int, c: nat, f: nat, u: nat, n: nat, unit: real)
    requires 0 < d < INFINITY && f == Significand(d) && n == c * (f * u)
    requires ((c * 1 * u) as real) * unit == Two(Exponent(d))
    ensures (n as real) * unit == Value(d)
  {
    hide Two, Significand, Exponent;
    assert n == f * (c * 1 * u) by {
      MulAssoc(c, f, u);
    }
    Worth(f, c * 1 * u, n, unit, Exponent(d));
  }

  /** A double with an odd significand is no power of ten. */
  lemma OddIsNoPower(d: int, estimate: int)
    requires EstimateContract(d, estimate)
    requires Significand(d) * UnitOf(Exponent(d), estimate) == BaseOf(Exponent(d), estimate)
    ensures Significand(d) % 2 == 0
  {
    hide Pow, Ten, Value, Midpoint, UnitOf, BaseOf, Significand, Exponent;
    EstimateRange(d, estimate);
    FieldRange(d);
    OddOverOne(Significand(d), Exponent(d), estimate);
  }

  lemma OddOverOne(f: nat, e: int, estimate: int)
    requires 0 < f < 9007199254740992 && (e > -1074 ==> f >= 4503599627370496) && (e >= 0 ==> estimate >= 0)
    requires f * UnitOf(e, estimate) == BaseOf(e, estimate)
    ensures f % 2 == 0
  {
    hide Pow, UnitOf, BaseOf;
    UnitAndBase(e, estimate);
    if e >= 0 {
      NoPowerOfTen(f, e, estimate);
    } else if estimate >= 0 {
      PowNext(2, -e - 1);
      MulAssoc(2, Pow(2, -e - 1), Pow(10, estimate));
    } else {
      PowNext(10, -estimate - 1);
      MulAssoc(f, 10, Pow(10, -estimate - 1));
      NoFive(-e, 2 * (f * Pow(10, -estimate - 1)));
    }
  }

  lemma EvenFive(p: nat, m: int)
    requires p != 5 * (m / 2)
    ensures 2 * p != 5 * m
  {
    if m % 2 == 1 {
      assert 5 * m % 2 == 1;
    }
  }

  lemma {:induction false} NoFive(n: nat, m: int)
    ensures Pow(2, n) != 5 * m
  {
    hide Pow;
    PowNone(2);
    if n > 0 {
      PowNext(2, n - 1);
      NoFive(n - 1, m / 2);
      EvenFive(Pow(2, n - 1), m);
    }
  }

  lemma {:induction false} FivePowerIsOdd(n: nat)
    ensures Pow(5, n) % 2 == 1
  {
    hide Pow;
    PowNone(5);
    if n > 0 {
      FivePowerIsOdd(n - 1);
      PowNext(5, n - 1);
    }
  }

  lemma NoPowerOfTen(f: nat, e: nat, t: nat)
    requires 4503599627370496 <= f < 9007199254740992 && f * Pow(2, e) == Pow(10, t)
    ensures f % 2 == 0
  {
    hide Pow;
    PowTen(t);
    FivePowerIsOdd(t);
    if t < e {
      PowAdd(2, t, e - t);
      PowNext(2, e - t - 1);
      MulAssoc(f, Pow(2, t), Pow(2, e - t));
      MulCancel(f * Pow(2, e - t), Pow(5, t), Pow(2, t));
      MulCancel(Pow(5, t), f * Pow(2, e - t), Pow(2, t));
      MulAssoc(f, 2, Pow(2, e - t - 1));
    } else {
      PowAdd(2, e, t - e);
      MulAssoc(Pow(5, t), Pow(2, e), Pow(2, t - e));
      MulCancel(f, Pow(5, t) * Pow(2, t - e), Pow(2, e));
      MulCancel(Pow(5, t) * Pow(2, t - e), f, Pow(2, e));
      if t > e {
        PowNext(2, t - e - 1);
        MulAssoc(Pow(5, t), 2, Pow(2, t - e - 1));
      } else {
        PowNone(2);
        FivesAround(t);
      }
    }
  }

  /** No power of five has exactly 53 bits. */
  lemma FivesAround(t: nat)
    ensures !(4503599627370496 <= Pow(5, t) < 9007199254740992)
  {
    hide Pow;
    PowAdd(5, 11, 11);
    PowNext(5, 22);
    FiveTo11();
    if t <= 22 {
      PowMono(5, t, 22);
    } else {
      PowMono(5, 23, t);
    }
  }

  lemma FiveTo11()
    ensures Pow(5, 11) == 48828125
  {
  }

  lemma CountedIsRounded(n: nat, base: nat, unit: real, magnitude: int, count: nat, s: seq<char>, point: int, v: real)
    requires unit > 0.0 && base > 0 && (base as real) * unit == Ten(magnitude - 1) && (n as real) * unit == v
    requires Ten(magnitude - 1) <= v < Ten(magnitude)
    requires |s| == count > 0 && AreDigits(s) && s[0] != '0' && (point == magnitude || point == magnitude + 1)
    requires n * Pow(10, count - 1) >= 0
    requires DecimalValue(s) * (if point == magnitude then 1 else 10) == HalfUp(n * Pow(10, count - 1), base)
    ensures CountedDigits(s, point, v, count, magnitude)
  {
    hide Pow, Ten, DecimalValue, HalfUp, DecimalAt, RoundedHalfUp;
    HalfUpIsRounded(n, base, unit, magnitude, count - 1);
    DecimalAtShift(DecimalValue(s), magnitude - count, 1);
    PowNext(10, 0);
    PowNone(10);
  }

  lemma FixedIsRounded(n: nat, base: nat, unit: real, magnitude: int, places: nat, s: seq<char>, point: int, v: real)
    requires unit > 0.0 && base > 0 && (base as real) * unit == Ten(magnitude - 1) && (n as real) * unit == v
    requires AreDigits(s) && (s != [] ==> s[0] != '0') && (s == [] ==> point == 0 - places)
    requires point - |s| + places >= 0
    requires DecimalValue(s) * Pow(10, point - |s| + places) == FixedHalfUp(n, base, magnitude - 1 + places)
    ensures FixedDigits(s, point, v, places)
  {
    hide Pow, Ten, DecimalValue, HalfUp, DecimalAt, RoundedHalfUp;
    DecimalAtShift(DecimalValue(s), 0 - places, point - |s| + places);
    var j := magnitude - 1 + places;
    if j >= 0 {
      HalfUpIsRounded(n, base, unit, magnitude, j);
    } else {
      CoarseUnit(base, unit, magnitude, -j);
      PowNone(10);
      HalfUpIsRounded(n, base * Pow(10, -j), unit, magnitude - j, 0);
    }
  }

  lemma CoarseUnit(base: nat, unit: real, magnitude: int, k: nat)
    requires base > 0 && (base as real) * unit == Ten(magnitude - 1)
    ensures base * Pow(10, k) > 0
    ensures ((base * Pow(10, k)) as real) * unit == Ten(magnitude + k - 1)
  {
    hide Pow, Ten;
    MulStrict(0, base, Pow(10, k));
    RealProduct(base, Pow(10, k));
    TenNat(k);
    TenAdd(magnitude - 1, k);
    RMulAssoc(base as real, Pow(10, k) as real, unit);
  }

  /** Far below half of the last place there is nothing to round. */
  lemma FarTooSmall(d: int, estimate: int, places: nat, s: seq<char>)
    requires EstimateContract(d, estimate) && -estimate - 1 > places && s == []
    ensures FixedDigits(s, 0 - places, Value(d), places)
  {
    hide Ten, Value, Midpoint, DecimalValue;
    DecimalNone(s);
    MidpointIsMiddle(d);
    TenMono(estimate + 1, 0 - places - 1);
    TenNext(0 - places - 1);
  }

  /** The counted digits of a number are unique: whatever computes them gets these. */
  lemma CountedUnique(s: seq<char>, p: int, t: seq<char>, q: int, v: real, count: nat, m: int, n: int)
    requires CountedDigits(s, p, v, count, m) && CountedDigits(t, q, v, count, n)
    ensures s == t && p == q && m == n
  {
    hide Pow, Ten, DecimalValue, DecimalAt;
    if m < n {
      TenMono(m, n - 1);
    } else if n < m {
      TenMono(n, m - 1);
    }
    var x := Units(s, p, m, count);
    var y := Units(t, q, n, count);
    HalfUpUnique(v, x, y, m - count);
    LeadingDigit(s);
    LeadingDigit(t);
    PowNext(10, count - 1);
    if p == q {
      SameDigits(s, t);
    }
  }

  /** Counted digits as a multiple of the unit they were rounded to. */
  lemma Units(s: seq<char>, p: int, m: int, count: nat) returns (x: int)
    requires |s| == count && m <= p <= m + 1
    ensures x == DecimalValue(s) * (if p == m then 1 else 10) && DecimalAt(x, m - count) == Denoted(s, p)
  {
    hide Pow, Ten, DecimalValue, DecimalAt;
    x := DecimalValue(s) * (if p == m then 1 else 10);
    DecimalAtShift(DecimalValue(s), m - count, 1);
    PowNext(10, 0);
    PowNone(10);
  }

  lemma HalfUpUnique(v: real, x: int, y: int, e: int)
    requires RoundedHalfUp(v, DecimalAt(x, e), Ten(e)) && RoundedHalfUp(v, DecimalAt(y, e), Ten(e))
    ensures x == y
  {
    hide Ten;
    var u := Ten(e);
    assert DecimalAt(x + 1, e) == DecimalAt(x, e) + u && DecimalAt(y + 1, e) == DecimalAt(y, e) + u;
    if x < y {
      DecimalAtMono(x + 1, y, e);
    } else if y < x {
      DecimalAtMono(y + 1, x, e);
    }
  }
}
