// DiyFpStrtod: reading with 64-bit arithmetic and a bound on the error (strtod.cc).
module DiyFpStrtods {
  import opened MachineInts
  import opened Powers
  import opened RealPowers
  import opened WordPowers
  import opened Decimals
  import opened DecimalRounding
  import opened DiyFps
  import opened NormalizedDoubles
  import opened CachedPowers
  import opened DtoaBounds
  import opened StrtodBuffers
  import opened GrisuRounding
  import opened StrtodRounding
  import opened StrtodErrors
  import opened LeastDouble
  import opened Ieee

  /** f * 2^e is exactly 10^exponent, and with as many digits less there is room for it in 64 bits. */
  ghost predicate IsAdjustment(f: int, e: int, exponent: int) {
    && 0x8000_0000_0000_0000 <= f < 0x1_0000_0000_0000_0000 && 1 <= exponent <= 7 && e < 0
    && f == Pow(10, exponent) * Pow(2, -e) && Pow(10, 19 - exponent) <= Pow(2, -e)
    && -64 <= e
  }

  method AdjustmentPowerOfTen(exponent: int) returns (power: DiyFp)
    requires 0 < exponent < 8
    ensures fresh(power) && IsAdjustment(power.f, power.e, exponent)
    ensures exponent == 6 ==> power.f == 0xF424_0000_0000_0000 && power.e == -44
  {
    hide Pow;
    AdjustmentTable();
    match exponent {
      case 1 => power := new DiyFp(0xA000_0000_0000_0000, -60);
      case 2 => power := new DiyFp(0xC800_0000_0000_0000, -57);
      case 3 => power := new DiyFp(0xFA00_0000_0000_0000, -54);
      case 4 => power := new DiyFp(0x9C40_0000_0000_0000, -50);
      case 5 => power := new DiyFp(0xC350_0000_0000_0000, -47);
      case 6 => power := new DiyFp(0xF424_0000_0000_0000, -44);
      case 7 => power := new DiyFp(0x9896_8000_0000_0000, -40);
    }
  }

  lemma AdjustmentTable()
    ensures Pow(10, 1) == 10 && Pow(10, 2) == 100 && Pow(10, 3) == 1000 && Pow(10, 4) == 10_000
    ensures Pow(10, 5) == 100_000 && Pow(10, 6) == 1_000_000 && Pow(10, 7) == 10_000_000
    ensures Pow(10, 18) == 1_000_000_000_000_000_000 && Pow(10, 17) == 100_000_000_000_000_000
    ensures Pow(10, 16) == 10_000_000_000_000_000 && Pow(10, 15) == 1_000_000_000_000_000
    ensures Pow(10, 14) == 100_000_000_000_000 && Pow(10, 13) == 10_000_000_000_000 && Pow(10, 12) == 1_000_000_000_000
    ensures Pow(2, 60) == 0x1000_0000_0000_0000 && Pow(2, 57) == 0x200_0000_0000_0000 && Pow(2, 54) == 0x40_0000_0000_0000
    ensures Pow(2, 50) == 0x4_0000_0000_0000 && Pow(2, 47) == 0x8000_0000_0000 && Pow(2, 44) == 0x1000_0000_0000
    ensures Pow(2, 40) == 0x100_0000_0000
  {
    hide Pow;
    SmallestTens();
    PowAdd(10, 7, 5);
    PowAdd(10, 7, 6);
    PowAdd(10, 7, 7);
    PowAdd(10, 14, 1);
    PowAdd(10, 14, 2);
    PowAdd(10, 14, 3);
    PowAdd(10, 14, 4);
    PowAdd(2, 10, 10);
    PowAdd(2, 20, 20);
    PowAdd(2, 40, 4);
    PowAdd(2, 40, 7);
    PowAdd(2, 40, 10);
    PowAdd(2, 50, 4);
    PowAdd(2, 50, 7);
    PowAdd(2, 50, 10);
  }

  lemma SmallestTens()
    ensures Pow(10, 1) == 10 && Pow(10, 2) == 100 && Pow(10, 3) == 1000 && Pow(10, 4) == 10_000
    ensures Pow(10, 5) == 100_000 && Pow(10, 6) == 1_000_000 && Pow(10, 7) == 10_000_000
    ensures Pow(2, 4) == 16 && Pow(2, 7) == 128 && Pow(2, 10) == 1024
  {
    hide Pow;
    PowNone(10);
    PowNext(10, 0);
    PowNext(10, 1);
    PowNext(10, 2);
    PowNext(10, 3);
    PowNext(10, 4);
    PowNext(10, 5);
    PowNext(10, 6);
    SmallTwos();
  }

  lemma SmallTwos()
    ensures Pow(2, 4) == 16 && Pow(2, 7) == 128 && Pow(2, 10) == 1024
  {
  }

  lemma AdjustmentIsExact(f: int, e: int, exponent: int)
    requires IsAdjustment(f, e, exponent)
    ensures Scaled(f, e) == Ten(exponent)
  {
    hide Pow, RPow;
    TwoNat(-e);
    TenNat(exponent);
    RealProduct(Pow(10, exponent), Pow(2, -e));
    RMulAssoc(Pow(10, exponent) as real, Pow(2, -e) as real, Two(e));
  }

  /** A short integer times the adjustment power is an integer of 64 bits: nothing is rounded. */
  lemma AdjustmentFits(s: nat, length: nat, f: uint64, g: uint64, e: int, exponent: int)
    requires 0 < s < Pow(10, length) && exponent <= 19 - length && IsAdjustment(g, e, exponent)
    requires s < 0x1_0000_0000_0000_0000 && f == s * Pow(2, Leading(s))
    ensures 0x1_0000_0000_0000_0000 * Product(f, g) == f * g
  {
    hide Pow, Leading, Product;
    var k := Leading(s);
    LeadingShifts(s);
    PowMono(10, length, 19 - exponent);
    var down := Pow(2, -e);
    if k < 64 + e {
      PowMono(2, k, 63 + e);
      PowAdd(2, 63 + e, -e);
      TwoTo64();
      PowNext(2, 63);
      MulStrict(s, down, Pow(2, k));
      MulMono(Pow(2, k), Pow(2, 63 + e), down);
      assert false;
    }
    PowAdd(2, k, -e);
    PowAdd(2, k - e - 64, 64);
    TwoTo64();
    ExactProduct(s, Pow(2, k), Pow(10, exponent), down, Pow(2, k - e - 64), f, g);
  }

  lemma ExactProduct(s: nat, p: nat, ten: nat, down: nat, rest: nat, f: uint64, g: uint64)
    requires p * down == rest * 0x1_0000_0000_0000_0000 && f == s * p && g == ten * down
    ensures 0x1_0000_0000_0000_0000 * Product(f, g) == f * g
  {
    var m := s * ten * rest;
    assert f * g == s * ten * (p * down) by {
      assert s * p * (ten * down) == s * ten * (p * down);
    }
    MulAssoc(s * ten, rest, 0x1_0000_0000_0000_0000);
    DivModUnique(f * g + 0x8000_0000_0000_0000, 0x1_0000_0000_0000_0000, m, 0x8000_0000_0000_0000);
  }

  /** An exact product adds no error. */
  lemma ExactProductNear(x: real, f: uint64, e: int, g: uint64, d: int, y: real, z: real)
    requires Near(x, f, e, 0) && y == Scaled(g, d) && z == x * y
    requires 0x1_0000_0000_0000_0000 * Product(f, g) == f * g
    ensures Near(z, Product(f, g), e + d + 64, 0)
  {
    hide Two, Product, Near, Scaled;
    var a := NearIsOffBy(x, f, e, 0);
    ScaledOff(y, g, d);
    ProductOffBy(x, f, e, a, y, g, d, 0.0, z);
    assert (f as real) * 0.0 == 0.0 && (g as real) * a == 0.0 && a * 0.0 == 0.0;
    OffByIsNear(z, Product(f, g), e + d + 64, 0.0, 0);
  }

  // ----- reading -----

  /** The digits as a normalized DiyFp with its error, standing for y = digits / 10^remaining. */
  ghost predicate ReadState(buffer: seq<char>, s: int, remaining: nat, f: int, e: int, err: int) {
    && ReadAs(DecimalAt(DecimalValue(buffer), 0 - remaining), s, remaining)
    && f == s * Pow(2, Leading(s)) && e == 0 - Leading(s) && 0x8000_0000_0000_0000 <= f < 0x1_0000_0000_0000_0000
    && Near(DecimalAt(DecimalValue(buffer), 0 - remaining), f, e, err)
    && 0 <= err <= 32 && (remaining == 0 ==> err == 0 && s == DecimalValue(buffer))
  }

  method ReadNormalized(buffer: seq<char>) returns (input: DiyFp, remainingDecimals: nat, error: uint64, ghost s: int)
    requires AreDigits(buffer) && buffer != [] && buffer[0] != '0'
    ensures fresh(input) && remainingDecimals <= |buffer|
    ensures ReadState(buffer, s, remainingDecimals, input.f, input.e, error)
  {
    hide Pow, DecimalValue, Leading, Near, DecimalAt;
    input, remainingDecimals := ReadDiyFp(buffer);
    s := input.f;
    LeadingDigit(buffer);
    ReadIsNear(DecimalValue(buffer), input.f, remainingDecimals);
    error := if remainingDecimals == 0 then 0 else 4;
    var oldE := input.e;
    NormalizeNear(DecimalAt(DecimalValue(buffer), 0 - remainingDecimals), input.f, 0, error, Leading(input.f));
    LeadingShifts(input.f);
    SmallError(s, remainingDecimals, error);
    input.Normalize();
    error := error * Pow(2, oldE - input.e);
  }

  lemma SmallError(s: int, remaining: nat, error: int)
    requires 0 < s < 0x1_0000_0000_0000_0000 && error == (if remaining == 0 then 0 else 4)
    requires remaining > 0 ==> s > 1844674407370955160
    ensures 0 <= error * Pow(2, Leading(s)) <= 32
  {
    hide Pow, Leading;
    if remaining > 0 {
      AtMostThreeShifts(s);
      PowMono(2, Leading(s), 3);
      SmallCubes();
    }
  }

  lemma SmallCubes()
    ensures Pow(2, 3) == 8 && Pow(2, 2) == 4
  {
  }

  lemma AtMostThreeShifts(s: int)
    requires 1844674407370955160 < s < 0x1_0000_0000_0000_0000
    ensures Leading(s) <= 3
  {
    hide Leading;
    if s < 0x8000_0000_0000_0000 {
      OneShift(s);
      if 2 * s < 0x8000_0000_0000_0000 {
        OneShift(2 * s);
        if 4 * s < 0x8000_0000_0000_0000 {
          OneShift(4 * s);
          NoShift(8 * s);
        } else {
          NoShift(4 * s);
        }
      } else {
        NoShift(2 * s);
      }
    } else {
      NoShift(s);
    }
  }

  /** The rounded digits are half a unit off at most. */
  lemma ReadIsNear(x: int, s: uint64, remaining: nat)
    requires var p := Pow(10, remaining); (2 * (s as int) - 1) * p <= 2 * x && 2 * x < (2 * s + 1) * p
    requires remaining == 0 ==> s == x
    requires remaining > 0 ==> s > 1844674407370955160
    requires x > 0
    ensures ReadAs(DecimalAt(x, 0 - remaining), s, remaining)
    ensures Near(DecimalAt(x, 0 - remaining), s, 0, if remaining == 0 then 0 else 4)
  {
    hide Pow, RPow, Ten, Two, Scaled, Near;
    var y := DecimalAt(x, 0 - remaining);
    TenNat(remaining);
    RPowZeroTen();
    IntegerHalfOff(x, s, Pow(10, remaining), Ten(0 - remaining), y);
    NearFromHalf(y, s, remaining);
  }

  lemma IntegerHalfOff(x: int, s: int, p: nat, down: real, y: real)
    requires (2 * s - 1) * p <= 2 * x && 2 * x < (2 * s + 1) * p
    requires down * (p as real) == 1.0 && down > 0.0 && y == (x as real) * down
    ensures ((2 * s - 1) as real) <= 2.0 * y < ((2 * s + 1) as real)
  {
    RealProduct(2 * s - 1, p);
    RealProduct(2 * s + 1, p);
    assert ((2 * s - 1) * p) as real <= 2.0 * (x as real) < ((2 * s + 1) * p) as real;
    HalfOff(x as real, s as real, p as real, down, y);
  }

  lemma NearFromHalf(y: real, s: int, remaining: nat)
    requires ((2 * s - 1) as real) <= 2.0 * y < ((2 * s + 1) as real) && (remaining == 0 ==> y == s as real)
    ensures Near(y, s, 0, if remaining == 0 then 0 else 4)
  {
    hide Two, Scaled;
    RPowZeroTen();
    EightUnits(8 * s - 4, 0);
    EightUnits(8 * s + 4, 0);
    EightUnits(8 * s, 0);
  }

  lemma RPowZeroTen()
    ensures Ten(0) == 1.0 && Two(0) == 1.0
  {
  }

  lemma HalfOff(x: real, s: real, p: real, down: real, y: real)
    requires (2.0 * s - 1.0) * p <= 2.0 * x < (2.0 * s + 1.0) * p && down * p == 1.0 && down > 0.0 && y == x * down
    ensures 2.0 * s - 1.0 <= 2.0 * y < 2.0 * s + 1.0
  {
    RMulMono((2.0 * s - 1.0) * p, 2.0 * x, down);
    RMulMono(2.0 * x, (2.0 * s + 1.0) * p, down);
    RMulAssoc(2.0 * s - 1.0, p, down);
    RMulAssoc(2.0 * s + 1.0, p, down);
    assert 2.0 * x * down == 2.0 * y;
  }

  // ----- scaling -----

  /** A buffer of at most 18 digits has been read completely. */
  lemma ShortIsComplete(buffer: seq<char>, s: int, remaining: nat, f: int, e: int, err: int)
    requires AreDigits(buffer) && |buffer| <= 18 && ReadState(buffer, s, remaining, f, e, err)
    ensures remaining == 0 && err == 0 && s == DecimalValue(buffer) < Pow(10, |buffer|)
  {
    hide Pow, RPow, Ten, Two, Scaled, DecimalValue, Leading, Near;
    DecimalBounds(buffer);
    PowMono(10, |buffer|, 18);
    AdjustmentTable();
    if remaining > 0 {
      var x := DecimalValue(buffer);
      TenMono(0 - remaining, 0);
      RPowZeroTen();
      var y := DecimalAt(x, 0 - remaining);
      SmallerFactor(x as real, Ten(0 - remaining), y);
      assert false;
    }
  }

  lemma SmallerFactor(x: real, t: real, y: real)
    requires 0.0 <= x && t <= 1.0 && y == x * t
    ensures y <= x
  {
    RMulMono(t, 1.0, x);
  }

  /** Multiplies by the power of ten the table does not have. */
  method Adjust(input: DiyFp, buffer: seq<char>, adjustment: int, error: uint64, ghost s: int, ghost remaining: nat, ghost z: real)
    returns (newError: uint64)
    requires AreDigits(buffer) && 0 < adjustment < 8 && ReadState(buffer, s, remaining, input.f, input.e, error)
    requires z == DecimalAt(DecimalValue(buffer), 0 - remaining) * Ten(adjustment)
    modifies input
    ensures input.f >= 0x4000_0000_0000_0000 && newError <= 36 && Near(z, input.f, input.e, newError)
    ensures adjustment == 6 ==> input.f == Product(old(input.f), 0xF424_0000_0000_0000) && input.e == old(input.e) + 20
  {
    hide Pow, Ten, Two, Scaled, DecimalValue, Leading, Near, Product, DecimalAt;
    var power := AdjustmentPowerOfTen(adjustment);
    ghost var y, f0, e0 := DecimalAt(DecimalValue(buffer), 0 - remaining), input.f, input.e;
    AdjustmentIsExact(power.f, power.e, adjustment);
    ProductLarge63(f0, power.f);
    input.Multiply(power);
    newError := error;
    if 19 - |buffer| >= adjustment {
      ShortIsComplete(buffer, s, remaining, f0, e0, error);
      AdjustmentFits(s, |buffer|, f0, power.f, power.e, adjustment);
      ExactProductNear(y, f0, e0, power.f, power.e, Ten(adjustment), z);
    } else {
      MultiplyByExact(y, f0, e0, error, Ten(adjustment), power.f, power.e, z);
      newError := error + 4;
    }
  }

  lemma ProductLarge63(f: uint64, g: uint64)
    requires f >= 0x8000_0000_0000_0000 && g >= 0x8000_0000_0000_0000
    ensures Product(f, g) >= 0x4000_0000_0000_0000
  {
    MulMono(0x8000_0000_0000_0000, f, g);
  }

  /** Multiplies by the cached power and normalizes; the error stays below 24 units. */
  method ScaleByCached(input: DiyFp, power: DiyFp, errorIn: uint64, ghost y: real, ghost ten: real, ghost x: real) returns (error: uint64)
    requires input != power && input.f >= 0x4000_0000_0000_0000 && power.f >= 0x8000_0000_0000_0000 && errorIn <= 36
    requires Near(y, input.f, input.e, errorIn) && Abs(Scaled(power.f, power.e) - ten) < Two(power.e - 1) && x == y * ten
    modifies input
    ensures input.f >= 0x8000_0000_0000_0000 && 1 <= error <= 190 && StrictlyNear(x, input.f, input.e, error)
    ensures var p := Product(old(input.f), old(power.f));
      && 0 < p < 0x1_0000_0000_0000_0000 && input.e == old(input.e) + old(power.e) + 64 - Leading(p)
  {
    hide Pow, Two, Scaled, Leading, Near, StrictlyNear, Product;
    MultiplyByCached(y, input.f, input.e, errorIn, ten, power.f, power.e, x);
    ProductLarge62(input.f, power.f);
    input.Multiply(power);
    var errorB, errorAb, fixedError := 4, if errorIn == 0 then 0 else 1, 4;
    error := errorIn + errorB + errorAb + fixedError;
    var oldE := input.e;
    NormalizeNear(x, input.f, input.e, error, Leading(input.f));
    AtMostTwoShifts(input.f, error);
    input.Normalize();
    error := error * Pow(2, oldE - input.e);
  }

  lemma ProductLarge62(f: uint64, g: uint64)
    requires f >= 0x4000_0000_0000_0000 && g >= 0x8000_0000_0000_0000
    ensures Product(f, g) >= 0x2000_0000_0000_0000
  {
    MulMono(0x4000_0000_0000_0000, f, g);
  }

  lemma AtMostTwoShifts(f: nat, error: nat)
    requires 0x2000_0000_0000_0000 <= f < 0x1_0000_0000_0000_0000 && 8 <= error <= 45
    ensures 1 <= error * Pow(2, Leading(f)) <= 190
  {
    hide Pow, Leading;
    if f < 0x8000_0000_0000_0000 {
      OneShift(f);
      if 2 * f < 0x8000_0000_0000_0000 {
        OneShift(2 * f);
        NoShift(4 * f);
      } else {
        NoShift(2 * f);
      }
    } else {
      NoShift(f);
    }
    PowMono(2, Leading(f), 2);
    SmallCubes();
    MulMono(Pow(2, Leading(f)), 4, error);
    MulMono(1, Pow(2, Leading(f)), error);
  }

  /** Numbers with so many decimals are far below the least double. */
  lemma FarBelowLeast(x: real, y: real, s: int, exponent: int)
    requires 0 < s < 0x1_0000_0000_0000_0000 && 0.0 <= 2.0 * y < ((2 * s + 1) as real) && x == y * Ten(exponent) && exponent < -348
    ensures RoundsTo(x, 0)
  {
    hide RPow, Ten, Two;
    LeastMidpoint();
    TenMono(exponent, -348);
    TwoTo64Real();
    TenBelow();
    TwoAdd(64, -1143);
    TwoMono(-1079, -1075);
    ProductBelow(y, Ten(exponent), Two(64), Two(-1143));
  }

  lemma ProductBelow(a: real, b: real, c: real, d: real)
    requires 0.0 <= a <= c && 0.0 <= b <= d
    ensures 0.0 <= a * b <= c * d
  {
    RMulMono(0.0, a, b);
    RMulMono(a, c, b);
    RMulMono(b, d, c);
    assert b * c == c * b && d * c == c * d;
  }

  lemma TenBelow()
    ensures Ten(-348) <= Two(-1143)
  {
    hide RPow, Ten, Two;
    SmallestTwo();
    TenAdd(-330, -18);
    TwoAdd(-1089, -54);
    TenAboveTwo(18);
    TenAdd(-18, 18);
    TwoAdd(-54, 54);
    RPowZeroTen();
    ReciprocalOrder(Ten(-18), Ten(18), Two(-54), Two(54));
    ProductBelow(Ten(-330), Ten(-18), Two(-1089), Two(-54));
  }

  /** Reads the number with 64 bits. True means the correctly rounded double, false that one or the
      double just below it. */
  method DiyFpStrtod(buffer: seq<char>, exponentIn: int, table: seq<CachedPower>) returns (ok: bool, d: uint64)
    requires AreDigits(buffer) && buffer != [] && buffer[0] != '0' && exponentIn + |buffer| <= 340
    requires IsPowerTable(table) && StartsAtLeastPower(table)
    ensures GoodGuess(Read(buffer, exponentIn), ok, d)
  {
    hide Pow, Ten, Two, Scaled, DecimalValue, Leading, Near, StrictlyNear, Product, DecimalAt, IsPowerTable, ReadState, RoundsTo,
      WithinHalfUnit, ReadAs, ChainedFrom, StartsAtLeastPower;
    ghost var x, s := Read(buffer, exponentIn), 0;
    var input, remaining, error;
    input, remaining, error, s := ReadNormalized(buffer);
    var exponent := exponentIn + remaining;
    ghost var y := DecimalAt(DecimalValue(buffer), -(remaining as int));
    ghost var f0, e0 := input.f, input.e;
    ReadFacts(buffer, s, remaining, f0, e0, error);
    DecimalAtScaled(DecimalValue(buffer), -(remaining as int), exponent);
    if exponent < -348 {
      FarBelowLeast(x, y, s, exponent);
      return true, 0;
    }
    var cachedPower, cachedExponent := GetCachedPowerForDecimalExponent(table, exponent);
    ghost var z := y;
    if cachedExponent != exponent {
      z := y * Ten(exponent - cachedExponent);
      error := Adjust(input, buffer, exponent - cachedExponent, error, s, remaining, z);
    }
    ghost var f1, e1 := input.f, input.e;
    PowersCompose(y, exponent, cachedExponent, z, x);
    CachedFacts(cachedPower.f, cachedPower.e, cachedExponent);
    error := ScaleByCached(input, cachedPower, error, z, Ten(cachedExponent), x);
    if exponent == -342 {
      TableStart(table);
      ChainHolds(s, f0, e0, f1, e1, cachedPower.f, cachedPower.e, input.e);
    }
    if 64 + input.e == -1075 {
      LeastDoubleIsSafe(table, x, y, s, remaining, exponent, input.f, input.e, error);
    }
    ok, d := RoundDiyFp(input.f, input.e, error, x);
  }

  lemma TableStart(table: seq<CachedPower>)
    requires StartsAtLeastPower(table)
    ensures table != [] && table[0].significand == LEAST_POWER && table[0].binaryExponent == -1220
  {
  }

  lemma ReadFacts(buffer: seq<char>, s: int, remaining: nat, f: int, e: int, err: int)
    requires AreDigits(buffer) && ReadState(buffer, s, remaining, f, e, err)
    ensures var y := DecimalAt(DecimalValue(buffer), 0 - remaining);
      && ReadAs(y, s, remaining) && 0.0 <= y && 2.0 * y < ((2 * s + 1) as real) && Near(y, f, e, err)
    ensures 0 < s < 0x1_0000_0000_0000_0000 && f == s * Pow(2, Leading(s)) && e == 0 - Leading(s)
    ensures 0x8000_0000_0000_0000 <= f < 0x1_0000_0000_0000_0000 && 0 <= err <= 32
    ensures DecimalValue(buffer) >= 0 && forall k: int :: DecimalAt(DecimalValue(buffer), k) >= 0.0
  {
    hide Pow, Ten, Leading, Near, DecimalValue;
    DecimalBounds(buffer);
    forall k: int
      ensures DecimalAt(DecimalValue(buffer), k) >= 0.0
    {
      RMulMono(0.0, DecimalValue(buffer) as real, Ten(k));
    }
  }

  lemma PowersCompose(y: real, exponent: int, cached: int, z: real, x: real)
    requires x == y * Ten(exponent)
    requires z == if cached == exponent then y else y * Ten(exponent - cached)
    ensures x == z * Ten(cached)
  {
    hide Ten;
    TenAdd(exponent - cached, cached);
    RMulAssoc(y, Ten(exponent - cached), Ten(cached));
  }

  lemma CachedFacts(f: int, e: int, exponent: int)
    requires WithinHalfUnit(f, e, exponent)
    ensures 0x8000_0000_0000_0000 <= f && Abs(Scaled(f, e) - Ten(exponent)) < Two(e - 1)
  {
  }

  lemma ChainHolds(s: int, f0: uint64, e0: int, f1: uint64, e1: int, c: uint64, ce: int, e: int)
    requires 0 < s < 0x1_0000_0000_0000_0000 && f0 == s * Pow(2, Leading(s)) && e0 == 0 - Leading(s)
    requires f1 == Product(f0, 0xF424_0000_0000_0000) && e1 == e0 + 20 && c == LEAST_POWER && ce == -1220
    requires var p := Product(f1, c); 0 < p < 0x1_0000_0000_0000_0000 && e == e1 + ce + 64 - Leading(p)
    ensures ChainedFrom(s, e)
  {
    hide Pow, Leading, Product;
  }
}
