// Strtod: reading decimal digits to the nearest double, ties to even (strtod.cc).
module Strtods {
  import opened Options
  import opened MachineInts
  import opened Powers
  import opened RealPowers
  import opened WordPowers
  import opened Bigits
  import opened BigitSteps
  import opened Bignums
  import opened Decimals
  import opened DecimalRounding
  import opened CachedPowers
  import opened DtoaBounds
  import opened PowerGaps
  import opened StrtodBuffers
  import opened StrtodRounding
  import opened LeastDouble
  import opened DiyFpStrtods
  import opened DigitCutting
  import opened Ieee

  // ----- exact comparison -----

  /** Numbers up to so many bits fit the digits of a Bignum. */
  lemma BitsFit(v: int, n: nat, length: nat)
    requires v < Pow(2, n) && n <= 28 * length
    ensures v < Weight(length)
  {
    hide Pow, Weight;
    PowMono(2, n, 28 * length);
    WeightIsPower(length);
  }

  lemma FivesFit(n: nat, f: int)
    requires n <= 1103 && 0 <= f < 0x1_0000_0000_0000_0000
    ensures Pow(5, n) * f < Weight(121) && Pow(10, n) * f < Weight(160)
  {
    hide Pow, Weight;
    SmallTwoPowers();
    PowBase(5, 8, n);
    PowBase(10, 16, n);
    PowPow(2, 3, n);
    PowPow(2, 4, n);
    PowMono(2, 3 * n, 3309);
    PowMono(2, 4 * n, 4412);
    TwoTo64();
    PowAdd(2, 3309, 64);
    PowAdd(2, 4412, 64);
    MulMono(Pow(5, n), Pow(2, 3309), f);
    MulMono(Pow(10, n), Pow(2, 4412), f);
    MulStrict(f, Pow(2, 64), Pow(2, 3309));
    MulStrict(f, Pow(2, 64), Pow(2, 4412));
    BitsFit(Pow(5, n) * f, 3373, 121);
    BitsFit(Pow(10, n) * f, 4476, 160);
  }

  lemma SmallTwoPowers()
    ensures Pow(2, 3) == 8 && Pow(2, 4) == 16
  {
  }

  lemma DigitsFit(s: seq<char>)
    requires AreDigits(s) && |s| <= 780
    ensures 0 <= DecimalValue(s) < Weight(112)
  {
    hide Pow, Weight, DecimalValue;
    DecimalBounds(s);
    SmallTwoPowers();
    PowBase(10, 16, |s|);
    PowPow(2, 4, |s|);
    BitsFit(DecimalValue(s), 4 * |s|, 112);
  }

  lemma ScaledDigitsFit(s: seq<char>, n: nat)
    requires AreDigits(s) && |s| + n <= 310
    ensures Pow(5, n) * DecimalValue(s) <= Pow(10, n) * DecimalValue(s) < Weight(45)
  {
    hide Pow, Weight, DecimalValue;
    DecimalBounds(s);
    PowAdd(10, |s|, n);
    MulStrict(DecimalValue(s), Pow(10, |s|), Pow(10, n));
    PowMono(10, |s| + n, 310);
    SmallTwoPowers();
    PowBase(10, 16, 310);
    PowPow(2, 4, 310);
    BitsFit(Pow(10, n) * DecimalValue(s), 1240, 45);
    PowBase(5, 10, n);
    MulMono(Pow(5, n), Pow(10, n), DecimalValue(s));
  }

  /** The digits as a Bignum, times a power of ten if the exponent is positive. */
  method AssignScaledDigits(a: Bignum, buffer: seq<char>, exponent: int)
    requires a.Shape() && AreDigits(buffer) && |buffer| <= 780 && |buffer| + exponent <= 310
    modifies a, a.bigits
    ensures a.Valid() && a.Value() == Pow(10, Max(exponent, 0)) * DecimalValue(buffer) && a.used <= 112
  {
    hide Pow, Weight, DecimalValue;
    DigitsFit(buffer);
    WeightMono(112, 126);
    WeightMono(126, 127);
    a.AssignDecimalString(buffer);
    if exponent >= 0 {
      ScaledDigitsFit(buffer, exponent);
      WeightMono(45, a.exponent + 127);
      a.MultiplyByPowerOfTen(exponent);
      a.LengthIs(45);
    } else {
      PowNone(10);
      a.LengthIs(112);
    }
  }

  /** A significand as a Bignum, times a power of ten if the decimal exponent is negative. */
  method AssignScaledSignificand(a: Bignum, f: uint64, exponent: int)
    requires a.Shape() && -1103 <= exponent
    modifies a, a.bigits
    ensures a.Valid() && a.Value() == Pow(10, Max(-exponent, 0)) * f && a.used <= 124
  {
    hide Pow, Weight;
    a.AssignUInt64(f);
    if exponent < 0 {
      FivesFit(-exponent, f);
      WeightMono(121, a.exponent + 127);
      a.MultiplyByPowerOfTen(-exponent);
      RoomyLength(a, -exponent, f);
    } else {
      PowNone(10);
    }
  }

  lemma RoomyLength(a: Bignum, n: nat, f: uint64)
    requires a.Valid() && n <= 1103 && a.Value() == Pow(10, n) * f && (a.used > 0 ==> a.exponent == n / 28)
    ensures a.used <= 124
  {
    hide Pow, Weight;
    var v := Pow(10, n);
    // 10^n has at most 4 n bits, and n / 28 of its digits are in the exponent.
    SmallTwoPowers();
    PowBase(10, 16, n);
    PowPow(2, 4, n);
    TwoTo64();
    PowAdd(2, 4 * n, 64);
    MulMono(v, Pow(2, 4 * n), f);
    MulStrict(f, Pow(2, 64), Pow(2, 4 * n));
    var length := (4 * n + 64) / 28 + 1;
    BitsFit(a.Value(), 4 * n + 64, length);
    a.LengthIs(length);
  }

  /** The sign of buffer * 10^exponent - f * 2^e, in 128 big digits. */
  method CompareBufferWithDiyFp(buffer: seq<char>, exponent: int, f: uint64, e: int) returns (c: int)
    requires AreDigits(buffer) && |buffer| <= 780 && -324 < |buffer| + exponent <= 310
    ensures c < 0 <==> Read(buffer, exponent) < Scaled(f, e)
    ensures c > 0 <==> Read(buffer, exponent) > Scaled(f, e)
  {
    hide Pow, Weight, DecimalValue, Read, Scaled, Bignum.Valid, Bignum.Value, Bignum.Shape;
    var bufferBignum := new Bignum();
    var diyFpBignum := new Bignum();
    AssignScaledDigits(bufferBignum, buffer, exponent);
    AssignScaledSignificand(diyFpBignum, f, exponent);
    ghost var digits, significand := bufferBignum.Value(), diyFpBignum.Value();
    if e > 0 {
      diyFpBignum.ShiftLeft(e);
    } else {
      bufferBignum.ShiftLeft(-e);
    }
    NotShifted(digits);
    NotShifted(significand);
    c := Bignum.Compare(bufferBignum, diyFpBignum);
    CrossScaled(buffer, exponent, f, e, digits, significand);
  }

  lemma NotShifted(v: int)
    ensures Pow(2, 0) * v == v
  {
  }

  /** Comparing the integers is comparing the numbers. */
  lemma CrossScaled(buffer: seq<char>, exponent: int, f: uint64, e: int, digits: int, significand: int)
    requires digits == Pow(10, Max(exponent, 0)) * DecimalValue(buffer) && significand == Pow(10, Max(-exponent, 0)) * f
    ensures var a, b := Pow(2, Max(-e, 0)) * digits, Pow(2, Max(e, 0)) * significand;
      && (a < b <==> Read(buffer, exponent) < Scaled(f, e))
      && (a > b <==> Read(buffer, exponent) > Scaled(f, e))
  {
    hide Pow, RPow, Ten, Two, DecimalValue;
    var x := DecimalValue(buffer);
    var twoA, tenA, twoB, tenB := Max(-e, 0), Max(exponent, 0), Max(e, 0), Max(-exponent, 0);
    var a, b := Pow(2, twoA) * digits, Pow(2, twoB) * significand;
    assert e + twoA == twoB && exponent + tenB == tenA;
    PowersAsReals(a, twoA, tenA, x, digits);
    PowersAsReals(b, twoB, tenB, f, significand);
    TwoAdd(e, twoA);
    TenAdd(exponent, tenB);
    CommonScale(x as real, Ten(exponent), f as real, Two(e), Ten(tenB), Two(twoA), Ten(tenA), Two(twoB), a as real, b as real);
  }

  lemma PowersAsReals(a: int, two: nat, ten: nat, x: int, scaled: int)
    requires scaled == Pow(10, ten) * x && a == Pow(2, two) * scaled
    ensures a as real == Two(two) * (Ten(ten) * (x as real))
  {
    hide Pow, RPow, Ten, Two;
    TwoNat(two);
    TenNat(ten);
    RealProduct(Pow(10, ten), x);
    RealProduct(Pow(2, two), Pow(10, ten) * x);
  }

  lemma CommonScale(x: real, ten: real, f: real, two: real, up: real, over: real, tenA: real, twoB: real, a: real, b: real)
    requires up > 0.0 && over > 0.0 && tenA == ten * up && twoB == two * over
    requires a == over * (tenA * x) && b == twoB * (up * f)
    ensures a < b <==> x * ten < f * two
    ensures a > b <==> x * ten > f * two
  {
    var k := up * over;
    RMulMono(0.0, up, over);
    assert a == (x * ten) * k;
    assert b == (f * two) * k;
    RMulCancel(x * ten, f * two, k);
    RMulCancel(f * two, x * ten, k);
  }

  // ----- the guess -----

  /** Floating-point hardware may answer short inputs; whenever it does it is right. */
  ghost predicate IsCorrectHardware(hardware: (seq<char>, int) -> Option<uint64>) {
    forall s: seq<char>, e: int :: AreDigits(s) && hardware(s, e).Some? ==> RoundsTo(Read(s, e), hardware(s, e).value)
  }

  method ComputeGuess(trimmed: seq<char>, exponent: int, table: seq<CachedPower>, hardware: (seq<char>, int) -> Option<uint64>)
    returns (ok: bool, guess: uint64)
    requires Trimmed(trimmed) && IsPowerTable(table) && StartsAtLeastPower(table) && IsCorrectHardware(hardware)
    ensures GoodGuess(Read(trimmed, exponent), ok, guess)
    ensures !ok ==> guess < INFINITY && -324 < |trimmed| + exponent <= 309
  {
    hide Pow, Ten, Two, DecimalValue, DecimalAt, IsPowerTable, StartsAtLeastPower, RoundsTo;
    if |trimmed| == 0 {
      ZeroIsRounded(trimmed, exponent);
      return true, 0;
    }
    if exponent + |trimmed| - 1 >= 309 {
      HugeIsInfinity(trimmed, exponent);
      return true, INFINITY;
    }
    if exponent + |trimmed| <= -324 {
      TinyRoundsToZero(trimmed, exponent);
      return true, 0;
    }
    var quick := hardware(trimmed, exponent);
    if quick.Some? {
      RoundedIsPattern(Read(trimmed, exponent), quick.value);
      return true, quick.value;
    }
    ok, guess := DiyFpStrtod(trimmed, exponent, table);
    if !ok && guess == INFINITY {
      ok := true;
    }
  }

  lemma ZeroIsRounded(s: seq<char>, exponent: int)
    requires s == []
    ensures RoundsTo(Read(s, exponent), 0)
  {
    hide RPow, Two, Ten;
    DecimalNone(s);
    LeastMidpoint();
  }

  lemma HugeIsInfinity(s: seq<char>, exponent: int)
    requires s != [] && Trimmed(s) && exponent + |s| - 1 >= 309
    ensures RoundsTo(Read(s, exponent), INFINITY)
  {
    hide Pow, RPow, Two, Ten, DecimalValue, DecimalAt, Midpoint;
    LeadingDigit(s);
    DecimalAtMono(Pow(10, |s| - 1), DecimalValue(s), exponent);
    DecimalAtPower(|s| - 1, exponent);
    TenMono(309, exponent + |s| - 1);
    DecimalRange();
    TwoMono(1024, 1026);
    LargestMidpoint();
  }

  lemma FactorsAtMostTens()
    ensures Two(3) <= Ten(1) && Two(53) <= Ten(16)
  {
    hide Pow;
    TwoNat(3);
    TenNat(1);
    TwoNat(53);
    TenNat(16);
    AdjustmentTable();
    PowAdd(2, 50, 3);
    SmallTwoPowers();
  }

  /** 10^309 is past the largest double, and 10^-324 below half of the smallest. */
  lemma DecimalRange()
    ensures Two(1026) <= Ten(309) && Ten(-324) <= Two(-1076)
  {
    hide RPow, Two, Ten;
    TwosBelowTens(11);
    FactorsAtMostTens();
    RPowZeroTen();
    TwoAdd(1023, 3);
    TenAdd(308, 1);
    ProductBelow(Two(1023), Two(3), Ten(308), Ten(1));
    TwoAdd(1023, 53);
    TenAdd(308, 16);
    ProductBelow(Two(1023), Two(53), Ten(308), Ten(16));
    TwoAdd(-1076, 1076);
    TenAdd(-324, 324);
    ReciprocalOrder(Ten(-324), Ten(324), Two(-1076), Two(1076));
  }

  lemma TinyRoundsToZero(s: seq<char>, exponent: int)
    requires s != [] && Trimmed(s) && exponent + |s| <= -324
    ensures RoundsTo(Read(s, exponent), 0)
  {
    hide Pow, RPow, Two, Ten, DecimalValue, DecimalAt, Midpoint;
    LeadingDigit(s);
    DecimalAtMono(DecimalValue(s), Pow(10, |s|), exponent);
    DecimalAtMono(0, DecimalValue(s), exponent);
    DecimalAtPower(|s|, exponent);
    TenMono(exponent + |s|, -324);
    DecimalRange();
    LeastMidpoint();
    TwoMono(-1076, -1075);
    ZeroAt(exponent);
  }

  lemma ZeroAt(e: int)
    ensures DecimalAt(0, e) == 0.0
  {
    hide Ten;
  }

  // ----- the whole of it -----

  method Strtod(buffer: seq<char>, exponentIn: int, table: seq<CachedPower>, hardware: (seq<char>, int) -> Option<uint64>)
    returns (d: uint64)
    requires AreDigits(buffer) && IsPowerTable(table) && StartsAtLeastPower(table) && IsCorrectHardware(hardware)
    ensures RoundsTo(Read(buffer, exponentIn), d)
  {
    hide Pow, Ten, Two, DecimalValue, DecimalAt, IsPowerTable, StartsAtLeastPower, RoundsTo, Read, SameUpTo779Digits, IsCorrectHardware;
    var space := new char[780];
    var trimmed, exponent := TrimAndCut(buffer, exponentIn, space);
    ghost var x := Read(trimmed, exponent);
    var isCorrect, guess := ComputeGuess(trimmed, exponent, table, hardware);
    d := guess;
    if !isCorrect {
      var boundary := UpperBoundary(guess);
      BoundaryFits(guess);
      var comparison := CompareBufferWithDiyFp(trimmed, exponent, boundary.0, boundary.1);
      if comparison < 0 {
      } else if comparison > 0 {
        d := NextDouble(guess);
      } else if Significand(guess) % 2 == 0 {
      } else {
        d := NextDouble(guess);
      }
      GuessDecided(x, guess, d);
    }
    CutDigits780(buffer, exponentIn, trimmed, exponent, d);
  }

  lemma BoundaryFits(d: uint64)
    requires d < INFINITY
    ensures 0 <= UpperBoundary(d).0 < 0x1_0000_0000_0000_0000 && Ieee.Sign(d) > 0
  {
  }

  /** Comparing with the middle decides between the guess and its successor. */
  lemma GuessDecided(x: real, guess: uint64, d: uint64)
    requires guess < INFINITY && (RoundsTo(x, guess) || RoundsTo(x, guess + 1))
    requires d == if x < Midpoint(guess) then guess else if x > Midpoint(guess) then NextDouble(guess)
      else if Significand(guess) % 2 == 0 then guess else NextDouble(guess)
    ensures RoundsTo(x, d)
  {
    hide Midpoint, Significand, Exponent, Value;
    NextIsSuccessor(guess);
    SameParity(guess);
    if guess > 0 {
      ValueMono(guess - 1, guess);
    }
    MidpointIsMiddle(guess);
    if guess + 1 < INFINITY {
      ValueMono(guess, guess + 1);
      MidpointIsMiddle(guess + 1);
    }
  }

  /** Cutting to 780 digits has not changed the result. */
  lemma CutDigits780(s: seq<char>, e: int, t: seq<char>, f: int, d: uint64)
    requires Trimmed(t) && SameUpTo779Digits(s, e, t, f) && RoundsTo(Read(t, f), d)
    ensures RoundsTo(Read(s, e), d)
  {
    hide Pow, Ten, Two, DecimalValue, DecimalAt, RoundsTo, Read, StrictlyWithin;
    if Read(s, e) != Read(t, f) {
      LeadingDigit(t[..779]);
      RoundedIsPattern(Read(t, f), d);
      CutIsHarmless(Read(s, e), Read(t, f), DecimalValue(t[..779]), 779, f + 1, d);
    }
  }

  lemma RoundedIsPattern(x: real, d: uint64)
    requires RoundsTo(x, d)
    ensures 0 <= d <= INFINITY
  {
  }
}
