// How the table of cached powers of ten is indexed. Of its 87 entries only this is asked: each is within
// half a unit in its last place.
module CachedPowers {
  import opened MachineInts
  import opened Powers
  import opened RealPowers
  import opened DiyFps
  import opened DtoaBounds
  import opened DecimalRounding
  import opened Ieee

  datatype CachedPower = CachedPower(significand: uint64, binaryExponent: int, decimalExponent: int)

  /** The entry is normalized and closer than half a unit to its power of ten. */
  ghost predicate WithinHalfUnit(significand: int, binaryExponent: int, decimalExponent: int) {
    && 0x8000_0000_0000_0000 <= significand < 0x1_0000_0000_0000_0000
    && Abs(Scaled(significand, binaryExponent) - Ten(decimalExponent)) < Two(binaryExponent - 1)
  }

  ghost predicate IsPowerTable(table: seq<CachedPower>) {
    && |table| == 87
    && (forall i :: 0 <= i < 87 ==> table[i].decimalExponent == 8 * i - 348)
    && (forall i :: 0 <= i < 87 ==>
        WithinHalfUnit(table[i].significand, table[i].binaryExponent, table[i].decimalExponent))
  }

  /** The rounded-up decimal logarithm of 2^e, which the source computes with floating-point `ceil`. */
  ghost predicate IsCeilLog(e: int, k: int) {
    Ten(k - 1) < Two(e) <= Ten(k)
  }

  /** A power whose binary exponent is in the range, found from the logarithm of its lower end. */
  method GetCachedPowerForBinaryExponentRange(table: seq<CachedPower>, minExponent: int, maxExponent: int, k: int)
    returns (power: DiyFp, decimalExponent: int)
    requires IsPowerTable(table) && IsCeilLog(minExponent + 63, k)
    requires -1084 <= minExponent <= 1013 && minExponent + 26 <= maxExponent
    ensures fresh(power) && minExponent <= power.e <= maxExponent && -348 <= decimalExponent <= 340
    ensures WithinHalfUnit(power.f, power.e, decimalExponent)
  {
    hide WithinHalfUnit, IsCeilLog;
    LogRange(minExponent + 63, k);
    var index := (348 + k - 1) / 8 + 1;
    var cached := table[index];
    decimalExponent := cached.decimalExponent;
    ExponentFits(cached.significand, cached.binaryExponent, decimalExponent, minExponent, k);
    power := new DiyFp(cached.significand, cached.binaryExponent);
  }

  method GetCachedPowerForDecimalExponent(table: seq<CachedPower>, requestedExponent: int)
    returns (power: DiyFp, foundExponent: int)
    requires IsPowerTable(table) && -348 <= requestedExponent < 348
    ensures fresh(power) && WithinHalfUnit(power.f, power.e, foundExponent)
    ensures foundExponent <= requestedExponent < foundExponent + 8 && foundExponent % 8 == 4
    ensures foundExponent == -348 ==> power.f == table[0].significand && power.e == table[0].binaryExponent
  {
    hide WithinHalfUnit;
    var index := (requestedExponent + 348) / 8;
    var cached := table[index];
    power := new DiyFp(cached.significand, cached.binaryExponent);
    foundExponent := cached.decimalExponent;
  }

  /** 2^33 is less than 10^10. */
  lemma {:induction false} TwosAtMostTens(n: nat)
    ensures Two(33 * n) <= Ten(10 * n)
  {
    hide RPow;
    if n == 0 {
      RPowZero(2);
      RPowZero(10);
    } else {
      TwosAtMostTens(n - 1);
      TwoAdd(33 * (n - 1), 33);
      TenAdd(10 * (n - 1), 10);
      TwoTo33();
      RMulMono(Two(33 * (n - 1)), Ten(10 * (n - 1)), Two(33));
      RMulMono(Two(33), Ten(10), Ten(10 * (n - 1)));
    }
  }

  lemma TwoTo33()
    ensures Two(33) == 8589934592.0 && Ten(10) == 10000000000.0
  {
    hide Pow;
    TwoNat(33);
    TenNat(10);
    PowAdd(2, 28, 5);
    TwoTo28();
    PowAdd(10, 5, 5);
    FifthPowers();
  }

  lemma FifthPowers()
    ensures Pow(2, 5) == 32 && Pow(10, 5) == 100_000
  {
  }

  /** The logarithms of all exponents in use lie inside the table. */
  lemma LogRange(e: int, k: int)
    requires IsCeilLog(e, k) && -1089 <= e <= 1089
    ensures -330 <= k <= 330
  {
    hide RPow, Two, Ten;
    TwosAtMostTens(33);
    TwoMono(e, 1089);
    TwoMono(-1089, e);
    TenOrder(k - 1, 330);
    SmallestTwo();
    if k < -330 {
      TenMono(k + 1, -330);
      TenNext(k);
    }
  }

  lemma SmallestTwo()
    ensures Ten(-330) <= Two(-1089)
  {
    hide RPow;
    TwosAtMostTens(33);
    TenAdd(-330, 330);
    TwoAdd(-1089, 1089);
    RPowZero(2);
    RPowZero(10);
    ReciprocalOrder(Ten(-330), Ten(330), Two(-1089), Two(1089));
  }

  /** A decimal exponent from k to k + 7 puts the binary exponent into a range of 26. */
  lemma ExponentFits(f: int, e: int, decimalExponent: int, minExponent: int, k: int)
    requires WithinHalfUnit(f, e, decimalExponent) && IsCeilLog(minExponent + 63, k)
    requires k <= decimalExponent <= k + 7
    ensures minExponent <= e <= minExponent + 26
  {
    hide RPow, Two, Ten;
    TenMono(k, decimalExponent);
    TenMono(decimalExponent, k + 7);
    EightTens(k - 1);
    SixtyThreeBits(f, e);
    var low, ten := Two(minExponent + 63), Ten(decimalExponent);
    assert low <= ten < 100000000.0 * low;
    if e < minExponent {
      TwoMono(e + 64, minExponent + 63);
    }
    if e > minExponent + 26 {
      TwoAdd(minExponent + 63, 27);
      TwoMono(minExponent + 90, e + 63);
      TwoTo27();
      TwoNext(e + 62);
      TwoMono(e - 1, e + 56);
      SevenTwos(e + 56);
    }
  }

  lemma SevenTwos(e: int)
    ensures Two(e + 7) == 128.0 * Two(e)
  {
    hide RPow, Two;
    TwoNext(e);
    TwoNext(e + 1);
    TwoNext(e + 2);
    TwoNext(e + 3);
    TwoNext(e + 4);
    TwoNext(e + 5);
    TwoNext(e + 6);
  }

  lemma TwoTo27()
    ensures Two(27) == 134217728.0
  {
    hide Pow;
    TwoNat(27);
    TwoTo28();
    PowNext(2, 27);
  }

  lemma EightTens(e: int)
    ensures Ten(e + 8) == 100000000.0 * Ten(e)
  {
    hide RPow, Ten;
    TenNext(e);
    TenNext(e + 1);
    TenNext(e + 2);
    TenNext(e + 3);
    TenNext(e + 4);
    TenNext(e + 5);
    TenNext(e + 6);
    TenNext(e + 7);
  }

  /** A normalized significand, with half a unit to spare on top. */
  lemma SixtyThreeBits(f: int, e: int)
    requires 0x8000_0000_0000_0000 <= f < 0x1_0000_0000_0000_0000
    ensures Two(e + 63) <= Scaled(f, e) && Scaled(f, e) + Two(e - 1) < Two(e + 64)
  {
    hide RPow, Two;
    TwoTo63(e);
    TwoNext(e - 1);
    SixtyThreeReal(f as real, Two(e - 1), Two(e), Scaled(f, e));
  }

  lemma SixtyThreeReal(f: real, half: real, u: real, x: real)
    requires 9223372036854775808.0 <= f <= 18446744073709551615.0 && half > 0.0 && u == 2.0 * half && x == f * u
    ensures 9223372036854775808.0 * u <= x && x + half < 18446744073709551616.0 * u
  {
    UnitsBetween(f, 9223372036854775808.0, 18446744073709551615.0, u, x);
  }

  lemma TwoTo63(e: int)
    ensures Two(e + 63) == 9223372036854775808.0 * Two(e) && Two(e + 64) == 18446744073709551616.0 * Two(e)
  {
    hide RPow, Two;
    SevenTwos(e);
    SevenTwos(e + 7);
    SevenTwos(e + 14);
    SevenTwos(e + 21);
    SevenTwos(e + 28);
    SevenTwos(e + 35);
    SevenTwos(e + 42);
    SevenTwos(e + 49);
    SevenTwos(e + 56);
    TwoNext(e + 63);
  }
}
