// Text and doubles converted there and back: the shortest digits of a double read back as that
// double, and 15 digits survive a trip through a double.
module RoundTrips {
  import opened Options
  import opened MachineInts
  import opened Powers
  import opened RealPowers
  import opened Decimals
  import opened DecimalRounding
  import opened CachedPowers
  import opened DtoaBounds
  import opened DtoaModes
  import opened AsciiDoubles
  import opened StrtodBuffers
  import opened LeastDouble
  import opened Strtods
  import opened DiyFpStrtods
  import opened StrtodRounding
  import opened PowerGaps
  import opened Ieee

  /** Reading what the shortest mode prints gives back the double. */
  lemma ShortestReadsBack(s: seq<char>, point: int, d: int, c: uint64)
    requires 0 < d < INFINITY && ShortestDigits(s, point, d) && RoundsTo(Read(s, point - |s|), c)
    ensures c == d
  {
    hide Ten, Midpoint, DecimalAt, DecimalValue, IsShortest, IsClosest;
    ReadsBackRounds(Denoted(s, point), d);
    RoundsToUnique(Denoted(s, point), c, d);
  }

  /** Printing and reading, through whichever paths answer. */
  method PrintAndRead(d: uint64, table: seq<CachedPower>, ceilLog: int, estimate: int, hardware: (seq<char>, int) -> Option<uint64>)
    returns (c: uint64)
    requires 0 < d < INFINITY && IsPowerTable(table) && StartsAtLeastPower(table) && IsCorrectHardware(hardware)
    requires Logarithms(d, ceilLog, estimate)
    ensures c == d
  {
    hide IsPowerTable, ShortestDigits, RoundsTo, StartsAtLeastPower, IsCorrectHardware, Logarithms;
    var buffer := new char[18];
    var sign, length, point, magnitude := DoubleToAscii(d, Shortest, 0, buffer, table, ceilLog, estimate);
    var s := buffer[..length];
    DigitsOf(s, point, d);
    c := Strtod(s, point - |s|, table, hardware);
    ShortestReadsBack(s, point, d, c);
  }

  lemma DigitsOf(s: seq<char>, point: int, d: int)
    requires 0 < d < INFINITY && ShortestDigits(s, point, d)
    ensures AreDigits(s)
  {
  }

  // ----- 15 digits -----

  /** A normal double is within 2^-53 of what was read, relatively. */
  lemma RelativeError(x: real, d: uint64)
    requires RoundsTo(x, d) && 0x10_0000_0000_0000 <= d < INFINITY
    ensures Abs(x - Value(d)) * 9007199254740992.0 <= Value(d)
  {
    hide Two, Scaled, Fraction, BiasedExponent;
    var f: int, e := Significand(d), Exponent(d);
    NormalFields(d);
    LowerNeighbour(d);
    ScaledUp(f, e);
    ScaledUp(2 * f, e - 1);
    ScaledUp(2 * f - 1, e - 1);
    ScaledMono(4 * f - 2, 4 * f - 1, e - 2);
    HalfUnitShare(f, Two(e - 1), x, Value(d)) by {
      ScaledHalves(f, e);
    }
  }

  /** Where numbers round to normal doubles: half of a unit below the least normal double is closer to that
      one, and half of a unit above the largest double is infinity. */
  predicate InNormalRange(x: real) {
    Midpoint(0xF_FFFF_FFFF_FFFF) <= x < Midpoint(INFINITY - 1)
  }

  lemma NormalRange(x: real, d: uint64)
    requires RoundsTo(x, d)
    ensures InNormalRange(x) <==> 0x10_0000_0000_0000 <= d < INFINITY
  {
    hide Midpoint, Value;
    if d < 0x10_0000_0000_0000 {
      ValueMono(d, 0xF_FFFF_FFFF_FFFF);
    } else {
      ValueMono(0xF_FFFF_FFFF_FFFF, d - 1);
    }
    if d < INFINITY {
      ValueMono(d, INFINITY - 1);
    }
  }

  /** From the least normal double to the largest double every number is in the range. */
  lemma FromLeastToLargest(x: real)
    requires Two(-1022) <= x <= Scaled(0x1F_FFFF_FFFF_FFFF, 971)
    ensures InNormalRange(x)
  {
    hide Midpoint, Value, Two, Scaled;
    MidpointIsMiddle(0xF_FFFF_FFFF_FFFF);
    MidpointIsMiddle(INFINITY - 1);
    EndsOfRange();
  }

  lemma EndsOfRange()
    ensures Value(0x10_0000_0000_0000) == Two(-1022) && Value(INFINITY - 1) == Scaled(0x1F_FFFF_FFFF_FFFF, 971)
  {
    hide Two;
    LargestFields();
    TwoAdd(-1074, 52);
    FiftyTwoBits();
  }

  lemma FiftyTwoBits()
    ensures Two(52) == 4503599627370496.0
  {
    hide Pow, Two;
    NinetyThree();
    TwoNext(51);
  }

  lemma NormalFields(d: uint64)
    requires 0x10_0000_0000_0000 <= d < INFINITY
    ensures Significand(d) >= 4503599627370496
  {
  }

  lemma ScaledHalves(f: int, e: int)
    ensures Scaled(2 * f, e - 1) == 2.0 * (f as real) * Two(e - 1)
    ensures Scaled(2 * f + 1, e - 1) == 2.0 * (f as real) * Two(e - 1) + Two(e - 1)
    ensures Scaled(2 * f - 1, e - 1) == 2.0 * (f as real) * Two(e - 1) - Two(e - 1)
  {
    hide Two;
  }

  lemma HalfUnitShare(f: int, h: real, x: real, v: real)
    requires f >= 4503599627370496 && h > 0.0 && v == 2.0 * (f as real) * h && v - h <= x <= v + h
    ensures Abs(x - v) * 9007199254740992.0 <= v
  {
    RMulMono(4503599627370496.0, f as real, 2.0 * h);
    assert 4503599627370496.0 * (2.0 * h) == 9007199254740992.0 * h;
    assert (f as real) * (2.0 * h) == v;
    RMulMono(Abs(x - v), h, 9007199254740992.0);
  }

  /** The digits of a number that is close to n * 10^e, where n has 15 digits: n itself. When the
      number is just below a power of ten its digits are finer, and the carry restores the point. */
  lemma FifteenDigits(n: int, point: int, v: real, t: seq<char>, q: int, m: int)
    requires 100_000_000_000_000 <= n < 1_000_000_000_000_000
    requires Abs(DecimalAt(n, point - 15) - v) * 9007199254740992.0 <= v
    requires CountedDigits(t, q, v, 15, m)
    ensures DecimalValue(t) == n && q == point
  {
    hide Ten, DecimalValue, DecimalAt;
    var u, x := Ten(point - 15), DecimalAt(n, point - 15);
    FifteenZeros(point);
    assert x == (n as real) * u by {
      AtUnit(n, point - 15);
    }
    CloseToDigits(n, u, x, v);
    NearPower(t, q, m, point, u, x, v);
    var y := Units(t, q, m, 15);
    LeadingDigit(t);
    TensOfFifteen();
    if m == point {
      HalfUpUnique(v, n, y, point - 15) by {
        RoundedAt(x, u, v);
      }
    } else {
      // Just below 10^(point - 1), which is what was read.
      OneStepFiner(n, point, u, x, v);
      HalfUpUnique(v, 10 * n, y, point - 16);
    }
  }

  lemma AtUnit(n: int, e: int)
    ensures DecimalAt(n, e) == (n as real) * Ten(e)
  {
    hide Ten;
  }

  lemma TensOfFifteen()
    ensures Pow(10, 15) == 1_000_000_000_000_000 && Pow(10, 14) == 100_000_000_000_000
  {
    hide Pow;
    AdjustmentTable();
  }

  lemma FifteenZeros(point: int)
    ensures Ten(point) == 1000000000000000.0 * Ten(point - 15)
    ensures Ten(point - 1) == 100000000000000.0 * Ten(point - 15)
    ensures Ten(point - 15) == 10.0 * Ten(point - 16)
  {
    hide Pow, RPow, Ten;
    TenAdd(point - 15, 15);
    TenAdd(point - 15, 14);
    TenNat(15);
    TenNat(14);
    TensOfFifteen();
    TenNext(point - 16);
  }

  /** The error is well below half a unit of the 15th digit. */
  lemma CloseToDigits(n: int, u: real, x: real, v: real)
    requires 100_000_000_000_000 <= n < 1_000_000_000_000_000 && u > 0.0 && x == (n as real) * u
    requires Abs(x - v) * 9007199254740992.0 <= v
    ensures Abs(x - v) < u / 8.0 && v < 1000000000000000.0 * u + u / 8.0
    ensures v < 100000000000000.0 * u ==> Abs(x - v) < u / 80.0 && n == 100_000_000_000_000
    ensures v < 1000000000000000.0 * u
    ensures v > 10000000000000.0 * u
  {
    UnitsBetween(n as real, 100000000000000.0, 999999999999999.0, u, x);
    CloseReals(u, x, v);
    if n > 100_000_000_000_000 {
      UnitsBetween(n as real, 100000000000001.0, 999999999999999.0, u, x);
      AboveThePower(u, x, v);
    }
  }

  lemma AboveThePower(u: real, x: real, v: real)
    requires u > 0.0 && x >= 100000000000001.0 * u && Abs(x - v) < u / 8.0
    ensures v >= 100000000000000.0 * u
  {
  }

  lemma CloseReals(u: real, x: real, v: real)
    requires u > 0.0 && 100000000000000.0 * u <= x <= 999999999999999.0 * u
    requires Abs(x - v) * 9007199254740992.0 <= v
    ensures Abs(x - v) < u / 8.0 && v < 999999999999999.0 * u + u / 8.0
    ensures v < 100000000000000.0 * u ==> Abs(x - v) < u / 80.0
    ensures v > 10000000000000.0 * u
  {
  }

  /** v has its first digit where x has it, or just below. */
  lemma NearPower(t: seq<char>, q: int, m: int, point: int, u: real, x: real, v: real)
    requires CountedDigits(t, q, v, 15, m) && u > 0.0
    requires Ten(point) == 1000000000000000.0 * u && Ten(point - 1) == 100000000000000.0 * u
    requires 10000000000000.0 * u < v < 1000000000000000.0 * u
    ensures m == point || (m == point - 1 && v < 100000000000000.0 * u)
  {
    hide Ten, DecimalValue, DecimalAt;
    TenNext(point - 2);
    if m > point {
      TenMono(point, m - 1);
    } else if m < point - 1 {
      TenMono(m, point - 2);
    } else if m == point - 1 {
      assert v < Ten(m);
    }
  }

  lemma RoundedAt(x: real, u: real, v: real)
    requires Abs(x - v) < u / 8.0
    ensures RoundedHalfUp(v, x, u)
  {
  }

  lemma OneStepFiner(n: int, point: int, u: real, x: real, v: real)
    requires u == Ten(point - 15) == 10.0 * Ten(point - 16) && x == DecimalAt(n, point - 15) && Abs(x - v) < u / 80.0
    ensures RoundedHalfUp(v, DecimalAt(10 * n, point - 16), Ten(point - 16))
  {
    hide Ten;
    var w := Ten(point - 16);
    assert x == (n as real) * (10.0 * w);
    assert DecimalAt(10 * n, point - 16) == x;
  }

  /** Digits followed by zeros. */
  function Padded(s: seq<char>, n: nat): (t: seq<char>)
    requires |s| <= n
    ensures |t| == n && t[..|s|] == s && forall i :: |s| <= i < n ==> t[i] == '0'
    decreases n - |s|
  {
    if |s| == n then s else Padded(s + ['0'], n)
  }

  lemma {:induction false} PaddedValue(s: seq<char>, n: nat)
    requires AreDigits(s) && |s| <= n
    ensures AreDigits(Padded(s, n)) && DecimalValue(Padded(s, n)) == DecimalValue(s) * Pow(10, n - |s|)
    decreases n - |s|
  {
    hide DecimalValue, Pow;
    if |s| == n {
      PowNone(10);
    } else {
      DecimalAppend(s, '0');
      PaddedValue(s + ['0'], n);
      PowNext(10, n - |s| - 1);
      MulAssoc(10, DecimalValue(s), Pow(10, n - |s| - 1));
    }
  }

  /** A decimal of at most 15 digits, read to a double in the normal range and generated with 15 digits, comes back
      with the same digits, zeros after them, and the same decimal point. */
  lemma FifteenDigitRoundTrip(s: seq<char>, point: int, d: uint64, t: seq<char>, q: int, m: int)
    requires s != [] && AreDigits(s) && s[0] != '0' && |s| <= 15
    requires RoundsTo(Read(s, point - |s|), d) && InNormalRange(Read(s, point - |s|))
    requires CountedDigits(t, q, Value(d), 15, m)
    ensures t == Padded(s, 15) && q == point
  {
    hide Pow, Ten, DecimalValue, DecimalAt, RoundsTo, Value, CountedDigits, Padded, Read, InNormalRange;
    var p := Padded(s, 15);
    NormalRange(Read(s, point - |s|), d);
    PaddedFifteen(s, point);
    RelativeError(Read(s, point - |s|), d);
    FifteenDigits(DecimalValue(p), point, Value(d), t, q, m);
    CountedShape(t, q, Value(d), m);
    SameDigits(t, p);
  }

  lemma CountedShape(t: seq<char>, q: int, v: real, m: int)
    requires CountedDigits(t, q, v, 15, m)
    ensures |t| == 15 && AreDigits(t)
  {
    hide Ten, Denoted;
  }

  lemma PaddedFifteen(s: seq<char>, point: int)
    requires s != [] && AreDigits(s) && s[0] != '0' && |s| <= 15
    ensures var p := Padded(s, 15);
      && |p| == 15 && AreDigits(p) && 100_000_000_000_000 <= DecimalValue(p) < 1_000_000_000_000_000
      && DecimalAt(DecimalValue(p), point - 15) == Read(s, point - |s|)
  {
    hide Pow, Ten, DecimalValue, DecimalAt;
    var p := Padded(s, 15);
    PaddedValue(s, 15);
    DecimalAtShift(DecimalValue(s), point - 15, 15 - |s|);
    assert p[0] == s[0] by {
      assert p[..|s|][0] == s[0];
    }
    LeadingDigit(p);
    TensOfFifteen();
  }

  ghost predicate CorrectLogarithms(ceilLog: uint64 -> int, estimate: uint64 -> int) {
    forall d: uint64 :: Logarithms(d, ceilLog(d), estimate(d))
  }

  /** The same trip through the two conversions. */
  method ReadAndPrint15(s: seq<char>, point: int, table: seq<CachedPower>, hardware: (seq<char>, int) -> Option<uint64>,
      ceilLog: uint64 -> int, estimate: uint64 -> int, buffer: array<char>) returns (d: uint64, length: nat, q: int)
    requires s != [] && AreDigits(s) && s[0] != '0' && |s| <= 15 && buffer.Length >= 16
    requires IsPowerTable(table) && StartsAtLeastPower(table) && IsCorrectHardware(hardware)
    requires CorrectLogarithms(ceilLog, estimate)
    modifies buffer
    ensures length <= buffer.Length && RoundsTo(Read(s, point - |s|), d)
    ensures InNormalRange(Read(s, point - |s|)) ==> buffer[..length] == Padded(s, 15) && q == point
  {
    hide IsPowerTable, CountedDigits, RoundsTo, StartsAtLeastPower, IsCorrectHardware, Logarithms, Value, Read, InNormalRange;
    d := Strtod(s, point - |s|, table, hardware);
    NormalRange(Read(s, point - |s|), d);
    length, q := 0, 0;
    if 0 < d < INFINITY {
      var sign;
      ghost var magnitude;
      sign, length, q, magnitude := DoubleToAscii(d, Precision, 15, buffer, table, ceilLog(d), estimate(d));
      if 0x10_0000_0000_0000 <= d {
        FifteenDigitRoundTrip(s, point, d, buffer[..length], q, magnitude);
      }
    }
  }
}
