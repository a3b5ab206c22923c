// The decimal logarithms that the source computes with floating-point numbers: no power of ten in the
// range of doubles is so close to a power of two that the rounding of the product matters.
module DecimalLogs {
  import opened Powers
  import opened RealPowers
  import opened DiyFps
  import opened NormalizedDoubles
  import opened CachedPowers
  import opened WordPowers
  import opened DecimalRounding
  import opened DtoaBounds
  import opened FastDtoas
  import opened AsciiDoubles
  import opened Ieee

  /** 1 / lg(10) as the source writes it. */
  const LOG_OF_TWO: real := 0.30102999566398114

  /** A product with the constant, rounded to a double as well as the constant itself. */
  predicate IsRoundedLog(x: real, e: int) {
    Abs(x - (e as real) * LOG_OF_TWO) <= Abs(e as real) / 1000000000000000.0
  }

  /** The same with the source's 1e-10 taken off, which is far more than all the rounding. */
  predicate IsRoundedEstimate(x: real, e: int) {
    Abs(x - ((e as real) * LOG_OF_TWO - 0.0000000001)) <= 0.000000000001
  }

  predicate IsCeil(k: int, x: real) { (k as real) - 1.0 < x <= k as real }

  // ----- comparing powers of two and ten by their exponents -----

  /** 485/146 and 681/205 are on either side of the logarithm of ten to the base two. */
  lemma Neighbours()
    ensures Pow(2, 485) < Pow(10, 146) && Pow(10, 205) < Pow(2, 681)
  {
    hide Pow;
    Beginnings();
    PowAdd(2, 5, 5);
    PowAdd(2, 10, 10);
    PowAdd(2, 20, 20);
    PowAdd(2, 40, 40);
    PowAdd(2, 80, 80);
    PowAdd(2, 160, 160);
    PowAdd(2, 320, 160);
    PowAdd(2, 480, 5);
    PowAdd(2, 320, 320);
    PowAdd(2, 640, 40);
    PowAdd(2, 680, 1);
    PowAdd(10, 9, 9);
    PowAdd(10, 18, 18);
    PowAdd(10, 36, 36);
    PowAdd(10, 72, 72);
    PowAdd(10, 144, 2);
    PowAdd(10, 144, 36);
    PowAdd(10, 180, 18);
    PowAdd(10, 198, 7);
  }

  lemma Beginnings()
    ensures Pow(2, 1) == 2 && Pow(2, 5) == 32 && Pow(10, 2) == 100 && Pow(10, 7) == 10_000_000 && Pow(10, 9) == 1_000_000_000
  {
  }

  lemma {:induction false} PowBelow(a: nat, b: nat, n: nat)
    requires a < b && n > 0
    ensures Pow(a, n) < Pow(b, n)
  {
    hide Pow;
    PowNext(a, n - 1);
    PowNext(b, n - 1);
    if n == 1 {
      PowNone(a);
      PowNone(b);
    } else {
      PowBelow(a, b, n - 1);
      MulMono(a, b, Pow(a, n - 1));
      MulStrict(Pow(a, n - 1), Pow(b, n - 1), b);
    }
  }

  lemma PowSwap(b: nat, m: nat, n: nat)
    ensures Pow(Pow(b, m), n) == Pow(Pow(b, n), m)
  {
    hide Pow;
    PowPow(b, m, n);
    PowPow(b, n, m);
    assert m * n == n * m;
  }

  /** One pair of powers decides all pairs of exponents on its side. */
  lemma Decided(a: nat, p: nat, b: nat, q: nat, x: nat, y: nat, n: nat)
    requires a > 1 && b > 1 && Pow(a, p) < Pow(b, q) && q > 0 && n == x * q && n <= p * y && y > 0
    ensures Pow(a, x) < Pow(b, y)
  {
    hide Pow;
    PowBelow(Pow(a, p), Pow(b, q), y);
    PowSwap(b, q, y);
    PowPow(a, p, y);
    PowPow(a, x, q);
    PowMono(a, n, p * y);
    if Pow(b, y) <= Pow(a, x) {
      PowBase(Pow(b, y), Pow(a, x), q);
    }
  }

  /** The product with the logarithm says, with room for rounding, which of the two powers is larger. */
  predicate Compared(e: int, m: int) {
    var x, room := (e as real) * LOG_OF_TWO, Abs(e as real) / 1000000000000000.0;
    || (m as real + room < x && Ten(m) < Two(e))
    || (x < m as real - room && Two(e) < Ten(m))
  }

  lemma NaturalsCompared(e: nat, m: nat)
    requires m <= 350 && (e > 0 || m > 0)
    ensures Compared(e, m)
  {
    hide Pow, Two, Ten;
    Neighbours();
    TwoNat(e);
    TenNat(m);
    if 146 * e <= 485 * m {
      Decided(2, 485, 10, 146, e, m, e * 146);
    } else {
      NoneInBetween(e, m);
      Decided(10, 205, 2, 681, m, e, m * 681);
    }
  }

  /** Between the two fractions the denominators are larger. */
  lemma NoneInBetween(e: int, m: int)
    requires m <= 350 && 146 * e > 485 * m
    ensures 205 * e >= 681 * m
  {
  }

  lemma PowersCompared(e: int, m: int)
    requires -350 <= m <= 350 && (e != 0 || m != 0)
    ensures Compared(e, m)
  {
    hide Two, Ten;
    if e >= 0 && m >= 0 {
      NaturalsCompared(e, m);
    } else if e <= 0 && m <= 0 {
      NaturalsCompared(-e, -m);
      Reciprocal(e, m);
    } else {
      PowersOfNone();
      if e > 0 {
        TwoMono(1, e);
        TenMono(m, -1);
      } else {
        TwoMono(e, -1);
        TenMono(1, m);
      }
    }
  }

  lemma PowersOfNone()
    ensures Two(-1) < Two(0) == 1.0 == Ten(0) < Two(1) && Ten(-1) < 1.0 < Ten(1)
  {
  }

  lemma Reciprocal(e: int, m: int)
    ensures Two(-e) < Ten(-m) ==> Ten(m) < Two(e)
    ensures Ten(-m) < Two(-e) ==> Two(e) < Ten(m)
  {
    hide Two, Ten;
    TwoAdd(-e, e);
    TenAdd(-m, m);
    PowersOfNone();
    ReciprocalStrict(Two(-e), Two(e), Ten(-m), Ten(m));
    ReciprocalStrict(Ten(-m), Ten(m), Two(-e), Two(e));
  }

  lemma ReciprocalStrict(a: real, b: real, c: real, d: real)
    requires a * b == 1.0 && c * d == 1.0 && a > 0.0 && b > 0.0 && c > 0.0 && d > 0.0
    ensures a < c ==> d < b
  {
    var t := b * d;
    assert a * t == d && c * t == b;
    RMulCancel(a, c, t);
  }

  // ----- the two logarithms of the source -----

  /** The index of a cached power is found from the logarithm of its least binary exponent. */
  lemma CeilLogIsRight(e: int, x: real, k: int)
    requires -1100 <= e <= 1100 && IsRoundedLog(x, e) && IsCeil(k, x)
    ensures IsCeilLog(e, k)
  {
    hide Two, Ten;
    if e == 0 {
      assert k == 0;
      PowersOfNone();
    } else {
      PowersCompared(e, k);
      PowersCompared(e, k - 1);
    }
  }

  /** The estimate is made from the binary exponent alone and lowered a little: it is at most one too low. */
  lemma EstimateIsRight(d: int, x: real, estimate: int)
    requires 0 < d < INFINITY && IsRoundedEstimate(x, NormalizedExponent(d) + 63) && IsCeil(estimate, x)
    ensures EstimateContract(d, estimate)
  {
    hide Two, Ten, Value, Midpoint, NormalizedExponent;
    var e := NormalizedExponent(d) + 63;
    NormalizedRange(d);
    Binade(d);
    TwoNext(e);
    if e != 0 || estimate != 1 {
      PowersCompared(e, estimate - 1);
    } else {
      PowersOfNone();
    }
    if e != -1 || estimate != -1 {
      PowersCompared(e + 1, estimate + 1);
    } else {
      PowersOfNone();
    }
  }

  /** A double and its upper boundary are in one binade. */
  lemma Binade(d: int)
    requires 0 < d < INFINITY
    ensures Two(NormalizedExponent(d) + 63) <= Value(d) && Midpoint(d) < Two(NormalizedExponent(d) + 64)
  {
    hide Pow, Two, Leading, Significand, Exponent, Scaled;
    FieldRange(d);
    var f, e, n := Significand(d), Exponent(d), Leading(Significand(d));
    LeadingShifts(f);
    AtLeastEleven(f);
    ScaledShift(f, n, e);
    ScaledMono(0x8000_0000_0000_0000, f * Pow(2, n), e - n);
    BinadeEnds(e - n);
    PowSplit(2, 64, n);
    TwoTo64();
    if Pow(2, 64 - n) <= f {
      MulMono(Pow(2, 64 - n), f, Pow(2, n));
    }
    ScaledMono(2 * f + 1, 2 * Pow(2, 64 - n), e - 1);
    ScaledUp(Pow(2, 64 - n), e);
    ScaledShift(1, 64 - n, e + 64 - n);
    OneScaled(e + 64 - n);
  }

  lemma BinadeEnds(e: int)
    ensures Scaled(0x8000_0000_0000_0000, e) == Two(e + 63)
  {
    hide Pow, Two;
    TwoTo64();
    PowNext(2, 63);
    ScaledShift(1, 63, e + 63);
    OneScaled(e + 63);
  }

  /** Both contracts about logarithms, from rounded products alone. */
  lemma LogarithmsHold(d: int, x: real, ceilLog: int, y: real, estimate: int)
    requires 0 < d < INFINITY
    requires IsRoundedLog(x, -61 - NormalizedExponent(d)) && IsCeil(ceilLog, x)
    requires IsRoundedEstimate(y, NormalizedExponent(d) + 63) && IsCeil(estimate, y)
    ensures Logarithms(d, ceilLog, estimate)
  {
    hide NormalizedExponent, IsRoundedLog, IsRoundedEstimate, IsCeil, IsCeilLog, EstimateContract;
    NormalizedRange(d);
    CeilLogIsRight(-61 - NormalizedExponent(d), x, ceilLog);
    EstimateIsRight(d, y, estimate);
  }
}
