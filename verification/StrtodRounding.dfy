// The last part of DiyFpStrtod (strtod.cc): rounding a 64-bit significand with a known error to a
// double, and knowing whether that was safe. Errors are counted in eighths of a unit.
module StrtodRounding {
  import opened MachineInts
  import opened Powers
  import opened RealPowers
  import opened WordPowers
  import opened NormalizedDoubles
  import opened DtoaBounds
  import opened FixedDtoas
  import opened Ieee

  /** x is strictly within err / 8 units of f * 2^e. */
  ghost predicate StrictlyNear(x: real, f: int, e: int, err: int) {
    Scaled(8 * f - err, e - 3) < x < Scaled(8 * f + err, e - 3)
  }

  /** Significand and exponent as a double has them. */
  predicate Canonical(q: int, x: int) {
    0 <= q < 0x20_0000_0000_0000 && x >= -1074 && (q >= 0x10_0000_0000_0000 || x == -1074)
  }

  /** Different patterns have different values. */
  lemma ValueInjective(c: uint64, d: uint64)
    requires c <= INFINITY && d <= INFINITY && Value(c) == Value(d)
    ensures c == d
  {
    hide Value, Midpoint;
    if c < d {
      MidpointIsMiddle(c);
      ValueMono(c, d);
    } else if d < c {
      MidpointIsMiddle(d);
      ValueMono(d, c);
    }
  }

  /** Below the middle: the lower of the two neighbours. */
  lemma DownIsRounded(x: real, q: int, e: int, d: uint64)
    requires Canonical(q, e) && e < 972 && d == Pack(q, e) && x >= 0.0
    requires Scaled(4 * q - 1, e - 2) < x < Scaled(2 * q + 1, e - 1)
    ensures RoundsTo(x, d)
  {
    hide Pack, Scaled, Significand, Exponent, LowerBoundaryIsCloser;
    if d > 0 {
      LowerNeighbour(d);
      ScaledUp(2 * q - 1, e - 1);
      ScaledMono(4 * q - 2, 4 * q - 1, e - 2);
    }
  }

  /** Above the middle: the upper one, which may start a new binade or be infinity. */
  lemma UpIsRounded(x: real, q: int, e: int, d: uint64)
    requires Canonical(q, e) && e < 972 && d == Pack(q, e) && x >= 0.0
    requires Scaled(2 * q + 1, e - 1) < x < Scaled(2 * q + 3, e - 1)
    ensures RoundsTo(x, d + 1) && Value(d + 1) == Scaled(q + 1, e)
  {
    hide Pack, Scaled, Significand, Exponent;
    NextIsSuccessor(d);
    NextFields(d);
    if d + 1 < INFINITY && Exponent(d + 1) != e {
      ScaledUp(2 * 0x10_0000_0000_0000 + 1, e);
      ScaledMono(2 * q + 3, 4 * 0x10_0000_0000_0000 + 2, e - 1);
    }
  }

  /** Close to the middle: one of the two. */
  lemma EitherIsRounded(x: real, q: int, e: int, d: uint64)
    requires Canonical(q, e) && e < 972 && d == Pack(q, e) && x >= 0.0
    requires Scaled(4 * q - 1, e - 2) < x < Scaled(2 * q + 3, e - 1)
    ensures RoundsTo(x, d) || RoundsTo(x, d + 1)
  {
    hide Pack, Scaled, Significand, Exponent, RoundsTo;
    if x < Scaled(2 * q + 1, e - 1) {
      DownIsRounded(x, q, e, d);
    } else if x > Scaled(2 * q + 1, e - 1) {
      UpIsRounded(x, q, e, d);
    } else {
      TieIsRounded(x, q, e, d);
    }
  }

  lemma TieIsRounded(x: real, q: int, e: int, d: uint64)
    requires Canonical(q, e) && e < 972 && d == Pack(q, e) && x >= 0.0
    requires Scaled(4 * q - 1, e - 2) < x == Scaled(2 * q + 1, e - 1) < Scaled(2 * q + 3, e - 1)
    ensures RoundsTo(x, d) || RoundsTo(x, d + 1)
  {
    hide Pack, Scaled, Significand, Exponent, Value;
    var c: int := d;
    assert Midpoint(d) == x;
    if c % 2 == 0 {
      if d > 0 {
        ValueMono(d - 1, d);
        MidpointIsMiddle(d);
      }
    } else if d + 1 < INFINITY {
      ValueMono(d, d + 1);
    }
  }

  /** Beyond the largest double. */
  lemma InfinityIsRounded(x: real, q: int, e: int)
    requires q >= 0x10_0000_0000_0000 && e >= 972 && Scaled(4 * q - 1, e - 2) < x
    ensures RoundsTo(x, INFINITY)
  {
    hide Two;
    var f := 0x3F_FFFF_FFFF_FFFF;
    assert Midpoint(INFINITY - 1) == Scaled(f, 970) by {
      LargestFields();
    }
    ScaledMono(f, 4 * q - 1, 970);
    TwoMono(970, e - 2);
    RMulMono(Two(970), Two(e - 2), (4 * q - 1) as real);
    ScaledMono(0, f, 970);
  }

  lemma LargestFields()
    ensures Significand(INFINITY - 1) == 0x1F_FFFF_FFFF_FFFF && Exponent(INFINITY - 1) == 971
  {
  }

  // ----- the two ranges -----

  /** How the last bits, counted in eighths, place x between the neighbours. */
  lemma BitsPlaceX(x: real, f: nat, e: int, err: nat, p: nat, q: nat, bits: nat)
    requires StrictlyNear(x, f, e, err) && 2 <= p && err <= Pow(2, p)
    requires f == q * Pow(2, p) + bits && bits < Pow(2, p)
    ensures Scaled(4 * q - 1, e + p - 2) < x < Scaled(2 * q + 3, e + p - 1)
    ensures 8 * bits + err <= 4 * Pow(2, p) ==> x < Scaled(2 * q + 1, e + p - 1)
    ensures 8 * bits >= 4 * Pow(2, p) + err ==> Scaled(2 * q + 1, e + p - 1) < x
  {
    hide Pow, Scaled;
    var r := Pow(2, p - 2);
    PowNext(2, p - 2);
    PowNext(2, p - 1);
    Eighths(4 * q - 1, r, p - 2, e);
    Eighths(2 * q + 3, 2 * r, p - 1, e);
    Eighths(2 * q + 1, 2 * r, p - 1, e);
    EighthProducts(q, r);
    ScaledMono(8 * ((4 * q - 1) * r), 8 * f - err, e - 3);
    ScaledMono(8 * f + err, 8 * ((2 * q + 3) * (2 * r)), e - 3);
    ScaledMono(8 * f + err, 8 * ((2 * q + 1) * (2 * r)), e - 3);
    ScaledMono(8 * ((2 * q + 1) * (2 * r)), 8 * f - err, e - 3);
  }

  lemma EighthProducts(q: nat, r: nat)
    ensures q * (2 * (2 * r)) == 4 * (q * r) && 8 * ((4 * q - 1) * r) == 32 * (q * r) - 8 * r
    ensures 8 * ((2 * q + 3) * (2 * r)) == 32 * (q * r) + 48 * r
    ensures 8 * ((2 * q + 1) * (2 * r)) == 32 * (q * r) + 16 * r
  {
  }

  lemma Eighths(m: int, r: nat, p: nat, e: int)
    requires r == Pow(2, p)
    ensures Scaled(m, e + p) == Scaled(8 * (m * r), e - 3)
  {
    hide Pow, Scaled;
    ScaledShift(m, p, e + p);
    ScaledUp(m * r, e);
    ScaledUp(2 * (m * r), e - 1);
    ScaledUp(4 * (m * r), e - 2);
  }

  /** Dropping low bits costs less than one unit and one eighth. */
  lemma ShiftNear(x: real, f: nat, e: int, err: nat, s: nat)
    requires StrictlyNear(x, f, e, err)
    ensures StrictlyNear(x, f / Pow(2, s), e + s, err / Pow(2, s) + 1 + 8)
  {
    hide Pow, Scaled;
    var r := Pow(2, s);
    var q, lost, c, left := f / r, f % r, err / r, err % r;
    assert f == q * r + lost && err == c * r + left;
    ShiftedBounds(q, r, lost, c, left);
    ScaledShift(8 * q - (c + 9), s, e - 3 + s);
    ScaledShift(8 * q + (c + 9), s, e - 3 + s);
    ScaledMono((8 * q - (c + 9)) * r, 8 * f - err, e - 3);
    ScaledMono(8 * f + err, (8 * q + (c + 9)) * r, e - 3);
  }

  lemma ShiftedBounds(q: nat, r: nat, lost: nat, c: nat, left: nat)
    requires lost < r && left < r
    ensures (8 * q - (c + 9)) * r <= 8 * (q * r + lost) - (c * r + left)
    ensures 8 * (q * r + lost) + (c * r + left) <= (8 * q + (c + 9)) * r
  {
    assert (8 * q - (c + 9)) * r == 8 * (q * r) - c * r - 9 * r;
    assert (8 * q + (c + 9)) * r == 8 * (q * r) + c * r + 9 * r;
  }

  // ----- the method -----

  /** What rounding in the last part promises: the right double, or that or the one below. */
  ghost predicate GoodGuess(x: real, ok: bool, d: uint64) {
    && d <= INFINITY
    && (ok ==> RoundsTo(x, d))
    && (RoundsTo(x, d) || (d < INFINITY && RoundsTo(x, d + 1)))
  }

  method RoundDiyFp(fIn: uint64, eIn: int, errorIn: uint64, ghost x: real) returns (ok: bool, d: uint64)
    requires fIn >= 0x8000_0000_0000_0000 && 1 <= errorIn <= 200 && StrictlyNear(x, fIn, eIn, errorIn) && x >= 0.0
    requires 64 + eIn == -1075 ==> x <= Two(-1075)
    ensures GoodGuess(x, ok, d)
  {
    hide Pow, Two, Scaled, RoundsTo, StrictlyNear, Halvings;
    var orderOfMagnitude := 64 + eIn;
    var effectiveSignificandSize := SignificandSizeForOrderOfMagnitude(orderOfMagnitude);
    var f, e, error, precisionDigitsCount := MakeRoom(fIn, eIn, errorIn, 64 - effectiveSignificandSize, x);
    BitSizes(precisionDigitsCount);
    var one64: uint64 := Pow(2, precisionDigitsCount);
    var precisionBits: uint64 := f % one64;
    var halfWay: uint64 := Pow(2, precisionDigitsCount - 1);
    ghost var bits := precisionBits;
    precisionBits := precisionBits * 8;
    halfWay := halfWay * 8;
    QuotientSize(f, fIn, orderOfMagnitude, precisionDigitsCount);
    var roundedF: uint64, roundedE := f / one64, e + precisionDigitsCount;
    ghost var q := roundedF;
    BitsPlaceX(x, f, e, error, precisionDigitsCount, q, bits);
    if precisionBits >= Plus(halfWay, error) {
      roundedF := roundedF + 1;
    }
    d := DiyFpToUint64(roundedF, roundedE);
    ok := !(Minus(halfWay, error) < precisionBits && precisionBits < Plus(halfWay, error));
    if orderOfMagnitude <= -1075 {
      NoHalving(roundedF);
      TinyIsZero(x, fIn, eIn, errorIn);
    } else {
      RoundedResult(x, q, roundedE, roundedF, d, ok);
    }
  }

  /** For very small denormals, whose half-way point would not fit times eight. */
  method MakeRoom(fIn: uint64, eIn: int, errorIn: uint64, bits: int, ghost x: real)
    returns (f: uint64, e: int, error: uint64, precisionDigitsCount: int)
    requires 11 <= bits <= 64 && 1 <= errorIn <= 200 && StrictlyNear(x, fIn, eIn, errorIn)
    ensures 1 <= error <= 209 && StrictlyNear(x, f, e, error) && e + precisionDigitsCount == eIn + bits
    ensures if bits <= 60 then precisionDigitsCount == bits && f == fIn
      else precisionDigitsCount == 60 && f == fIn / Pow(2, bits - 60)
  {
    hide Pow, Two, Scaled, StrictlyNear;
    f, e, error, precisionDigitsCount := fIn, eIn, errorIn, bits;
    if precisionDigitsCount + 3 >= 64 {
      var shiftAmount := precisionDigitsCount + 3 - 64 + 1;
      ShiftNear(x, f, e, error, shiftAmount);
      ShiftedSizes(f, error, shiftAmount);
      f := f / Pow(2, shiftAmount);
      e := e + shiftAmount;
      // One for what the error lost, and a whole unit for what the significand lost.
      error := error / Pow(2, shiftAmount) + 1 + 8;
      precisionDigitsCount := precisionDigitsCount - shiftAmount;
    }
  }

  lemma NoHalving(f: nat)
    requires f <= 0x1F_FFFF_FFFF_FFFF
    ensures Halvings(f) == 0
  {
  }

  lemma ShiftedSizes(f: uint64, err: nat, s: nat)
    requires 1 <= s <= 4 && err <= 200
    ensures 0 <= f / Pow(2, s) <= f && 0 <= err / Pow(2, s) <= err && Pow(2, s) >= 2
  {
    hide Pow;
    PowMono(2, 1, s);
    PowNext(2, 0);
    PowNone(2);
    QuotientSmaller(f, Pow(2, s));
    QuotientSmaller(err, Pow(2, s));
  }

  lemma QuotientSmaller(f: nat, p: nat)
    requires p >= 1
    ensures 0 <= f / p <= f
  {
    var q, r := f / p, f % p;
    assert f == q * p + r;
    MulMono(1, p, q);
  }

  lemma BitSizes(p: int)
    requires 11 <= p <= 60
    ensures 2048 <= Pow(2, p) <= 0x1000_0000_0000_0000 && Pow(2, p) == 2 * Pow(2, p - 1)
    ensures p == 60 ==> Pow(2, p) == 0x1000_0000_0000_0000
  {
    hide Pow;
    PowNext(2, p - 1);
    PowMono(2, 11, p);
    PowMono(2, p, 60);
    ElevenBits();
    TwoTo61();
    PowNext(2, 60);
  }

  /** The bits kept are as many as a double of this magnitude has. */
  lemma QuotientSize(f: nat, fIn: uint64, order: int, p: int)
    requires fIn >= 0x8000_0000_0000_0000 && 11 <= p <= 60
    requires var size := SignificandSizeForOrderOfMagnitude(order);
      if 64 - size <= 60 then p == 64 - size && f == fIn else p == 60 && f == fIn / Pow(2, 4 - size)
    ensures var q, size := f / Pow(2, p), SignificandSizeForOrderOfMagnitude(order);
      && 0 <= q < 0x20_0000_0000_0000 && (size == 53 ==> q >= 0x10_0000_0000_0000) && (size < 4 ==> q <= 16)
      && f == q * Pow(2, p) + f % Pow(2, p)
  {
    hide Pow;
    var size := SignificandSizeForOrderOfMagnitude(order);
    BitSizes(p);
    if size < 4 {
      QuotientSmaller(fIn, Pow(2, 4 - size));
      BitSizes(60);
      PowAdd(2, 60, 1);
      PowNext(2, 59);
      TwoTo61();
    }
    if size == 53 {
      ElevenBits();
    }
    QuotientBits(f, Pow(2, p));
  }

  lemma QuotientBits(f: nat, one: nat)
    requires f < 0x1_0000_0000_0000_0000 && one >= 2048
    ensures var q := f / one;
      && 0 <= q < 0x20_0000_0000_0000 && f == q * one + f % one
      && (one == 2048 && f >= 0x8000_0000_0000_0000 ==> q >= 0x10_0000_0000_0000)
      && (one == 0x1000_0000_0000_0000 ==> q <= 16)
  {
    var q, r := f / one, f % one;
    assert f == q * one + r;
    MulMono(2048, one, q);
  }

  lemma FourBits()
    ensures Pow(2, 4) == 16
  {
  }

  /** Far enough below the least double everything is zero. */
  lemma TinyIsZero(x: real, f: uint64, e: int, err: nat)
    requires StrictlyNear(x, f, e, err) && 64 + e <= -1075 && err <= 200 && x >= 0.0
    requires 64 + e == -1075 ==> x <= Two(-1075)
    ensures RoundsTo(x, 0)
  {
    hide Pow, Two;
    assert Midpoint(0) == Two(-1075) by {
      LeastMidpoint();
    }
    if 64 + e < -1075 {
      TwoTo64();
      ScaledShift(1, 68, e + 65);
      PowAdd(2, 64, 4);
      FourBits();
      ScaledMono(8 * f + err, 16 * 0x1_0000_0000_0000_0000, e - 3);
      TwoMono(e + 65, -1075);
      assert x < Scaled(1, e + 65) == Two(e + 65);
    }
  }

  lemma LeastMidpoint()
    ensures Midpoint(0) == Two(-1075)
  {
    hide RPow, Two;
    assert UpperBoundary(0) == (1, -1075);
  }

  /** From the fields to the pattern, and from the ranges to the promise. */
  lemma RoundedResult(x: real, q: nat, e: int, f: nat, d: uint64, ok: bool)
    requires x >= 0.0 && 0 <= q < 0x20_0000_0000_0000 && e >= -1074 && (e > -1074 ==> q >= 0x10_0000_0000_0000)
    requires f == q || f == q + 1
    requires Scaled(4 * q - 1, e - 2) < x < Scaled(2 * q + 3, e - 1)
    requires f == q + 1 ==> Scaled(2 * q + 1, e - 1) < x && ok
    requires ok && f == q ==> x < Scaled(2 * q + 1, e - 1)
    requires d <= INFINITY
    requires var k := Halvings(f); if e + k >= 972 then d == INFINITY
      else if e + k < -1074 then d == 0 else Value(d) == Scaled(f / Pow(2, k), e + k)
    ensures GoodGuess(x, ok, d)
  {
    hide Pow, Two, Scaled, RoundsTo, Halvings, Significand, Exponent;
    if e >= 972 {
      InfinityIsRounded(x, q, e);
    } else {
      var c := Pack(q, e);
      PatternFound(q, e, f, d, c);
      if f == q + 1 {
        UpIsRounded(x, q, e, c);
      } else if ok {
        DownIsRounded(x, q, e, c);
      } else {
        EitherIsRounded(x, q, e, c);
      }
    }
  }

  /** Packing gives the pattern of the fields, or its successor. */
  lemma PatternFound(q: nat, e: int, f: nat, d: uint64, c: uint64)
    requires Canonical(q, e) && e < 972 && c == Pack(q, e) && (f == q || f == q + 1) && d <= INFINITY
    requires var k := Halvings(f); if e + k >= 972 then d == INFINITY
      else if e + k < -1074 then d == 0 else Value(d) == Scaled(f / Pow(2, k), e + k)
    ensures d == if f == q then c else c + 1
  {
    hide Pow, Two, Scaled, Halvings, Significand, Exponent, Pack;
    NextIsSuccessor(c);
    PowNone(2);
    if f <= 0x1F_FFFF_FFFF_FFFF {
      NoHalving(f);
      ValueInjective(d, if f == q then c else c + 1);
    } else {
      OneHalving();
      ScaledUp(0x10_0000_0000_0000, e + 1);
      InfinityFields();
      ValueInjective(d, c + 1);
    }
  }

  lemma InfinityFields()
    ensures Significand(INFINITY) == 0x10_0000_0000_0000 && Exponent(INFINITY) == 972
  {
  }

  lemma OneHalving()
    ensures Halvings(0x20_0000_0000_0000) == 1 && 0x20_0000_0000_0000 / Pow(2, 1) == 0x10_0000_0000_0000
  {
    NoHalving(0x10_0000_0000_0000);
    PowNext(2, 0);
  }
}
