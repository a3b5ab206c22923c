// The start values of bignum-dtoa.cc: v / 10^estimate as an exact ratio of big integers, with
// the distances to its boundaries over the same denominator.
module ScaledStarts {
  import opened MachineInts
  import opened Powers
  import opened Bigits
  import opened BigitSteps
  import opened WordPowers
  import opened Bignums
  import opened BignumDtoas

  /** What one unit in the last place of v = f * 2^e is worth in the numerator. */
  function UnitOf(e: int, estimate: int): (u: nat)
    ensures u > 0
  {
    MulStrict(0, Pow(2, Max(e, 0)), Pow(10, Max(-estimate, 0)));
    Pow(2, Max(e, 0)) * Pow(10, Max(-estimate, 0))
  }

  /** The denominator that goes with it. */
  function BaseOf(e: int, estimate: int): (b: nat)
    ensures b > 0
  {
    MulStrict(0, Pow(2, Max(-e, 0)), Pow(10, Max(estimate, 0)));
    Pow(2, Max(-e, 0)) * Pow(10, Max(estimate, 0))
  }

  lemma UnitAndBase(e: int, estimate: int)
    ensures e >= 0 && estimate >= 0 ==> UnitOf(e, estimate) == Pow(2, e) && BaseOf(e, estimate) == Pow(10, estimate)
    ensures e < 0 && estimate >= 0 ==>
      UnitOf(e, estimate) == 1 && BaseOf(e, estimate) == Pow(2, -e) * Pow(10, estimate)
    ensures e < 0 && estimate < 0 ==> UnitOf(e, estimate) == Pow(10, -estimate) && BaseOf(e, estimate) == Pow(2, -e)
  {
    hide Pow;
    PowNone(2);
    PowNone(10);
  }

  /** The exponents a double and its estimate can have. */
  ghost predicate InDoubleRange(e: int, estimate: int) {
    -1074 <= e <= 971 && -400 <= estimate <= 400
  }

  /** Doubling a small number. */
  method Double(a: Bignum)
    requires a.Valid() && a.used < 127
    modifies a, a.bigits
    ensures a.Valid() && a.Value() == 2 * old(a.Value()) && a.used <= old(a.used) + 1
  {
    PowOne(2);
    a.ShiftLeft(1);
  }

  method AssignShifted(a: Bignum, value: uint64, shift: nat)
    requires a.Shape()
    modifies a, a.bigits
    ensures a.Valid() && a.Value() == Pow(2, shift) * value && a.used <= 4
  {
    a.AssignUInt64(value);
    a.ShiftLeft(shift);
  }

  method AssignPowerOfTen(a: Bignum, n: nat)
    requires a.Shape() && n <= 400
    modifies a, a.bigits
    ensures a.Valid() && a.Value() == Pow(10, n) < Weight(58) && a.used <= 58
  {
    hide Weight, Pow;
    SizeOfFive();
    a.AssignPowerUInt16(10, n);
    TenBelowTwo(n);
    a.LengthIs(58);
  }

  method MultiplyBySignificand(a: Bignum, significand: uint64)
    requires a.Valid() && a.Value() < Weight(58)
    modifies a, a.bigits
    ensures a.Valid() && a.Value() == significand * old(a.Value()) && a.used <= 62
  {
    hide Weight;
    RoomForSignificand(a, significand);
    a.MultiplyByUInt64(significand);
    a.LengthIs(62);
  }

  ghost predicate AllApart(a: Bignum, b: Bignum, c: Bignum, d: Bignum) {
    Apart(a, b) && Apart(a, c) && Apart(a, d) && Apart(b, c) && Apart(b, d) && Apart(c, d)
  }

  /** A number that has not been assigned yet. */
  ghost predicate FreshValue(a: Bignum)
    reads a, a.bigits
  {
    a.Valid() && a.Value() == 0 && a.used == 0
  }

  /** The numbers before the adjustment for a closer lower boundary: n and d over a common factor
      of two if there are deltas, which are one unit each. */
  ghost predicate Started(n: int, d: int, unit: int, deltas: bool,
      numerator: Bignum, denominator: Bignum, deltaMinus: Bignum, deltaPlus: Bignum)
    reads numerator, numerator.bigits, denominator, denominator.bigits
    reads deltaMinus, deltaMinus.bigits, deltaPlus, deltaPlus.bigits
  {
    && numerator.Valid() && denominator.Valid() && deltaMinus.Valid() && deltaPlus.Valid()
    && numerator.used < 126 && denominator.used < 126 && deltaMinus.used < 126 && deltaPlus.used < 126
    && numerator.Value() == (if deltas then 2 * n else n)
    && denominator.Value() == (if deltas then 2 * d else d)
    && deltaPlus.Value() == deltaMinus.Value() == (if deltas then unit else 0)
  }

  method InitialScaledStartValuesPositiveExponent(significand: uint64, exponent: int, estimate: int, deltas: bool,
      numerator: Bignum, denominator: Bignum, deltaMinus: Bignum, deltaPlus: Bignum)
    requires InDoubleRange(exponent, estimate) && exponent >= 0 && estimate >= 0
    requires AllApart(numerator, denominator, deltaMinus, deltaPlus)
    requires numerator.Shape() && denominator.Shape() && FreshValue(deltaMinus) && FreshValue(deltaPlus)
    modifies numerator, numerator.bigits, denominator, denominator.bigits
    modifies deltaMinus, deltaMinus.bigits, deltaPlus, deltaPlus.bigits
    ensures Started(significand * UnitOf(exponent, estimate), BaseOf(exponent, estimate), UnitOf(exponent, estimate),
      deltas, numerator, denominator, deltaMinus, deltaPlus)
  {
    hide Weight, Pow, UnitOf, BaseOf, Bignum.Valid, Bignum.Value, Bignum.Shape;
    UnitAndBase(exponent, estimate);
    AssignShifted(numerator, significand, exponent);
    AssignPowerOfTen(denominator, estimate);
    if deltas {
      Double(denominator);
      Double(numerator);
      AssignShifted(deltaPlus, 1, exponent);
      AssignShifted(deltaMinus, 1, exponent);
    }
  }

  method InitialScaledStartValuesNegativeExponentPositivePower(significand: uint64, exponent: int, estimate: int, deltas: bool,
      numerator: Bignum, denominator: Bignum, deltaMinus: Bignum, deltaPlus: Bignum)
    requires InDoubleRange(exponent, estimate) && exponent < 0 && estimate >= 0
    requires AllApart(numerator, denominator, deltaMinus, deltaPlus)
    requires numerator.Shape() && denominator.Shape() && FreshValue(deltaMinus) && FreshValue(deltaPlus)
    modifies numerator, numerator.bigits, denominator, denominator.bigits
    modifies deltaMinus, deltaMinus.bigits, deltaPlus, deltaPlus.bigits
    ensures Started(significand * UnitOf(exponent, estimate), BaseOf(exponent, estimate), UnitOf(exponent, estimate),
      deltas, numerator, denominator, deltaMinus, deltaPlus)
  {
    hide Weight, Pow, UnitOf, BaseOf, Bignum.Valid, Bignum.Value, Bignum.Shape;
    UnitAndBase(exponent, estimate);
    numerator.AssignUInt64(significand);
    AssignPowerOfTen(denominator, estimate);
    denominator.ShiftLeft(-exponent);
    if deltas {
      Double(denominator);
      Double(numerator);
      deltaPlus.AssignUInt16(1);
      deltaMinus.AssignUInt16(1);
    }
  }

  method StartWithPower(n: nat, deltas: bool, numerator: Bignum, deltaMinus: Bignum, deltaPlus: Bignum)
    requires n <= 400 && Apart(numerator, deltaMinus) && Apart(numerator, deltaPlus) && Apart(deltaMinus, deltaPlus)
    requires numerator.Shape() && FreshValue(deltaMinus) && FreshValue(deltaPlus)
    modifies numerator, numerator.bigits, deltaMinus, deltaMinus.bigits, deltaPlus, deltaPlus.bigits
    ensures numerator.Valid() && numerator.Value() == Pow(10, n) < Weight(58) && deltaMinus.Valid() && deltaPlus.Valid()
    ensures deltaMinus.Value() == deltaPlus.Value() == if deltas then Pow(10, n) else 0
    ensures deltaMinus.used <= 58 && deltaPlus.used <= 58
  {
    hide Weight, Pow, Bignum.Valid, Bignum.Value, Bignum.Shape;
    AssignPowerOfTen(numerator, n);
    if deltas {
      deltaPlus.AssignBignum(numerator);
      deltaMinus.AssignBignum(numerator);
    }
  }

  method InitialScaledStartValuesNegativeExponentNegativePower(significand: uint64, exponent: int, estimate: int, deltas: bool,
      numerator: Bignum, denominator: Bignum, deltaMinus: Bignum, deltaPlus: Bignum)
    requires InDoubleRange(exponent, estimate) && exponent < 0 && estimate < 0
    requires AllApart(numerator, denominator, deltaMinus, deltaPlus)
    requires numerator.Shape() && denominator.Shape() && FreshValue(deltaMinus) && FreshValue(deltaPlus)
    modifies numerator, numerator.bigits, denominator, denominator.bigits
    modifies deltaMinus, deltaMinus.bigits, deltaPlus, deltaPlus.bigits
    ensures Started(significand * UnitOf(exponent, estimate), BaseOf(exponent, estimate), UnitOf(exponent, estimate),
      deltas, numerator, denominator, deltaMinus, deltaPlus)
  {
    hide Weight, Pow, UnitOf, BaseOf, Bignum.Valid, Bignum.Value, Bignum.Shape;
    UnitAndBase(exponent, estimate);
    // The numerator holds the power of ten first.
    StartWithPower(-estimate, deltas, numerator, deltaMinus, deltaPlus);
    MultiplyBySignificand(numerator, significand);
    AssignShifted(denominator, 1, -exponent);
    if deltas {
      Double(numerator);
      Double(denominator);
    }
  }

  /** The common factor put into numerator and denominator to keep the deltas integers. */
  function Factor(deltas: bool, closer: bool): (k: nat)
    ensures k > 0
  {
    if deltas then (if closer then 4 else 2) else 1
  }

  /** v / 10^estimate as a ratio, and the deltas over the same denominator if they are needed. */
  method InitialScaledStartValues(significand: uint64, exponent: int, lowerBoundaryIsCloser: bool, estimate: int, deltas: bool,
      numerator: Bignum, denominator: Bignum, deltaMinus: Bignum, deltaPlus: Bignum)
    requires InDoubleRange(exponent, estimate) && (exponent >= 0 ==> estimate >= 0)
    requires AllApart(numerator, denominator, deltaMinus, deltaPlus)
    requires FreshValue(numerator) && FreshValue(denominator) && FreshValue(deltaMinus) && FreshValue(deltaPlus)
    modifies numerator, numerator.bigits, denominator, denominator.bigits
    modifies deltaMinus, deltaMinus.bigits, deltaPlus, deltaPlus.bigits
    ensures numerator.Valid() && denominator.Valid() && deltaMinus.Valid() && deltaPlus.Valid()
    ensures var k := Factor(deltas, lowerBoundaryIsCloser);
      && numerator.Value() == k * (significand * UnitOf(exponent, estimate))
      && denominator.Value() == k * BaseOf(exponent, estimate)
    ensures deltas ==> (deltaMinus.Value() == UnitOf(exponent, estimate)
      && deltaPlus.Value() == if lowerBoundaryIsCloser then 2 * deltaMinus.Value() else deltaMinus.Value())
    ensures !deltas ==> deltaMinus.Value() == deltaPlus.Value() == 0
  {
    hide Weight, Pow, UnitOf, BaseOf, Bignum.Valid, Bignum.Value, Bignum.Shape;
    if exponent >= 0 {
      InitialScaledStartValuesPositiveExponent(significand, exponent, estimate, deltas,
        numerator, denominator, deltaMinus, deltaPlus);
    } else if estimate >= 0 {
      InitialScaledStartValuesNegativeExponentPositivePower(significand, exponent, estimate, deltas,
        numerator, denominator, deltaMinus, deltaPlus);
    } else {
      InitialScaledStartValuesNegativeExponentNegativePower(significand, exponent, estimate, deltas,
        numerator, denominator, deltaMinus, deltaPlus);
    }
    if deltas && lowerBoundaryIsCloser {
      Double(denominator);
      Double(numerator);
      Double(deltaPlus);
    }
  }

  /** Scales so that the number, upper boundary included, starts with its first digit. */
  method FixupMultiply10(estimate: int, isEven: bool,
      numerator: Bignum, denominator: Bignum, deltaMinus: Bignum, deltaPlus: Bignum) returns (decimalPoint: int)
    requires numerator.Valid() && denominator.Valid() && deltaMinus.Valid() && deltaPlus.Valid()
    requires AllApart(numerator, denominator, deltaMinus, deltaPlus)
    requires Small(denominator.Value()) && deltaMinus.Value() <= deltaPlus.Value()
    modifies numerator, numerator.bigits, deltaMinus, deltaMinus.bigits, deltaPlus, deltaPlus.bigits
    ensures numerator.Valid() && deltaMinus.Valid() && deltaPlus.Valid()
    ensures var inRange := old(if isEven then numerator.Value() + deltaPlus.Value() >= denominator.Value()
        else numerator.Value() + deltaPlus.Value() > denominator.Value());
      var c := if inRange then 1 else 10;
      && decimalPoint == (if inRange then estimate + 1 else estimate)
      && numerator.Value() == c * old(numerator.Value())
      && deltaMinus.Value() == c * old(deltaMinus.Value())
      && deltaPlus.Value() == c * old(deltaPlus.Value())
  {
    hide Weight, Bignum.Valid, Bignum.Value, Bignum.Shape;
    var compare := Bignum.PlusCompare(numerator, deltaPlus, denominator);
    var inRange := if isEven then compare >= 0 else compare > 0;
    if inRange {
      decimalPoint := estimate + 1;
    } else {
      decimalPoint := estimate;
      SmallFits(numerator);
      SmallFits(deltaMinus);
      SmallFits(deltaPlus);
      numerator.Times10();
      var same := Bignum.Equal(deltaMinus, deltaPlus);
      if same {
        deltaMinus.Times10();
        deltaPlus.AssignBignum(deltaMinus);
      } else {
        deltaMinus.Times10();
        deltaPlus.Times10();
      }
    }
  }

  lemma SizeOfFive()
    ensures OddPart(10) == 5 && BitSize(5) == 3
  {
    assert BitSize(1) == 1 && BitSize(2) == 2;
  }

  lemma TenBelowTwo(n: nat)
    requires n <= 400
    ensures Pow(10, n) < Weight(58)
  {
    hide Pow, Weight;
    PowBase(10, 16, n);
    assert Pow(2, 4) == 16 by {
      PowNone(2);
      PowNext(2, 0);
      PowNext(2, 1);
      PowNext(2, 2);
      PowNext(2, 3);
    }
    PowPow(2, 4, n);
    PowMono(2, 4 * n, 1600);
    WeightIsPower(58);
    PowMono(2, 1600, 1623);
    PowNext(2, 1623);
  }

  lemma RoomForSignificand(a: Bignum, f: uint64)
    requires a.Valid() && a.Value() < Weight(58)
    ensures f * a.Value() < Weight(a.exponent + 128) && f * a.Value() < Weight(62)
  {
    hide Weight;
    var v := a.Value();
    MulMono(f, 0x1_0000_0000_0000_0000, v);
    assert Weight(61) == 0x1000_0000 * 0x1000_0000 * 0x1000_0000 * Weight(58) by {
      ThreeWeights(58);
    }
    WeightMono(61, 62);
    WeightMono(62, a.exponent + 128);
  }

  lemma ThreeWeights(n: nat)
    ensures Weight(n + 3) == 0x1000_0000 * 0x1000_0000 * 0x1000_0000 * Weight(n)
  {
    assert Weight(n + 1) == 0x1000_0000 * Weight(n);
    assert Weight(n + 2) == 0x1000_0000 * Weight(n + 1);
    assert Weight(n + 3) == 0x1000_0000 * Weight(n + 2);
  }
}
