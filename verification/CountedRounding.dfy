// Counted Grisu over the reals: its digits are the number rounded to a place, and unless the number is almost
// a power of ten the very digits the exact path generates.
module CountedRounding {
  import opened Powers
  import opened RealPowers
  import opened Decimals
  import opened DigitGens
  import opened CountedDigitGens
  import opened RoundWeeds
  import opened GrisuRounding
  import opened DecimalRounding
  import opened DtoaModes
  import opened Ieee
  import opened PowerNeighbours

  /** x * 10^place, the digits as a multiple of the place they were cut at. */
  ghost predicate CutAt(s: seq<char>, kappa: int, place: int, x: int) {
    && (kappa == place || kappa == place + 1)
    && x == DecimalValue(s) * (if kappa == place then 1 else 10)
    && Denoted(s, kappa + |s|) == DecimalAt(x, place)
  }

  lemma CutDigits(s: seq<char>, kappa: int, place: int) returns (x: int)
    requires kappa == place || kappa == place + 1
    ensures CutAt(s, kappa, place, x)
  {
    hide Pow, Ten, DecimalValue, DecimalAt;
    x := DecimalValue(s) * (if kappa == place then 1 else 10);
    DecimalAtShift(DecimalValue(s), place, 1);
    PowNext(10, 0);
    PowNone(10);
  }

  /** Counted Grisu soundness: the number is strictly within half a unit of the last place. */
  lemma CountedIsNear(s: seq<char>, kappa: int, place: int, count: nat, e: int, w: int, v: real)
    requires e <= 0 && CountedResult(s, kappa, place, count, Pow(2, -e), w) && WithinUnit(v, w, e)
    ensures Abs(v - Denoted(s, kappa + count)) < Ten(place) / 2.0
    ensures Denoted(s, kappa + count) - Ten(place) / 2.0 <= Scaled(w - 1, e)
    ensures Scaled(w + 1, e) <= Denoted(s, kappa + count) + Ten(place) / 2.0
  {
    hide Pow, Ten, Two, DecimalAt, DecimalValue, Scaled;
    var (tenKappa, unit) := Weights(place, Pow(2, -e));
    var r := CommonUnit(place, e);
    var x := CutDigits(s, kappa, place);
    Distribute(unit, w, 1);
    Distribute(unit, w, -1);
    CompareHalves(x, tenKappa, place, w + 1, unit, e, r, true);
    CompareHalves(x, tenKappa, place, w - 1, unit, e, r, false);
  }

  /** w has `count` digits down to the place. */
  lemma CountedMagnitude(s: seq<char>, kappa: int, place: int, count: nat, e: int, w: int)
    requires e <= 0 && CountedResult(s, kappa, place, count, Pow(2, -e), w)
    ensures Ten(place + count - 1) <= Scaled(w, e) < Ten(place + count)
  {
    hide Pow, Ten, Two, DecimalAt, DecimalValue, Scaled, SafelyRounded;
    var (tenKappa, unit) := Weights(place, Pow(2, -e));
    var r := CommonUnit(place, e);
    CompareMultiples(Pow(10, count - 1), tenKappa, place, w, unit, e, r);
    CompareMultiples(Pow(10, count), tenKappa, place, w, unit, e, r);
    DecimalAtPower(count - 1, place);
    DecimalAtPower(count, place);
  }

  /** With at most 18 digits the error is small against the place below the last one, if the number is
      just below the power of ten where its digits seem to start. */
  lemma ErrorIsTiny(s: seq<char>, kappa: int, place: int, count: nat, e: int, w: int)
    requires e <= 0 && CountedResult(s, kappa, place, count, Pow(2, -e), w) && count <= 18 && w >= 0x4000_0000_0000_0000
    requires Scaled(w - 1, e) < Ten(place + count - 1)
    ensures Two(e) <= Ten(place) / 20.0
  {
    hide Pow, Ten, Two, DecimalAt, DecimalValue, SafelyRounded, Scaled;
    var (tenKappa, unit) := Weights(place, Pow(2, -e));
    var r := CommonUnit(place, e);
    PowMono(10, count - 1, 17);
    SeventeenZeros();
    DecimalAtPower(count - 1, place);
    CompareMultiples(Pow(10, count - 1), tenKappa, place, w - 1, unit, e, r);
    TwentyUnits(Pow(10, count - 1), tenKappa, w - 1, unit);
    TwentyUnitsReal(unit, tenKappa, r, Two(e), Ten(place));
  }

  lemma TwentyUnits(p: nat, tenKappa: nat, w: int, unit: nat)
    requires w * unit < p * tenKappa && p <= 100_000_000_000_000_000 && w >= 0x3FFF_FFFF_FFFF_FFFF
    ensures 20 * unit <= tenKappa
  {
    MulMono(p, 100_000_000_000_000_000, tenKappa);
    MulMono(0x3FFF_FFFF_FFFF_FFFF, w, unit);
  }

  /** 64 bits never suffice to be sure of 20 digits. */
  lemma AtMostNineteen(s: seq<char>, kappa: int, place: int, count: nat, one: nat, w: int)
    requires one > 0 && CountedResult(s, kappa, place, count, one, w) && w < 0x1_0000_0000_0000_0000
    ensures count <= 19
  {
    hide Pow, DecimalValue;
    var (tenKappa, unit) := Weights(place, one);
    if count >= 20 {
      PowMono(10, 19, count - 1);
      TenTo19();
      MulMono(10_000_000_000_000_000_000, Pow(10, count - 1), tenKappa);
      MulMono(w, 0xFFFF_FFFF_FFFF_FFFF, unit);
      SafeUnits(DecimalValue(s) * (if kappa == place then 1 else 10), tenKappa, w * unit, unit);
      UnitPositive(place, one);
    }
  }

  lemma UnitPositive(place: int, one: nat)
    ensures Weights(place, one).1 > 0
  {
  }

  lemma SafeUnits(x: int, tenKappa: int, w: int, unit: int)
    requires SafelyRounded(x, tenKappa, w, unit)
    ensures 2 * unit <= tenKappa
  {
  }

  lemma TwentyUnitsReal(unit: nat, tenKappa: nat, r: real, two: real, ten: real)
    requires 20 * unit <= tenKappa && r > 0.0 && (unit as real) * r == two && (tenKappa as real) * r == ten
    ensures two <= ten / 20.0
  {
    RMulMono(20.0 * (unit as real), tenKappa as real, r);
    assert 20.0 * (unit as real) * r == 20.0 * two;
  }

  lemma SeventeenZeros()
    ensures Pow(10, 17) == 100_000_000_000_000_000
  {
    hide Pow;
    PowAdd(10, 8, 8);
    TenTo8();
    PowNext(10, 16);
  }

  /** The counted digits of a number known to within a unit. The unit may hide on which side of a power of
      ten the number lies; that matters for 19 digits only, and there only for numbers almost at the power. */
  lemma CountedIsExact(s: seq<char>, kappa: int, place: int, count: nat, e: int, w: int, v: real) returns (magnitude: int)
    requires e <= 0 && CountedResult(s, kappa, place, count, Pow(2, -e), w) && WithinUnit(v, w, e)
    requires 0x4000_0000_0000_0000 <= w < 0x1_0000_0000_0000_0000
    ensures CountedDigits(s, kappa + count, v, count, magnitude) || (count == 19 && AlmostPower(v, magnitude))
  {
    hide Pow, Ten, Two, DecimalAt, DecimalValue, SafelyRounded;
    var x := CutDigits(s, kappa, place);
    CountedIsNear(s, kappa, place, count, e, w, v);
    CountedMagnitude(s, kappa, place, count, e, w);
    OnePositive(-e);
    AtMostNineteen(s, kappa, place, count, Pow(2, -e), w);
    LeadingDigit(s);
    PowNext(10, count - 1);
    UnitSteps(w, e);
    if v >= Ten(place + count) {
      magnitude := place + count + 1;
      JustAbove(x, place, count, v);
    } else if v < Ten(place + count - 1) {
      magnitude := place + count - 1;
      if count <= 18 {
        ErrorIsTiny(s, kappa, place, count, e, w);
        JustBelow(x, place, count, e, w, v);
      } else {
        OneUnitBelow(w, e, v, Ten(magnitude));
      }
    } else {
      magnitude := place + count;
    }
  }

  lemma OnePositive(n: nat)
    ensures Pow(2, n) > 0
  {
  }

  lemma OneUnitBelow(w: int, e: int, v: real, power: real)
    requires w >= 0x4000_0000_0000_0000 && Scaled(w - 1, e) < v < power <= Scaled(w, e)
    ensures (power - v) * 4611686018427387903.0 < power
  {
    hide Two;
    UnitSteps(w, e);
    UnitsBetween((w - 1) as real, 4611686018427387903.0, (w - 1) as real, Two(e), Scaled(w - 1, e));
  }

  lemma UnitSteps(w: int, e: int)
    ensures Scaled(w - 1, e) == Scaled(w, e) - Two(e) && Scaled(w + 1, e) == Scaled(w, e) + Two(e)
  {
    hide Two;
  }

  /** Rounding did not stay below the power of ten that v has reached. */
  lemma JustAbove(x: int, place: int, count: nat, v: real)
    requires v >= Ten(place + count) && Abs(v - DecimalAt(x, place)) < Ten(place) / 2.0
    requires DecimalAt(x, place) - Ten(place) / 2.0 < Ten(place + count)
    ensures x == Pow(10, count) && DecimalAt(x, place) == Ten(place + count)
    ensures v < Ten(place + count + 1) && Ten(place) < Ten(place + 1)
  {
    hide Pow, Ten, DecimalAt;
    DecimalAtPower(count, place);
    NearestMultiple(x, Pow(10, count), place);
    TenNext(place);
    TenNext(place + count);
    TenMono(place, place + count);
  }

  /** Rounding did not go above the power of ten that v stays below. */
  lemma JustBelow(x: int, place: int, count: nat, e: int, w: int, v: real)
    requires count > 0 && v < Ten(place + count - 1) <= Scaled(w, e) && Scaled(w, e) - Two(e) < v
    requires Abs(v - DecimalAt(x, place)) < Ten(place) / 2.0 && Two(e) <= Ten(place) / 20.0
    requires Ten(place + count - 1) < DecimalAt(x, place) + Ten(place) / 2.0
    ensures x == Pow(10, count - 1) && DecimalAt(x, place) == Ten(place + count - 1)
    ensures Ten(place + count - 2) <= v && DecimalAt(x, place) - Ten(place - 1) / 2.0 <= v
  {
    hide Pow, Ten, Two, DecimalAt, Scaled;
    DecimalAtPower(count - 1, place);
    NearestMultiple(x, Pow(10, count - 1), place);
    TenNext(place - 1);
    TenNext(place + count - 2);
    TenMono(place, place + count - 1);
  }

  lemma NearestMultiple(x: int, y: int, place: int)
    ensures DecimalAt(x, place) - Ten(place) / 2.0 < DecimalAt(y, place) + Ten(place) / 2.0 ==> x <= y
    ensures DecimalAt(x, place) + Ten(place) / 2.0 > DecimalAt(y, place) - Ten(place) / 2.0 ==> x >= y
  {
    hide Ten;
    NextMultiple(x, place);
    NextMultiple(y, place);
    DecimalAtMono(y + 1, x, place);
    DecimalAtMono(x, y - 1, place);
  }
}
