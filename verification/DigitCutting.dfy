// Why reading may drop all digits after the 772nd, or the 779th, as long as it remembers that
// something was dropped: the points where rounding changes have no more digits than that.
module DigitCutting {
  import opened Powers
  import opened RealPowers
  import opened DecimalRounding
  import opened StrtodBuffers
  import opened DtoaBounds
  import opened Ieee

  /** A dyadic number has no decimals below those of its exponent. */
  lemma DyadicIsDecimal(f: int, x: int, place: int) returns (m: int)
    requires place <= 0 && place <= x
    ensures Scaled(f, x) == DecimalAt(m, place)
  {
    hide Pow, RPow;
    if x >= 0 {
      m := f * Pow(2, x) * Pow(10, -place);
      TwoNat(x);
      RealProduct(f, Pow(2, x));
      DecimalAtShift(f * Pow(2, x), place, -place);
      RPowZero(10);
    } else {
      m := f * Pow(5, -x) * Pow(10, x - place);
      DecimalAtShift(f * Pow(5, -x), place, x - place);
      FivesAndTens(x);
      RealProduct(f, Pow(5, -x));
      RMulAssoc(f as real, Pow(5, -x) as real, Ten(x));
    }
  }

  /** 2^x = 5^-x * 10^x for negative x. */
  lemma FivesAndTens(x: int)
    requires x < 0
    ensures (Pow(5, -x) as real) * Ten(x) == Two(x)
  {
    hide Pow, RPow;
    TwoNat(-x);
    TenNat(-x);
    PowTen(-x);
    RealProduct(Pow(5, -x), Pow(2, -x));
    FivesReal(Pow(5, -x) as real, Pow(2, -x) as real, Pow(10, -x) as real, Two(x), Ten(x));
  }

  lemma FivesReal(five: real, two: real, ten: real, twoDown: real, tenDown: real)
    requires ten == five * two && twoDown * two == 1.0 && tenDown * ten == 1.0 && two > 0.0
    ensures five * tenDown == twoDown
  {
    RMulCancel(five * tenDown, twoDown, two);
    assert five * tenDown * two == tenDown * (five * two);
  }

  /** Two numbers between the same neighbouring multiples lie on the same side of every multiple. */
  lemma SameSide(x: real, y: real, h: int, place: int, m: int)
    requires StrictlyWithin(x, h, place) && StrictlyWithin(y, h, place)
    ensures x < DecimalAt(m, place) <==> y < DecimalAt(m, place)
    ensures x != DecimalAt(m, place) && y != DecimalAt(m, place)
  {
    hide DecimalAt;
    DecimalAtMono(m, h, place);
    DecimalAtMono(h + 1, m, place);
  }

  lemma {:induction false} TenBelowTwos(k: nat)
    ensures Ten(3 * k) <= Two(10 * k)
  {
    hide RPow;
    if k == 0 {
      RPowZero(2);
      RPowZero(10);
    } else {
      TenBelowTwos(k - 1);
      TenAdd(3 * (k - 1), 3);
      TwoAdd(10 * (k - 1), 10);
      ThousandBelow();
      RMulMono(Ten(3 * (k - 1)), Two(10 * (k - 1)), Ten(3));
      RMulMono(Ten(3), Two(10), Two(10 * (k - 1)));
    }
  }

  lemma ThousandBelow()
    ensures 0.0 < Ten(3) <= Two(10)
  {
    TenNat(3);
    TwoNat(10);
    assert Pow(10, 3) == 1000 && Pow(2, 10) == 1024;
  }

  /** 772 digits reach down to the last decimal of every boundary near the number, or to the last
      decimal any boundary has. */
  lemma LastPlace(point: int, e: int)
    requires Ten(point - 1) < Two(53 + e) && e >= -1074
    ensures point - 772 <= e - 2 || point - 772 <= -1075
  {
    hide RPow, Ten, Two;
    if point >= -302 && e <= point - 771 {
      TwoMono(53 + e, point - 718);
      if point >= 1 {
        TenAboveTwo(point - 1);
        TwoMono(point - 718, 3 * (point - 1));
      } else {
        SmallPoint(1 - point);
      }
    }
  }

  lemma SmallPoint(m: nat)
    requires 1 <= m <= 303
    ensures Two(0 - m - 717) <= Ten(0 - m)
  {
    hide RPow;
    var k := (m + 2) / 3;
    TenBelowTwos(k);
    TenMono(m, 3 * k);
    TwoMono(10 * k, m + 717);
    TenAdd(0 - m, m);
    TwoAdd(0 - m - 717, m + 717);
    RPowZero(2);
    RPowZero(10);
    ReciprocalOrder(Two(0 - m - 717), Two(m + 717), Ten(0 - m), Ten(m));
  }

  /** The numbers read before and after a cut: n digits and something not zero after them. */
  ghost predicate CutBetween(x: real, y: real, h: int, n: nat, place: int) {
    && n >= 772 && Pow(10, n - 1) <= h
    && StrictlyWithin(x, h, place) && StrictlyWithin(y, h, place)
  }

  lemma CutSize(x: real, h: int, n: nat, place: int)
    requires n > 0 && Pow(10, n - 1) <= h && StrictlyWithin(x, h, place)
    ensures Ten(place + n - 1) < x
  {
    hide Pow, Ten, DecimalAt;
    DecimalAtPower(n - 1, place);
    DecimalAtMono(Pow(10, n - 1), h, place);
  }

  /** Cutting is harmless: both numbers round to the same double. */
  lemma CutIsHarmless(x: real, y: real, h: int, n: nat, place: int, d: int)
    requires 0 <= d <= INFINITY && CutBetween(x, y, h, n, place) && RoundsTo(y, d)
    ensures RoundsTo(x, d)
  {
    hide Pow, RPow, Ten, Two, Midpoint, Value, DecimalAt, StrictlyWithin;
    CutSize(x, h, n, place);
    CutSize(y, h, n, place);
    if d < INFINITY {
      BoundaryPlaces(y, n, place, d);
      BoundarySide(x, y, h, place, d);
      if d > 0 {
        BoundarySide(x, y, h, place, d - 1);
      }
    } else if place <= 0 {
      LargestDouble();
      BoundarySide(x, y, h, place, d - 1);
    } else {
      TenMono(400, place + n - 1);
      PowersApart();
      ValueRange(d - 1);
      LargestMidpoint();
    }
  }

  lemma LargestDouble()
    ensures Exponent(INFINITY - 1) == 971
  {
  }

  lemma LargestMidpoint()
    ensures Midpoint(INFINITY - 1) < Two(1024)
  {
    hide RPow, Pow;
    MidpointIsMiddle(INFINITY - 1);
    InfinityIsPower();
  }

  /** The pattern of infinity stands where 2^1024 would be. */
  lemma InfinityIsPower()
    ensures Value(INFINITY) == Two(1024)
  {
    hide RPow, Pow;
    assert Significand(INFINITY) == 4503599627370496 && Exponent(INFINITY) == 972;
    TwoNext(52);
    TwoTo53();
    TwoAdd(52, 972);
  }

  /** The boundaries of a finite result have no decimals below the cut. */
  lemma BoundaryPlaces(y: real, n: nat, place: int, d: int)
    requires 0 <= d < INFINITY && RoundsTo(y, d) && n >= 772 && Ten(place + n - 1) < y
    ensures place <= 0 && place <= Exponent(d) - 1 && (d > 0 ==> place <= Exponent(d - 1) - 1)
  {
    hide RPow, Ten, Two, Value, Midpoint, Significand, Exponent;
    MidpointIsMiddle(d);
    NextIsSuccessor(d);
    AboveZero(d);
    NextFields(d);
    if d > 0 {
      NextFields(d - 1);
      AboveZero(d - 1);
    }
    ScaledRangeUp((Significand(d) as int) + 1, Exponent(d));
    LastPlace(place + n, Exponent(d));
    PowersApart();
    TwoMono(53 + Exponent(d), 1024);
    TenOrder(place + n - 1, 400);
  }

  lemma AboveZero(d: int)
    requires 0 <= d < INFINITY
    ensures -1074 <= Exponent(d) <= 971 && 0 <= Significand(d) < 9007199254740992
  {
  }

  lemma ScaledRangeUp(f: int, e: int)
    requires 0 < f <= 9007199254740992
    ensures Scaled(f, e) <= Two(53 + e)
  {
    hide RPow;
    TwoTo53();
    TwoAdd(53, e);
    RMulMono(f as real, Two(53), Two(e));
  }

  /** On which side of a boundary a number lies is not changed by the cut. */
  lemma BoundarySide(x: real, y: real, h: int, place: int, d: int)
    requires StrictlyWithin(x, h, place) && StrictlyWithin(y, h, place)
    requires 0 <= d < INFINITY && place <= 0 && place <= Exponent(d) - 1
    ensures x < Midpoint(d) <==> y < Midpoint(d)
    ensures x != Midpoint(d) && y != Midpoint(d)
  {
    hide DecimalAt, Scaled, Significand, Exponent;
    var m := DyadicIsDecimal(UpperBoundary(d).0, UpperBoundary(d).1, place);
    SameSide(x, y, h, place, m);
  }
}
