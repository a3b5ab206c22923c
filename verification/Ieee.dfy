// The binary64 encoding of ieee.h. A double is its 64-bit pattern. Patterns from 0 to
// Infinity, read as integers, run through the non-negative doubles in increasing order, and
// the pattern of infinity stands where 2^1024 would be (IEEE 754-2008, section 3.4).
module Ieee {
  import opened MachineInts
  import opened Powers
  import opened RealPowers

  const INFINITY := 0x7FF0_0000_0000_0000

  function Fraction(d: uint64): (f: uint64)
    ensures f < 0x10_0000_0000_0000
  {
    d % 0x10_0000_0000_0000
  }

  function BiasedExponent(d: uint64): (b: int)
    ensures 0 <= b < 0x800
  {
    d / 0x10_0000_0000_0000 % 0x800
  }

  predicate IsDenormal(d: uint64) { BiasedExponent(d) == 0 }

  function Exponent(d: uint64): int {
    if IsDenormal(d) then -1074 else BiasedExponent(d) - 1075
  }

  function Significand(d: uint64): (f: uint64)
    ensures f < 0x20_0000_0000_0000
  {
    if IsDenormal(d) then Fraction(d) else Fraction(d) + 0x10_0000_0000_0000
  }

  function Sign(d: uint64): int { if d < 0x8000_0000_0000_0000 then 1 else -1 }

  predicate LowerBoundaryIsCloser(d: uint64) {
    Fraction(d) == 0 && Exponent(d) != -1074
  }

  /** The next greater double. */
  function NextDouble(d: uint64): uint64
    requires !(Sign(d) > 0 && d > INFINITY)
  {
    if d == INFINITY then INFINITY
    else if Sign(d) < 0 && Significand(d) == 0 then 0
    else if Sign(d) < 0 then d - 1
    else d + 1
  }

  function SignificandSizeForOrderOfMagnitude(order: int): int {
    if order >= -1074 + 53 then 53
    else if order <= -1074 then 0
    else order + 1074
  }

  lemma SameParity(d: uint64)
    requires d < INFINITY
    ensures Significand(d) % 2 == d % 2
  {
    hide BiasedExponent;
    LowBits(d, d / 0x10_0000_0000_0000, d % 0x10_0000_0000_0000);
  }

  lemma LowBits(d: nat, q: nat, r: nat)
    requires d == q * 0x10_0000_0000_0000 + r
    ensures r % 2 == d % 2 && (r + 0x10_0000_0000_0000) % 2 == d % 2
  {
    assert d == 2 * (q * 0x8_0000_0000_0000) + r;
  }

  // ----- values -----

  /** f * 2^e. */
  function Scaled(f: int, e: int): real { (f as real) * Two(e) }

  function Value(d: uint64): real { Scaled(Significand(d), Exponent(d)) }

  /** The point half way to the next double, which UpperBoundary returns as significand and exponent. */
  function UpperBoundary(d: uint64): (int, int) {
    (2 * Significand(d) + 1, Exponent(d) - 1)
  }

  function Midpoint(d: uint64): real { Scaled(UpperBoundary(d).0, UpperBoundary(d).1) }

  /** roundTiesToEven of a non-negative real (IEEE 754-2008, section 4.3.1): x lies between the
      midpoints around d, and on one of them only if d is even. */
  ghost predicate RoundsTo(x: real, d: uint64) {
    && d <= INFINITY
    && 0.0 <= x
    && (d > 0 ==> Midpoint(d - 1) < x || (Midpoint(d - 1) == x && d % 2 == 0))
    && (d < INFINITY ==> x < Midpoint(d) || (x == Midpoint(d) && d % 2 == 0))
  }

  function Abs(x: real): real { if x < 0.0 then -x else x }

  lemma ScaledUp(f: int, e: int)
    ensures Scaled(f, e) == Scaled(2 * f, e - 1)
  {
    TwoNext(e - 1);
    RMulAssoc(f as real, 2.0, Two(e - 1));
  }

  lemma ScaledAdd(f: int, g: int, e: int)
    ensures Scaled(f + g, e) == Scaled(f, e) + Scaled(g, e)
  {
  }

  lemma OneScaled(e: int)
    ensures Scaled(1, e) == Two(e)
  {
    hide Two;
  }

  lemma ScaledMono(f: int, g: int, e: int)
    ensures f < g ==> Scaled(f, e) < Scaled(g, e)
    ensures f <= g ==> Scaled(f, e) <= Scaled(g, e)
  {
    RMulMono(f as real, g as real, Two(e));
  }

  /** The next pattern is one unit in the last place higher, across a binade as well. */
  lemma NextIsSuccessor(d: uint64)
    requires d < INFINITY
    ensures Value(d + 1) == Scaled((Significand(d) as int) + 1, Exponent(d))
    ensures NextDouble(d) == d + 1
  {
    hide Scaled;
    ScaledUp(0x10_0000_0000_0000, Exponent(d) + 1);
    NextFields(d);
  }

  lemma NextFields(d: uint64)
    requires d < INFINITY
    ensures (Significand(d + 1) == Significand(d) + 1 && Exponent(d + 1) == Exponent(d))
      || (Significand(d) == 0x1F_FFFF_FFFF_FFFF && Significand(d + 1) == 0x10_0000_0000_0000 && Exponent(d + 1) == Exponent(d) + 1)
  {
    if Fraction(d) == 0xF_FFFF_FFFF_FFFF {
      assert Fraction(d + 1) == 0 && BiasedExponent(d + 1) == BiasedExponent(d) + 1;
    } else {
      assert Fraction(d + 1) == Fraction(d) + 1 && BiasedExponent(d + 1) == BiasedExponent(d);
    }
  }

  /** The upper boundary lies exactly in the middle. */
  lemma MidpointIsMiddle(d: uint64)
    requires d < INFINITY
    ensures 2.0 * Midpoint(d) == Value(d) + Value(d + 1)
    ensures Value(d) < Midpoint(d) < Value(d + 1)
    ensures Value(d) >= 0.0
  {
    hide Scaled;
    var f: int, e := Significand(d), Exponent(d);
    NextIsSuccessor(d);
    ScaledUp(f, e);
    ScaledUp(f + 1, e);
    ScaledAdd(2 * f, 2 * f + 2, e - 1);
    ScaledAdd(2 * f + 1, 2 * f + 1, e - 1);
    ScaledMono(2 * f, 2 * f + 1, e - 1);
    ScaledMono(2 * f + 1, 2 * f + 2, e - 1);
    ScaledMono(0, f, e);
    ScaledAdd(0, 0, e);
  }

  lemma {:induction false} ValueMono(c: uint64, d: uint64)
    requires c <= d <= INFINITY
    ensures Value(c) <= Value(d)
    ensures c < d ==> Midpoint(c) < Value(d)
    ensures c < d < INFINITY ==> Midpoint(c) < Midpoint(d)
    decreases d - c
  {
    hide Scaled, Value, Midpoint;
    if c < d {
      ValueMono(c, d - 1);
      MidpointIsMiddle(d - 1);
      MidpointIsMiddle(c);
      if d < INFINITY {
        MidpointIsMiddle(d);
      }
    }
  }

  /** Below zero the next greater double is the next one towards zero, and after -0.0 comes 0.0. */
  lemma NextOfNegative(m: uint64)
    requires 0 < m <= INFINITY
    ensures NextDouble(0x8000_0000_0000_0000 + m) == 0x8000_0000_0000_0000 + (m - 1) && Value(m - 1) < Value(m)
    ensures forall c: uint64 :: c <= INFINITY ==> !(Value(m - 1) < Value(c) < Value(m))
    ensures NextDouble(0x8000_0000_0000_0000) == 0
  {
    NegativeFields(m);
    MidpointIsMiddle(m - 1);
    forall c: uint64 | c <= INFINITY
      ensures !(Value(m - 1) < Value(c) < Value(m))
    {
      NoneBetweenNeighbours(m, c);
    }
  }

  lemma NegativeFields(m: uint64)
    requires 0 < m <= INFINITY
    ensures Sign(0x8000_0000_0000_0000 + m) < 0 && Significand(0x8000_0000_0000_0000 + m) != 0
    ensures Significand(0x8000_0000_0000_0000) == 0
  {
  }

  lemma NoneBetweenNeighbours(m: uint64, c: uint64)
    requires 0 < m <= INFINITY && c <= INFINITY
    ensures !(Value(m - 1) < Value(c) < Value(m))
  {
    hide Value, Midpoint;
    if c < m {
      ValueMono(c, m - 1);
    } else {
      ValueMono(m, c);
    }
  }

  /** Rounding has one result. */
  lemma RoundsToUnique(x: real, c: uint64, d: uint64)
    requires RoundsTo(x, c) && RoundsTo(x, d)
    ensures c == d
  {
    hide Midpoint;
    if c < d {
      RoundsToOrder(x, c, d);
    } else if d < c {
      RoundsToOrder(x, d, c);
    }
  }

  lemma RoundsToOrder(x: real, c: uint64, d: uint64)
    requires RoundsTo(x, c) && RoundsTo(x, d)
    ensures c >= d
  {
    hide Midpoint, Value;
    if c < d {
      ValueMono(c, d - 1);
      if c == d - 1 {
        Parity(c);
      }
    }
  }

  lemma Parity(c: int)
    ensures c % 2 != (c + 1) % 2
  {
  }

  /** No double is closer than the rounded one, and on a tie the rounded one is even. */
  lemma RoundsToNearest(x: real, d: uint64, c: uint64)
    requires RoundsTo(x, d) && d < INFINITY && c < INFINITY
    ensures Abs(x - Value(d)) <= Abs(x - Value(c))
    ensures c != d && Abs(x - Value(d)) == Abs(x - Value(c)) ==> d % 2 == 0
  {
    hide Midpoint, Value;
    if c < d {
      MidpointIsMiddle(d - 1);
      ValueMono(c, d - 1);
    } else if d < c {
      MidpointIsMiddle(d);
      ValueMono(d + 1, c);
    }
  }

  // ----- from a significand and an exponent -----

  /** How often the significand is halved to fit 53 bits. */
  function Halvings(f: nat): nat {
    if f > 0x1F_FFFF_FFFF_FFFF then 1 + Halvings(f / 2) else 0
  }

  /** The fields of f * 2^e, once f has its hidden bit or e is the least exponent. */
  function Pack(f: int, e: int): (d: uint64)
    requires 0 <= f <= 0x1F_FFFF_FFFF_FFFF && -1074 <= e < 972
    requires f >= 0x10_0000_0000_0000 || e == -1074
    ensures d < INFINITY && Significand(d) == f && Exponent(d) == e
  {
    var biased := if e == -1074 && f / 0x10_0000_0000_0000 % 2 == 0 then 0 else e + 1075;
    f % 0x10_0000_0000_0000 + biased * 0x10_0000_0000_0000
  }

  /** The pattern of f * 2^e; bits below the 53rd are dropped, large exponents give infinity and
      small ones zero. */
  method DiyFpToUint64(f: uint64, e: int) returns (d: uint64)
    ensures d <= INFINITY
    ensures var k := Halvings(f);
      if e + k >= 972 then d == INFINITY
      else if e + k < -1074 then d == 0
      else Value(d) == Scaled(f / Pow(2, k), e + k)
  {
    hide Scaled, Pow, Significand, Exponent, Fraction, BiasedExponent;
    var significand: uint64, exponent := f, e;
    PowNone(2);
    while significand > 0x1F_FFFF_FFFF_FFFF
      invariant exponent + Halvings(significand) == e + Halvings(f)
      invariant significand / Pow(2, Halvings(significand)) == f / Pow(2, Halvings(f))
    {
      HalveOnce(significand, Halvings(significand / 2));
      significand := significand / 2;
      exponent := exponent + 1;
    }
    if exponent >= 972 {
      return INFINITY;
    }
    if exponent < -1074 {
      return 0;
    }
    d := PackShifted(significand, exponent);
  }

  method PackShifted(f: uint64, e: int) returns (d: uint64)
    requires f <= 0x1F_FFFF_FFFF_FFFF && -1074 <= e < 972
    ensures d < INFINITY && Value(d) == Scaled(f, e)
  {
    hide Scaled;
    var significand: uint64, exponent := f, e;
    while exponent > -1074 && significand / 0x10_0000_0000_0000 % 2 == 0
      invariant -1074 <= exponent < 972 && significand <= 0x1F_FFFF_FFFF_FFFF
      invariant Scaled(significand, exponent) == Scaled(f, e)
      decreases exponent + 1074
    {
      ScaledUp(significand, exponent);
      significand := significand * 2;
      exponent := exponent - 1;
    }
    d := Pack(significand, exponent);
  }

  lemma HalveOnce(f: nat, k: nat)
    ensures f / 2 / Pow(2, k) == f / Pow(2, k + 1)
  {
    var p := Pow(2, k);
    var q, r := f / 2 / p, f / 2 % p;
    assert f == 2 * p * q + (2 * r + f % 2);
    DivModUnique(f, 2 * p, q, 2 * r + f % 2);
  }
}
