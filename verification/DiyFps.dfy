// "Do it yourself" floating point numbers: a 64-bit significand and an exponent.
module DiyFps {
  import opened MachineInts
  import opened Powers

  /** The upper half of a 128-bit product, rounded to nearest, halves up. */
  function Product(f: uint64, g: uint64): (p: int)
    ensures p >= 0
  {
    MulMono(0, f, g);
    (f * g + 0x8000_0000_0000_0000) / 0x1_0000_0000_0000_0000
  }

  /** How far a significand is from having its top bit set. */
  function Leading(f: nat): (n: nat)
    requires 0 < f < 0x1_0000_0000_0000_0000
    decreases 0x1_0000_0000_0000_0000 - f
  {
    if f >= 0x8000_0000_0000_0000 then 0 else 1 + Leading(2 * f)
  }

  class DiyFp {
    var f: uint64
    var e: int

    constructor (significand: uint64, exponent: int)
      ensures f == significand && e == exponent
    {
      f := significand;
      e := exponent;
    }

    method Subtract(other: DiyFp)
      requires e == other.e && f >= other.f
      modifies this
      ensures f == old(f) - old(other.f) && e == old(e)
    {
      f := f - other.f;
    }

    static method Minus(a: DiyFp, b: DiyFp) returns (r: DiyFp)
      requires a.e == b.e && a.f >= b.f
      ensures fresh(r) && r.f == a.f - b.f && r.e == a.e
    {
      r := new DiyFp(a.f, a.e);
      r.Subtract(b);
    }

    /** The product of the significands from four 32-bit products, none of which overflows. */
    method Multiply(other: DiyFp)
      modifies this
      ensures f == Product(old(f), old(other.f)) && e == old(e) + old(other.e) + 64
    {
      ghost var f0, g0 := f, other.f;
      var a: uint64, b: uint64 := f / 0x1_0000_0000, f % 0x1_0000_0000;
      var c: uint64, d: uint64 := other.f / 0x1_0000_0000, other.f % 0x1_0000_0000;
      HalvesFit(a, b, c, d);
      var ac: uint64, bc: uint64, ad: uint64, bd: uint64 := a * c, b * c, a * d, b * d;
      var tmp: uint64 := bd / 0x1_0000_0000 + ad % 0x1_0000_0000 + bc % 0x1_0000_0000;
      tmp := tmp + 0x8000_0000;
      HalvesProduct(f0, g0, a, b, c, d, ac, bc, ad, bd, tmp);
      var result: uint64 := ac + ad / 0x1_0000_0000 + bc / 0x1_0000_0000 + tmp / 0x1_0000_0000;
      e := e + other.e + 64;
      f := result;
    }

    static method Times(a: DiyFp, b: DiyFp) returns (r: DiyFp)
      ensures fresh(r) && r.f == Product(a.f, b.f) && r.e == a.e + b.e + 64
    {
      r := new DiyFp(a.f, a.e);
      r.Multiply(b);
    }

    /** Shifts the top bit of the significand into place; the value stays. */
    method Normalize()
      requires f != 0
      modifies this
      ensures f == old(f) * Pow(2, Leading(old(f))) && e == old(e) - Leading(old(f))
      ensures f >= 0x8000_0000_0000_0000
    {
      hide Pow, Leading;
      ghost var f0, e0 := f, e;
      var significand: uint64, exponent := f, e;
      PowNone(2);
      while significand < 0x40_0000_0000_0000
        invariant significand > 0 && exponent - Leading(significand) == e0 - Leading(f0)
        invariant significand * Pow(2, Leading(significand)) == f0 * Pow(2, Leading(f0))
        decreases 0x1_0000_0000_0000_0000 - significand
      {
        TenShifts(significand);
        significand := significand * 1024;
        exponent := exponent - 10;
      }
      while significand < 0x8000_0000_0000_0000
        invariant significand > 0 && exponent - Leading(significand) == e0 - Leading(f0)
        invariant significand * Pow(2, Leading(significand)) == f0 * Pow(2, Leading(f0))
        decreases 0x1_0000_0000_0000_0000 - significand
      {
        OneShift(significand);
        significand := significand * 2;
        exponent := exponent - 1;
      }
      NoShift(significand);
      f := significand;
      e := exponent;
    }
  }

  lemma HalvesFit(a: int, b: int, c: int, d: int)
    requires 0 <= a < 0x1_0000_0000 && 0 <= b < 0x1_0000_0000
    requires 0 <= c < 0x1_0000_0000 && 0 <= d < 0x1_0000_0000
    ensures 0 <= a * c <= 0xFFFF_FFFE_0000_0001 && 0 <= b * c <= 0xFFFF_FFFE_0000_0001
    ensures 0 <= a * d <= 0xFFFF_FFFE_0000_0001 && 0 <= b * d <= 0xFFFF_FFFE_0000_0001
  {
    HalfFits(a, c);
    HalfFits(b, c);
    HalfFits(a, d);
    HalfFits(b, d);
  }

  lemma HalfFits(x: int, y: int)
    requires 0 <= x < 0x1_0000_0000 && 0 <= y < 0x1_0000_0000
    ensures 0 <= x * y <= 0xFFFF_FFFE_0000_0001
  {
    MulMono(x, 0xFFFF_FFFF, y);
    MulMono(0, x, y);
  }

  lemma HalvesProduct(f: uint64, g: uint64, a: int, b: int, c: int, d: int, ac: int, bc: int, ad: int, bd: int, tmp: int)
    requires 0 <= a && 0 <= b && 0 <= c && 0 <= d
    requires f == 0x1_0000_0000 * a + b && g == 0x1_0000_0000 * c + d
    requires ac == a * c && bc == b * c && ad == a * d && bd == b * d && 0 <= ac && 0 <= bc && 0 <= ad && 0 <= bd
    requires tmp == bd / 0x1_0000_0000 + ad % 0x1_0000_0000 + bc % 0x1_0000_0000 + 0x8000_0000
    ensures ac + ad / 0x1_0000_0000 + bc / 0x1_0000_0000 + tmp / 0x1_0000_0000 == Product(f, g)
    ensures Product(f, g) < 0xFFFF_FFFF_FFFF_FFFF
  {
    assert f * g == 0x1_0000_0000_0000_0000 * ac + 0x1_0000_0000 * (ad + bc) + bd by {
      ProductOfSums(a, b, c, d);
    }
    var high := ac + ad / 0x1_0000_0000 + bc / 0x1_0000_0000 + tmp / 0x1_0000_0000;
    DivModUnique(f * g + 0x8000_0000_0000_0000, 0x1_0000_0000_0000_0000, high,
      0x1_0000_0000 * (tmp % 0x1_0000_0000) + bd % 0x1_0000_0000);
    ProductFits(f, g);
  }

  lemma ProductOfSums(a: int, b: int, c: int, d: int)
    ensures (0x1_0000_0000 * a + b) * (0x1_0000_0000 * c + d)
      == 0x1_0000_0000_0000_0000 * (a * c) + 0x1_0000_0000 * (a * d + b * c) + b * d
  {
  }

  lemma ProductFits(f: uint64, g: uint64)
    ensures Product(f, g) < 0xFFFF_FFFF_FFFF_FFFF
  {
    MulMono(f, 0xFFFF_FFFF_FFFF_FFFF, g);
    MulMono(0, f, g);
  }

  /** The rounded product is within half a unit of the exact one. */
  lemma ProductError(f: uint64, g: uint64)
    ensures 0x1_0000_0000_0000_0000 * Product(f, g) - 0x8000_0000_0000_0000 <= f * g
    ensures f * g < 0x1_0000_0000_0000_0000 * Product(f, g) + 0x8000_0000_0000_0000
  {
    MulMono(0, f, g);
  }

  lemma NoShift(f: nat)
    requires 0x8000_0000_0000_0000 <= f < 0x1_0000_0000_0000_0000
    ensures Leading(f) == 0
  {
  }

  lemma OneShift(f: nat)
    requires 0 < f < 0x8000_0000_0000_0000
    ensures Leading(f) == 1 + Leading(2 * f)
    ensures f * Pow(2, Leading(f)) == 2 * f * Pow(2, Leading(2 * f))
  {
    PowNext(2, Leading(2 * f));
    MulAssoc(f, 2, Pow(2, Leading(2 * f)));
  }

  lemma {:induction false} Shifts(f: nat, n: nat)
    requires 0 < f && f * Pow(2, n) < 0x1_0000_0000_0000_0000
    ensures f < 0x1_0000_0000_0000_0000
    ensures Leading(f) == n + Leading(f * Pow(2, n))
    ensures f * Pow(2, Leading(f)) == f * Pow(2, n) * Pow(2, Leading(f * Pow(2, n)))
    decreases n
  {
    hide Pow, Leading;
    if n == 0 {
      PowNone(2);
    } else {
      PowNext(2, n - 1);
      MulAssoc(f, 2, Pow(2, n - 1));
      MulMono(1, Pow(2, n - 1), f);
      OneShift(f);
      Shifts(2 * f, n - 1);
    }
  }

  lemma TenShifts(f: nat)
    requires 0 < f < 0x40_0000_0000_0000
    ensures Leading(f) == 10 + Leading(1024 * f)
    ensures f * Pow(2, Leading(f)) == f * 1024 * Pow(2, Leading(1024 * f))
  {
    assert Pow(2, 10) == 1024;
    Shifts(f, 10);
  }

  lemma ProductMono(a: uint64, b: uint64, c: uint64)
    requires a <= b
    ensures Product(a, c) <= Product(b, c)
  {
    MulMono(a, b, c);
  }
}
