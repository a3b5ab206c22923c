// The error bookkeeping of DiyFpStrtod (strtod.cc): how far a DiyFp can be from the number it
// stands for after reading, normalizing and multiplying. Errors are counted in eighths of a unit.
module StrtodErrors {
  import opened MachineInts
  import opened Powers
  import opened RealPowers
  import opened WordPowers
  import opened DiyFps
  import opened NormalizedDoubles
  import opened StrtodRounding
  import opened Ieee

  /** x is within err / 8 units of f * 2^e. */
  ghost predicate Near(x: real, f: int, e: int, err: int) {
    Scaled(8 * f - err, e - 3) <= x <= Scaled(8 * f + err, e - 3)
  }

  /** The number as a multiple of the unit; a is how many units the significand is off. */
  ghost predicate OffBy(x: real, f: int, e: int, a: real) {
    x == ((f as real) + a) * Two(e)
  }

  lemma EightUnits(m: int, e: int)
    ensures 8.0 * Scaled(m, e - 3) == (m as real) * Two(e)
  {
    hide RPow;
    TwoNext(e - 3);
    TwoNext(e - 2);
    TwoNext(e - 1);
    RMulAssoc(8.0, m as real, Two(e - 3));
  }

  lemma NearIsOffBy(x: real, f: int, e: int, err: int) returns (a: real)
    requires Near(x, f, e, err)
    ensures OffBy(x, f, e, a) && 0.0 - (err as real) <= 8.0 * a <= err as real
  {
    hide Two, Scaled;
    var u := Two(e);
    a := x / u - (f as real);
    EightUnits(8 * f - err, e);
    EightUnits(8 * f + err, e);
    OffByBounds(x, f as real, a, err as real, u);
  }

  lemma OffByBounds(x: real, f: real, a: real, err: real, u: real)
    requires u > 0.0 && a == x / u - f
    requires (8.0 * f - err) * u <= 8.0 * x <= (8.0 * f + err) * u
    ensures x == (f + a) * u && 0.0 - err <= 8.0 * a <= err
  {
    assert x == (f + a) * u;
    RMulCancel(8.0 * f - err, 8.0 * (f + a), u);
    RMulCancel(8.0 * (f + a), 8.0 * f + err, u);
    assert 8.0 * (f + a) * u == 8.0 * x;
  }

  lemma OffByIsNear(x: real, f: int, e: int, a: real, err: int)
    requires OffBy(x, f, e, a)
    ensures 0.0 - (err as real) <= 8.0 * a <= err as real ==> Near(x, f, e, err)
    ensures 0.0 - (err as real) < 8.0 * a < err as real ==> StrictlyNear(x, f, e, err)
  {
    hide Two, Scaled;
    EightUnits(8 * f - err, e);
    EightUnits(8 * f + err, e);
    NearBounds(x, f as real, a, err as real, Two(e));
  }

  lemma NearBounds(x: real, f: real, a: real, err: real, u: real)
    requires u > 0.0 && x == (f + a) * u
    ensures 0.0 - err <= 8.0 * a <= err ==> (8.0 * f - err) * u <= 8.0 * x <= (8.0 * f + err) * u
    ensures 0.0 - err < 8.0 * a < err ==> (8.0 * f - err) * u < 8.0 * x < (8.0 * f + err) * u
  {
    var y := 8.0 * (f + a);
    assert y * u == 8.0 * x;
    RMulMono(8.0 * f - err, y, u);
    RMulMono(y, 8.0 * f + err, u);
  }

  /** Normalizing multiplies significand and error alike. */
  lemma NormalizeNear(x: real, f: int, e: int, err: int, k: nat)
    ensures Near(x, f, e, err) ==> Near(x, f * Pow(2, k), e - k, err * Pow(2, k))
    ensures StrictlyNear(x, f, e, err) ==> StrictlyNear(x, f * Pow(2, k), e - k, err * Pow(2, k))
  {
    hide Pow, Scaled;
    var p := Pow(2, k);
    ScaledShift(8 * f - err, k, e - 3);
    ScaledShift(8 * f + err, k, e - 3);
    assert (8 * f - err) * p == 8 * (f * p) - err * p;
    assert (8 * f + err) * p == 8 * (f * p) + err * p;
  }

  // ----- multiplication -----

  /** How far the product is off: both errors carried over, and the rounding of the product. */
  lemma ProductOffBy(x: real, f: uint64, e: int, a: real, y: real, g: uint64, d: int, b: real, z: real)
    requires OffBy(x, f, e, a) && OffBy(y, g, d, b) && z == x * y
    ensures var p, rho := Product(f, g), ((0x1_0000_0000_0000_0000 * Product(f, g) - f * g) as real);
      OffBy(z, p, e + d + 64, ((f as real) * b + (g as real) * a + a * b - rho) / 18446744073709551616.0)
  {
    hide Two, Product;
    var p := Product(f, g);
    TwoAdd(e, d);
    TwoAdd(e + d, 64);
    TwoTo64Real();
    RealProduct(f, g);
    RealProduct(0x1_0000_0000_0000_0000, p);
    ProductReals(f as real, a, Two(e), g as real, b, Two(d), z, p as real, Two(e + d + 64));
  }

  lemma TwoTo64Real()
    ensures Two(64) == 18446744073709551616.0
  {
    hide Pow;
    TwoNat(64);
    TwoTo64();
  }

  lemma ProductReals(f: real, a: real, u: real, g: real, b: real, v: real, z: real, p: real, w: real)
    requires z == ((f + a) * u) * ((g + b) * v) && w == 18446744073709551616.0 * (u * v)
    ensures var rho := 18446744073709551616.0 * p - f * g;
      z == (p + (f * b + g * a + a * b - rho) / 18446744073709551616.0) * w
  {
    var rho := 18446744073709551616.0 * p - f * g;
    var off := (f * b + g * a + a * b - rho) / 18446744073709551616.0;
    assert 18446744073709551616.0 * (p + off) == (f + a) * (g + b);
    assert (p + off) * w == (18446744073709551616.0 * (p + off)) * (u * v) by {
      RMulAssoc(p + off, 18446744073709551616.0, u * v);
    }
    FourFactors(f + a, u, g + b, v);
  }

  lemma AbsProduct(p: real, q: real, bigP: real, bigQ: real)
    requires 0.0 - bigP <= p <= bigP && 0.0 - bigQ <= q <= bigQ
    ensures 0.0 - bigP * bigQ <= p * q <= bigP * bigQ
  {
    assert bigQ >= 0.0;
    var r := if p >= 0.0 then p else 0.0 - p;
    RMulMono(r, bigP, bigQ);
    RMulMono(q, bigQ, r);
    RMulMono(0.0 - bigQ, q, r);
    assert q * r <= bigQ * r && (0.0 - bigQ) * r <= q * r && r * bigQ <= bigP * bigQ;
    assert (0.0 - bigQ) * r == 0.0 - r * bigQ;
    if p < 0.0 {
      assert p * q == 0.0 - q * r;
    }
  }

  lemma RoundingShare(f: uint64, g: uint64)
    ensures var rho := 0x1_0000_0000_0000_0000 * Product(f, g) - f * g;
      -0x8000_0000_0000_0000 <= rho <= 0x8000_0000_0000_0000
  {
    hide Product;
    ProductError(f, g);
  }

  /** Multiplying by an exact power costs half a unit. */
  lemma MultiplyByExact(x: real, f: uint64, e: int, err: nat, y: real, g: uint64, d: int, z: real)
    requires Near(x, f, e, err) && y == Scaled(g, d) && z == x * y
    ensures Near(z, Product(f, g), e + d + 64, err + 4)
  {
    hide Two, Product, Near, Scaled, OffBy;
    var a := NearIsOffBy(x, f, e, err);
    ScaledOff(y, g, d);
    ProductOffBy(x, f, e, a, y, g, d, 0.0, z);
    RoundingShare(f, g);
    var rho := ((0x1_0000_0000_0000_0000 * Product(f, g) - f * g) as real);
    ExactShare(f as real, g as real, a, err as real, rho);
    OffByIsNear(z, Product(f, g), e + d + 64, ((f as real) * 0.0 + (g as real) * a + a * 0.0 - rho) / 18446744073709551616.0, err + 4);
  }

  lemma ScaledOff(y: real, g: int, d: int)
    requires y == Scaled(g, d)
    ensures OffBy(y, g, d, 0.0)
  {
    hide Two;
  }

  lemma ExactShare(f: real, g: real, a: real, err: real, rho: real)
    requires 0.0 <= g <= 18446744073709551616.0 && 0.0 - err <= 8.0 * a <= err && err >= 0.0
    requires -9223372036854775808.0 <= rho <= 9223372036854775808.0
    ensures var off := (f * 0.0 + g * a + a * 0.0 - rho) / 18446744073709551616.0;
      0.0 - (err + 4.0) <= 8.0 * off <= err + 4.0
  {
    AbsProduct(g, a, 18446744073709551616.0, err / 8.0);
    assert f * 0.0 == 0.0 && a * 0.0 == 0.0;
  }

  /** Multiplying by a cached power costs half a unit for the power, half a unit for rounding, and at
      most an eighth for the product of two errors. */
  lemma MultiplyByCached(x: real, f: uint64, e: int, err: nat, y: real, g: uint64, d: int, z: real)
    requires Near(x, f, e, err) && f > 0 && err <= 40 && z == x * y
    requires Abs(Scaled(g, d) - y) < Two(d - 1)
    ensures StrictlyNear(z, Product(f, g), e + d + 64, err + 4 + (if err == 0 then 0 else 1) + 4)
  {
    hide Two, Product, Near, Scaled, StrictlyNear, OffBy;
    var a := NearIsOffBy(x, f, e, err);
    var b := HalfUnitOff(y, g, d);
    ProductOffBy(x, f, e, a, y, g, d, b, z);
    RoundingShare(f, g);
    var rho := ((0x1_0000_0000_0000_0000 * Product(f, g) - f * g) as real);
    var total := err + 4 + (if err == 0 then 0 else 1) + 4;
    CachedShare(f as real, g as real, a, b, err as real, rho, total as real);
    OffByIsNear(z, Product(f, g), e + d + 64, ((f as real) * b + (g as real) * a + a * b - rho) / 18446744073709551616.0, total);
  }

  lemma HalfUnitOff(y: real, g: int, d: int) returns (b: real)
    requires Abs(Scaled(g, d) - y) < Two(d - 1)
    ensures OffBy(y, g, d, b) && -0.5 < b < 0.5
  {
    hide RPow;
    TwoNext(d - 1);
    b := HalfUnitReal(y, g as real, Two(d));
  }

  lemma HalfUnitReal(y: real, g: real, u: real) returns (b: real)
    requires u > 0.0 && Abs(g * u - y) < u / 2.0
    ensures y == (g + b) * u && -0.5 < b < 0.5
  {
    b := y / u - g;
    assert y == (g + b) * u;
    RMulCancel(g + b, g + 0.5, u);
    RMulCancel(g - 0.5, g + b, u);
    assert (g + 0.5) * u == g * u + u / 2.0 && (g - 0.5) * u == g * u - u / 2.0;
  }

  lemma CachedShare(f: real, g: real, a: real, b: real, err: real, rho: real, total: real)
    requires 0.0 < f < 18446744073709551616.0 && 0.0 <= g <= 18446744073709551616.0
    requires 0.0 - err <= 8.0 * a <= err <= 40.0 && -0.5 < b < 0.5
    requires -9223372036854775808.0 <= rho <= 9223372036854775808.0
    requires total == err + 8.0 + (if err == 0.0 then 0.0 else 1.0) && (err == 0.0 || err >= 1.0)
    ensures var off := (f * b + g * a + a * b - rho) / 18446744073709551616.0;
      0.0 - total < 8.0 * off < total
  {
    AbsProduct(g, a, 18446744073709551616.0, err / 8.0);
    AbsProduct(a, b, err / 8.0, 0.5);
    RMulMono(b, 0.5, f);
    RMulMono(-0.5, b, f);
    assert err == 0.0 ==> a * b == 0.0;
    assert err / 8.0 * 0.5 <= 2.5;
  }
}
