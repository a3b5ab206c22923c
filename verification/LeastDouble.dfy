// The one place where half a unit per cached power is not enough to trust DiyFpStrtod: numbers just
// above 2^-1075, which round up to the least double, while their approximation may come out just
// below. What helps is that the table's entry for 10^-348 is known: with it no such number is
// approximated that low.
module LeastDouble {
  import opened MachineInts
  import opened Powers
  import opened RealPowers
  import opened WordPowers
  import opened DiyFps
  import opened NormalizedDoubles
  import opened CachedPowers
  import opened DecimalRounding
  import opened StrtodRounding
  import opened Ieee

  /** The significand of the table's first entry, 10^-348 over 2^-1220. */
  const LEAST_POWER := 0xFA8F_D5A0_081C_0288

  ghost predicate StartsAtLeastPower(table: seq<CachedPower>) {
    table != [] && table[0].significand == LEAST_POWER && table[0].binaryExponent == -1220
  }

  lemma LeastPowerBounds(table: seq<CachedPower>)
    requires IsPowerTable(table) && StartsAtLeastPower(table)
    ensures Scaled(0x1_F51F_AB40_1038_050F, -1221) < Ten(-348) < Scaled(0x1_F51F_AB40_1038_0511, -1221)
  {
    hide RPow, Ten;
    assert WithinHalfUnit(table[0].significand, table[0].binaryExponent, table[0].decimalExponent);
    TwoNext(-1221);
  }

  /** Comparing m * 10^(j - 348) with k * 2^-1221 through the known power. */
  lemma AboveLeast(table: seq<CachedPower>, m: nat, j: nat, p: nat, k: int, x: real)
    requires p == Pow(10, j) && IsPowerTable(table) && StartsAtLeastPower(table) && x <= DecimalAt(m, j - 348) && Scaled(k, -1221) < x
    ensures k < m * p * 0x1_F51F_AB40_1038_0511
  {
    hide RPow, Pow, Ten, Two, IsPowerTable, StartsAtLeastPower;
    LeastPowerBounds(table);
    DecimalAtShift(m, -348, j);
    var n := m * p;
    RMulMono(Ten(-348), Scaled(0x1_F51F_AB40_1038_0511, -1221), n as real);
    TimesScaled(n, 0x1_F51F_AB40_1038_0511, -1221);
    if k >= n * 0x1_F51F_AB40_1038_0511 {
      ScaledMono(n * 0x1_F51F_AB40_1038_0511, k, -1221);
    }
  }

  lemma BelowLeast(table: seq<CachedPower>, m: nat, j: nat, p: nat, k: int, x: real)
    requires p == Pow(10, j) && IsPowerTable(table) && StartsAtLeastPower(table) && x >= DecimalAt(m, j - 348) && Scaled(k, -1221) > x
    ensures k > m * p * 0x1_F51F_AB40_1038_050F
  {
    hide RPow, Pow, Ten, Two, IsPowerTable, StartsAtLeastPower;
    LeastPowerBounds(table);
    DecimalAtShift(m, -348, j);
    var n := m * p;
    RMulMono(Scaled(0x1_F51F_AB40_1038_050F, -1221), Ten(-348), n as real);
    TimesScaled(n, 0x1_F51F_AB40_1038_050F, -1221);
    if k <= n * 0x1_F51F_AB40_1038_050F {
      ScaledMono(k, n * 0x1_F51F_AB40_1038_050F, -1221);
    }
  }

  lemma TimesScaled(n: nat, c: int, e: int)
    ensures (n as real) * Scaled(c, e) == Scaled(n * c, e)
  {
    hide Two;
    RealProduct(n, c);
    RMulAssoc(n as real, c as real, Two(e));
  }

  /** What DiyFpStrtod has read: y in decimals of 10^exponent, rounded to s. */
  ghost predicate ReadAs(y: real, s: int, remaining: nat) {
    && 0 < s < 0x1_0000_0000_0000_0000
    && ((2 * s - 1) as real) <= 2.0 * y < ((2 * s + 1) as real)
    && (remaining == 0 ==> y == s as real)
    && (remaining > 0 ==> s > 1844674407370955160)
  }

  /** The exponent that normalizing, multiplying by 10^6 and by 10^-348, and normalizing again give. */
  ghost predicate ChainedFrom(s: int, e: int)
    requires 0 < s < 0x1_0000_0000_0000_0000
  {
    LeadingShifts(s);
    var f := Product(Product(s * Pow(2, Leading(s)), 0xF424_0000_0000_0000), LEAST_POWER);
    0 < f < 0x1_0000_0000_0000_0000 && e == -1136 - Leading(s) - Leading(f)
  }

  /** The approximation of a number above 2^-1075 is not below it. */
  lemma LeastDoubleIsSafe(table: seq<CachedPower>, x: real, y: real, s: int, remaining: nat, exponent: int,
      f: uint64, e: int, err: nat)
    requires IsPowerTable(table) && StartsAtLeastPower(table)
    requires ReadAs(y, s, remaining) && x == y * Ten(exponent) && exponent >= -348
    requires StrictlyNear(x, f, e, err) && err <= 190 && 64 + e == -1075
    requires exponent == -342 ==> ChainedFrom(s, e)
    ensures x <= Two(-1075)
  {
    hide RPow, Pow, Ten, Two, IsPowerTable, StartsAtLeastPower, DecimalAt, Scaled;
    if x > Two(-1075) {
      LeastUnits(x, f, e, err);
      if exponent <= -343 {
        TooFewDecimals(table, x, y, s, exponent);
      } else if exponent == -342 {
        NineteenDigits(table, x, y, s);
        ChainIsHigh(s, e);
      } else {
        FewDigits(table, x, y, s, remaining, exponent);
      }
    }
  }

  lemma LeastUnits(x: real, f: uint64, e: int, err: nat)
    requires x > Two(-1075) && StrictlyNear(x, f, e, err) && err <= 190 && 64 + e == -1075
    ensures Scaled(0x4_0000_0000_0000_0000_0000_0000_0000_0000_0000, -1221) < x
    ensures x < Scaled(0x1_0000_0000_0000_0018 * 0x4_0000_0000_0000_0000_0000, -1221)
  {
    hide RPow, Pow, Two, Scaled;
    TwoTo82();
    ScaledShift(1, 146, -1075);
    OneScaled(-1075);
    ScaledMono(8 * f + err, 8 * 0x1_0000_0000_0000_0018, -1142);
    ScaledUp(0x1_0000_0000_0000_0018, -1139);
    ScaledUp(2 * 0x1_0000_0000_0000_0018, -1140);
    ScaledUp(4 * 0x1_0000_0000_0000_0018, -1141);
    ScaledShift(0x1_0000_0000_0000_0018, 82, -1139);
  }

  lemma TwoTo82()
    ensures Pow(2, 82) == 0x4_0000_0000_0000_0000_0000
    ensures Pow(2, 146) == 0x4_0000_0000_0000_0000_0000_0000_0000_0000_0000
  {
    hide Pow;
    TwoTo64();
    PowAdd(2, 64, 18);
    PowAdd(2, 9, 9);
    NineBits();
    PowAdd(2, 64, 82);
  }

  lemma SmallTens()
    ensures Pow(10, 5) == 100000 && Pow(10, 6) == 1000000 && Pow(10, 7) == 10000000
  {
    hide Pow;
    PowNext(10, 5);
    PowNext(10, 6);
    FiveZeros();
  }

  lemma FiveZeros()
    ensures Pow(10, 5) == 100000
  {
  }

  /** 64 bits times 10^-343 stay below 2^-1075. */
  lemma TooFewDecimals(table: seq<CachedPower>, x: real, y: real, s: int, exponent: int)
    requires IsPowerTable(table) && StartsAtLeastPower(table)
    requires 0 < s < 0x1_0000_0000_0000_0000 && 2.0 * y < ((2 * s + 1) as real)
    requires x == y * Ten(exponent) && exponent <= -343 && x > 0.0
    ensures !(Scaled(0x4_0000_0000_0000_0000_0000_0000_0000_0000_0000, -1221) < x)
  {
    hide RPow, Pow, Ten, Two, IsPowerTable, StartsAtLeastPower, Scaled;
    if Scaled(0x4_0000_0000_0000_0000_0000_0000_0000_0000_0000, -1221) < x {
      assert y <= 18446744073709551616.0;
      if y <= 0.0 {
        RMulMono(y, 0.0, Ten(exponent));
      }
      TenMono(exponent, -343);
      RMulMono(Ten(exponent), Ten(-343), y);
      RMulMono(y, 18446744073709551616.0, Ten(-343));
      SmallTens();
      AboveLeast(table, 0x1_0000_0000_0000_0000, 5, 100000, 0x4_0000_0000_0000_0000_0000_0000_0000_0000_0000, x);
      assert false;
    }
  }

  /** With 342 decimals the 19 digits read are at least these. */
  lemma NineteenDigits(table: seq<CachedPower>, x: real, y: real, s: int)
    requires IsPowerTable(table) && StartsAtLeastPower(table)
    requires 0 < s && 2.0 * y < ((2 * s + 1) as real) && x == y * Ten(-342)
    requires Scaled(0x4_0000_0000_0000_0000_0000_0000_0000_0000_0000, -1221) < x
    ensures s >= 2470328229206232721
  {
    hide RPow, Pow, Ten, Two, IsPowerTable, StartsAtLeastPower, Scaled;
    RMulMono(2.0 * y, (2 * s + 1) as real, Ten(-342));
    assert 2.0 * x == 2.0 * y * Ten(-342);
    ScaledAdd(0x4_0000_0000_0000_0000_0000_0000_0000_0000_0000, 0x4_0000_0000_0000_0000_0000_0000_0000_0000_0000, -1221);
    SmallTens();
    AboveLeast(table, 2 * s + 1, 6, 1000000, 2 * 0x4_0000_0000_0000_0000_0000_0000_0000_0000_0000, 2.0 * x);
  }

  /** With fewer decimals the number is an integer multiple of 10^-341, and none of those lies in the
      gap. */
  lemma FewDigits(table: seq<CachedPower>, x: real, y: real, s: int, remaining: nat, exponent: int)
    requires IsPowerTable(table) && StartsAtLeastPower(table)
    requires ReadAs(y, s, remaining) && x == y * Ten(exponent) && exponent >= -341
    requires x < Scaled(0x1_0000_0000_0000_0018 * 0x4_0000_0000_0000_0000_0000, -1221)
    ensures !(Scaled(0x4_0000_0000_0000_0000_0000_0000_0000_0000_0000, -1221) < x)
  {
    hide RPow, Pow, Ten, Two, IsPowerTable, StartsAtLeastPower, Scaled, DecimalAt;
    SmallTens();
    if remaining > 0 {
      ManyDigits(y, s, exponent, x);
      BelowLeast(table, 1844674407370955160, 7, 10000000, 0x1_0000_0000_0000_0018 * 0x4_0000_0000_0000_0000_0000, x);
      assert false;
    } else {
      var m := Multiple(y, s, exponent, x);
      BelowLeast(table, m, 7, 10000000, 0x1_0000_0000_0000_0018 * 0x4_0000_0000_0000_0000_0000, x);
      if Scaled(0x4_0000_0000_0000_0000_0000_0000_0000_0000_0000, -1221) < x {
        AboveLeast(table, m, 7, 10000000, 0x4_0000_0000_0000_0000_0000_0000_0000_0000_0000, x);
        assert false;
      }
    }
  }

  lemma ManyDigits(y: real, s: int, exponent: int, x: real)
    requires s > 1844674407370955160 && ((2 * s - 1) as real) <= 2.0 * y && x == y * Ten(exponent) && exponent >= -341
    ensures x >= DecimalAt(1844674407370955160, -341)
  {
    hide RPow, Ten;
    TenMono(-341, exponent);
    RMulMono(1844674407370955160.0, y, Ten(exponent));
    RMulMono(Ten(-341), Ten(exponent), 1844674407370955160.0);
  }

  lemma Multiple(y: real, s: int, exponent: int, x: real) returns (m: nat)
    requires s > 0 && y == s as real && x == y * Ten(exponent) && exponent >= -341
    ensures x == DecimalAt(m, -341)
  {
    hide RPow, Ten, Pow;
    MulStrict(0, s, Pow(10, exponent + 341));
    m := s * Pow(10, exponent + 341);
    DecimalAtShift(s, -341, exponent + 341);
  }

  lemma ChainIsHigh(s: int, e: int)
    requires 2470328229206232721 <= s < 0x1_0000_0000_0000_0000 && ChainedFrom(s, e)
    ensures 64 + e != -1075
  {
    hide Pow, Leading, Product;
    LeadingShifts(s);
    var k := Leading(s);
    SmallShifts(s, k);
    ChainShifts(s * Pow(2, k));
  }

  /** The second normalization shifts at most once, and not at all if the first had to shift twice. */
  lemma ChainShifts(f: uint64)
    requires f >= 0x8000_0000_0000_0000
    ensures var p := Product(Product(f, 0xF424_0000_0000_0000), LEAST_POWER);
      && 0 < p < 0x1_0000_0000_0000_0000 && Leading(p) <= 1 && (f >= 9881312916824930884 ==> Leading(p) == 0)
  {
    hide Leading, Product;
    var f1: uint64 := ProductAtMost(f, 0xF424_0000_0000_0000);
    var f2: uint64 := ProductAtMost(f1, LEAST_POWER);
    TopProducts();
    ProductMono(0x8000_0000_0000_0000, f, 0xF424_0000_0000_0000);
    ProductMono(8796093022208000000, f1, LEAST_POWER);
    AtMostOneShift(f2);
    if f >= 9881312916824930884 {
      ProductMono(9881312916824930884, f, 0xF424_0000_0000_0000);
      ProductMono(9423554341149264225, f1, LEAST_POWER);
      NoShift(f2);
    }
  }

  lemma ProductAtMost(f: uint64, g: uint64) returns (p: uint64)
    ensures p == Product(f, g)
  {
    hide Product;
    ProductFits(f, g);
    p := Product(f, g);
  }

  /** The two smallest inputs, multiplied out: the first lands exactly on 2^63. */
  lemma TopProducts()
    ensures Product(9881312916824930884, 0xF424_0000_0000_0000) == 9423554341149264225
    ensures Product(9423554341149264225, LEAST_POWER) == 0x8000_0000_0000_0000
    ensures Product(0x8000_0000_0000_0000, 0xF424_0000_0000_0000) == 8796093022208000000
    ensures Product(8796093022208000000, LEAST_POWER) >= 0x4000_0000_0000_0000
  {
  }

  lemma SmallShifts(s: int, k: int)
    requires 2470328229206232721 <= s < 0x1_0000_0000_0000_0000 && k == Leading(s)
    ensures k <= 2 && (k == 2 ==> s * Pow(2, k) >= 9881312916824930884)
  {
    hide Pow, Leading;
    AtMostTwoShifts(s);
    PowersUpToFour();
  }

  lemma PowersUpToFour()
    ensures Pow(2, 0) == 1 && Pow(2, 1) == 2 && Pow(2, 2) == 4
  {
  }

  lemma AtMostTwoShifts(s: int)
    requires 2470328229206232721 <= s < 0x1_0000_0000_0000_0000
    ensures Leading(s) <= 2
  {
    hide Pow;
    if s < 0x8000_0000_0000_0000 {
      if 2 * s < 0x8000_0000_0000_0000 {
        NoShift(4 * s);
      } else {
        NoShift(2 * s);
      }
    }
  }

  lemma AtMostOneShift(f: nat)
    requires 0x4000_0000_0000_0000 <= f < 0x1_0000_0000_0000_0000
    ensures Leading(f) <= 1
  {
    if f < 0x8000_0000_0000_0000 {
      NoShift(2 * f);
    }
  }
}
