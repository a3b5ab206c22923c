// The first 92 binary digits of the powers of ten, from each fourth power to the next. They decide how close
// below a power a double can be, and how good the cached powers are.
module PowerDigits {
  import opened Powers
  import opened RealPowers
  import opened Ieee
  import opened NormalizedDoubles
  import opened DigitGens
  import opened CachedPowers
  import opened PowerNeighbours

  function Size(m: int): nat { if m < 0 then -m else m }

  /** a units of 2^k are at most 10^m, and short of it by at most |m| parts in 2^91. */
  predicate Starts(m: int, a: nat, k: int) {
    && Scaled(a, k) <= Ten(m)
    && Ten(m) * 2475880078570760549798248448.0 <= Scaled(a, k) * (2475880078570760549798248448.0 + Size(m) as real)
  }

  /** The binary logarithm of 10^m, rounded down: 217706 / 2^16 is close enough above that of ten here. */
  function BinaryLog(m: int): int { 217706 * m / 0x1_0000 }

  /** The first 92 binary digits of 10^m. */
  predicate Mantissa(m: int, a: nat) {
    && 0x800_0000_0000_0000_0000_0000 <= a < 0x1000_0000_0000_0000_0000_0000
    && Starts(m, a, BinaryLog(m) - 91)
  }

  /** The numbers from c to c + slack are above q times the grid by more than one part in 2^62 - 1, and not
      above the next grid point. */
  predicate Rest(c: nat, slack: nat, grid: nat, q: nat) {
    && q >= 0x10_0000_0000_0000 && c + slack <= grid * (q + 1)
    && (c - grid * q) * 0x3FFF_FFFF_FFFF_FFFF >= c + slack
  }

  /** What is left of a, 5a, 25a and 125a over grids of 2^39, 2^41, 2^43 and 2^45 keeps the grid point below
      away from the power. */
  predicate Rests(a: nat, q0: nat, q1: nat, q2: nat, q3: nat) {
    && Rest(a, 800, 0x80_0000_0000, q0) && Rest(5 * a, 4000, 0x200_0000_0000, q1)
    && Rest(25 * a, 20000, 0x800_0000_0000, q2) && Rest(125 * a, 100000, 0x2000_0000_0000, q3)
  }

  /** At the next four powers, the leading digits are those of a, 5a, 25a and 125a. */
  lemma FourPowers(m: int, a: nat, q0: nat, q1: nat, q2: nat, q3: nat)
    requires Mantissa(m, a) && -400 <= m <= 400
    requires Rests(a, q0, q1, q2, q3)
    ensures forall n :: m <= n < m + 4 ==> NoneAlmostAt(n)
  {
    hide NoneAlmostAt, Starts, Pow, Ten, Scaled;
    var k := BinaryLog(m) - 91;
    GridSizes();
    Slack(m, a, k);
    FivesUp(m, a, k);
    FivesUp(m, a + 800, k);
    RestKeepsAway(m, k, a, 800, 39, q0);
    RestKeepsAway(m + 1, k + 1, 5 * a, 4000, 41, q1);
    RestKeepsAway(m + 2, k + 2, 25 * a, 20000, 43, q2);
    RestKeepsAway(m + 3, k + 3, 125 * a, 100000, 45, q3);
  }

  lemma GridSizes()
    ensures Pow(2, 39) == 0x80_0000_0000 && Pow(2, 41) == 0x200_0000_0000 && Pow(2, 43) == 0x800_0000_0000 && Pow(2, 45) == 0x2000_0000_0000
    ensures Pow(2, 9) == 512 && Pow(2, 10) == 1024
  {
    hide Pow;
    SmallPowersOfTwo();
    PowAdd(2, 9, 7);
    PowAdd(2, 16, 9);
    PowAdd(2, 25, 16);
    PowAdd(2, 10, 10);
    PowAdd(2, 20, 20);
    PowAdd(2, 40, 3);
    PowAdd(2, 20, 9);
    PowAdd(2, 29, 10);
    PowAdd(2, 25, 20);
  }

  lemma Slack(m: int, a: nat, k: int)
    requires Starts(m, a, k) && -400 <= m <= 400 && a < 0x1000_0000_0000_0000_0000_0000
    ensures Scaled(a, k) <= Ten(m) <= Scaled(a + 800, k)
  {
    hide Ten, Two;
    var x, n := Scaled(a, k), Size(m) as real;
    assert n <= 400.0;
    UnitsBetween(a as real, 0.0, 4951760157141521099596496896.0, Two(k), x);
    RMulMono(n, 400.0, x);
    ScaledAdd(a, 800, k);
    assert Scaled(800, k) == 800.0 * Two(k);
    SlackSum(Ten(m), x, n, n * x, Two(k));
  }

  lemma SlackSum(power: real, x: real, n: real, xn: real, unit: real)
    requires xn == n * x && xn <= 400.0 * x && x <= 4951760157141521099596496896.0 * unit
    requires power * 2475880078570760549798248448.0 <= x * (2475880078570760549798248448.0 + n)
    ensures power <= x + 800.0 * unit
  {
    assert x * (2475880078570760549798248448.0 + n) == x * 2475880078570760549798248448.0 + xn;
  }

  lemma FivesUp(m: int, a: nat, k: int)
    ensures Scaled(5 * a, k + 1) == 10.0 * Scaled(a, k) && Scaled(25 * a, k + 2) == 100.0 * Scaled(a, k)
    ensures Scaled(125 * a, k + 3) == 1000.0 * Scaled(a, k) && Scaled(625 * a, k + 4) == 10000.0 * Scaled(a, k)
    ensures Ten(m + 1) == 10.0 * Ten(m) && Ten(m + 2) == 100.0 * Ten(m)
    ensures Ten(m + 3) == 1000.0 * Ten(m) && Ten(m + 4) == 10000.0 * Ten(m)
  {
    hide Ten, Scaled;
    FiveUp(a, k);
    FiveUp(5 * a, k + 1);
    FiveUp(25 * a, k + 2);
    FiveUp(125 * a, k + 3);
    TenNext(m);
    TenNext(m + 1);
    TenNext(m + 2);
    TenNext(m + 3);
  }

  // ----- four powers further -----

  /** Cutting the digits by less than a unit again, four powers further, adds less than four parts in 2^91. */
  lemma Recut(m: int, n: int, power: real, digits: real, b: nat, k: int)
    requires Size(n) == Size(m) + 4 && Size(m) <= 400 && 0x800_0000_0000_0000_0000_0000 <= b
    requires power == Ten(n) && digits <= power
    requires power * 2475880078570760549798248448.0 <= digits * (2475880078570760549798248448.0 + Size(m) as real)
    requires Scaled(b, k) <= digits <= Scaled(b + 1, k)
    ensures Starts(n, b, k)
  {
    hide Ten, Two, Size;
    RMulMono(2475880078570760549798248448.0, b as real, Two(k));
    ScaledAdd(b, 1, k);
    assert Scaled(1, k) == Two(k);
    RecutSum(power, digits, Scaled(b, k), Two(k), Size(m) as real);
  }

  lemma RecutSum(power: real, digits: real, x: real, unit: real, n: real)
    requires 0.0 <= n <= 400.0 && unit > 0.0 && 2475880078570760549798248448.0 * unit <= x <= digits <= x + unit
    requires power * 2475880078570760549798248448.0 <= digits * (2475880078570760549798248448.0 + n)
    ensures power * 2475880078570760549798248448.0 <= x * (2475880078570760549798248448.0 + (n + 4.0))
  {
    RMulMono(digits, x + unit, 2475880078570760549798248448.0 + n);
    RMulMono(n, 400.0, unit);
    assert (x + unit) * (2475880078570760549798248448.0 + n)
      == x * (2475880078570760549798248448.0 + n) + unit * 2475880078570760549798248448.0 + n * unit;
    assert x * (2475880078570760549798248448.0 + (n + 4.0)) == x * (2475880078570760549798248448.0 + n) + 4.0 * x;
  }

  lemma RecutUp(m: int, a: nat, b: nat, d: nat)
    requires Mantissa(m, a) && 0 <= m <= 400 && BinaryLog(m + 4) == BinaryLog(m) + 4 + d
    requires 0x800_0000_0000_0000_0000_0000 <= b < 0x1000_0000_0000_0000_0000_0000
    requires b * Pow(2, d) <= 625 * a < (b + 1) * Pow(2, d)
    ensures Mantissa(m + 4, b)
  {
    hide Pow, Ten, Scaled;
    var k := BinaryLog(m) - 91;
    FivesUp(m, a, k);
    ScaledShift(b, d, k + 4 + d);
    ScaledShift(b + 1, d, k + 4 + d);
    ScaledMono(b * Pow(2, d), 625 * a, k + 4);
    ScaledMono(625 * a, (b + 1) * Pow(2, d), k + 4);
    TimesBoth(Ten(m), Scaled(a, k), 10000.0, 2475880078570760549798248448.0, Size(m) as real);
    Recut(m, m + 4, Ten(m + 4), Scaled(625 * a, k + 4), b, k + 4 + d);
  }

  lemma TimesBoth(power: real, digits: real, s: real, whole: real, n: real)
    requires digits <= power && power * whole <= digits * (whole + n) && s > 0.0
    ensures s * digits <= s * power && (s * power) * whole <= (s * digits) * (whole + n)
  {
    RMulMono(digits, power, s);
    RMulMono(power * whole, digits * (whole + n), s);
    RMulAssoc(s, power, whole);
    RMulAssoc(s, digits, whole + n);
  }

  lemma RecutDown(m: int, a: nat, b: nat, d: nat)
    requires Mantissa(m, a) && -400 <= m <= 0 && BinaryLog(m) == BinaryLog(m - 4) + 4 + d
    requires 0x800_0000_0000_0000_0000_0000 <= b < 0x1000_0000_0000_0000_0000_0000
    requires 625 * b <= a * Pow(2, d) < 625 * (b + 1)
    ensures Mantissa(m - 4, b)
  {
    hide Pow, Ten, Scaled;
    var k := BinaryLog(m) - 91;
    ScaledShift(a, d, k);
    FivesUp(m - 4, b, k - d - 4);
    FivesUp(m - 4, b + 1, k - d - 4);
    ScaledMono(625 * b, a * Pow(2, d), k - d);
    ScaledMono(a * Pow(2, d), 625 * (b + 1), k - d);
    TimesBoth(Ten(m), Scaled(a, k), 0.0001, 2475880078570760549798248448.0, Size(m) as real);
    Recut(m, m - 4, Ten(m - 4), 0.0001 * Scaled(a, k), b, k - d - 4);
  }

  /** From 10^24 on. */
  ghost predicate NoneUpTo(m: int) { forall n :: 24 <= n < m ==> NoneAlmostAt(n) }

  ghost predicate NoneDownTo(m: int) { forall n :: m <= n < 0 ==> NoneAlmostAt(n) }

  /** The conditions of Rests are written out here: they are decided for the numbers of each call below. */
  lemma FourUp(m: int, a: nat, q0: nat, q1: nat, q2: nat, q3: nat, b: nat) returns (next: nat)
    requires Mantissa(m, a) && NoneUpTo(m) && 24 <= m <= 400
    requires q0 >= 0x10_0000_0000_0000 && q1 >= 0x10_0000_0000_0000 && q2 >= 0x10_0000_0000_0000 && q3 >= 0x10_0000_0000_0000
    requires a + 800 <= 0x80_0000_0000 * (q0 + 1) && (a - 0x80_0000_0000 * q0) * 0x3FFF_FFFF_FFFF_FFFF >= a + 800
    requires 5 * a + 4000 <= 0x200_0000_0000 * (q1 + 1) && (5 * a - 0x200_0000_0000 * q1) * 0x3FFF_FFFF_FFFF_FFFF >= 5 * a + 4000
    requires 25 * a + 20000 <= 0x800_0000_0000 * (q2 + 1) && (25 * a - 0x800_0000_0000 * q2) * 0x3FFF_FFFF_FFFF_FFFF >= 25 * a + 20000
    requires 125 * a + 100000 <= 0x2000_0000_0000 * (q3 + 1) && (125 * a - 0x2000_0000_0000 * q3) * 0x3FFF_FFFF_FFFF_FFFF >= 125 * a + 100000
    requires 0x800_0000_0000_0000_0000_0000 <= b < 0x1000_0000_0000_0000_0000_0000
    requires var d := 217706 * (m + 4) / 0x1_0000 - 217706 * m / 0x1_0000;
      (d == 13 && 0 <= 625 * a - 512 * b < 512) || (d == 14 && 0 <= 625 * a - 1024 * b < 1024)
    ensures next == b && Mantissa(m + 4, b) && NoneUpTo(m + 4)
  {
    hide Mantissa, NoneAlmostAt, Pow;
    next := b;
    FourPowers(m, a, q0, q1, q2, q3);
    GridSizes();
    RecutUp(m, a, b, BinaryLog(m + 4) - BinaryLog(m) - 4);
  }

  lemma FourDown(m: int, a: nat, q0: nat, q1: nat, q2: nat, q3: nat, b: nat) returns (next: nat)
    requires Mantissa(m + 4, a) && NoneDownTo(m + 4) && -400 <= m <= -4
    requires q0 >= 0x10_0000_0000_0000 && q1 >= 0x10_0000_0000_0000 && q2 >= 0x10_0000_0000_0000 && q3 >= 0x10_0000_0000_0000
    requires b + 800 <= 0x80_0000_0000 * (q0 + 1) && (b - 0x80_0000_0000 * q0) * 0x3FFF_FFFF_FFFF_FFFF >= b + 800
    requires 5 * b + 4000 <= 0x200_0000_0000 * (q1 + 1) && (5 * b - 0x200_0000_0000 * q1) * 0x3FFF_FFFF_FFFF_FFFF >= 5 * b + 4000
    requires 25 * b + 20000 <= 0x800_0000_0000 * (q2 + 1) && (25 * b - 0x800_0000_0000 * q2) * 0x3FFF_FFFF_FFFF_FFFF >= 25 * b + 20000
    requires 125 * b + 100000 <= 0x2000_0000_0000 * (q3 + 1) && (125 * b - 0x2000_0000_0000 * q3) * 0x3FFF_FFFF_FFFF_FFFF >= 125 * b + 100000
    requires 0x800_0000_0000_0000_0000_0000 <= b < 0x1000_0000_0000_0000_0000_0000
    requires var d := 217706 * (m + 4) / 0x1_0000 - 217706 * m / 0x1_0000;
      (d == 13 && 0 <= 512 * a - 625 * b < 625) || (d == 14 && 0 <= 1024 * a - 625 * b < 625)
    ensures next == b && Mantissa(m, b) && NoneDownTo(m)
  {
    hide Mantissa, NoneAlmostAt, Pow;
    next := b;
    GridSizes();
    RecutDown(m + 4, a, b, BinaryLog(m + 4) - BinaryLog(m) - 4);
    FourPowers(m, b, q0, q1, q2, q3);
  }

  lemma StartUp()
    ensures Mantissa(24, 4096000000000000000000000000) && NoneUpTo(24)
  {
    hide Pow, Two, Ten, Scaled;
    TwentyTwoFives();
    PowNext(5, 22);
    PowNext(5, 23);
    GridSizes();
    PowAdd(2, 10, 10);
    PowAdd(2, 20, 16);
    PowAdd(2, 9, 7);
    SmallPowersOfTwo();
    FivesExact(24);
    ScaledShift(Pow(5, 24), 36, 24);
    ExactStart(24, 4096000000000000000000000000, -12);
  }

  lemma ExactStart(m: int, a: nat, k: int)
    requires Scaled(a, k) == Ten(m)
    ensures Starts(m, a, k)
  {
    hide Ten, Two;
    UnitsBetween(Size(m) as real, 0.0, Size(m) as real, Ten(m), (Size(m) as real) * Ten(m));
  }

  lemma StartDown()
    ensures Mantissa(0, 2475880078570760549798248448) && NoneDownTo(0)
  {
    hide Pow, Two, Ten, Scaled;
    GridSizes();
    PowAdd(2, 45, 45);
    PowNext(2, 90);
    FivesExact(0);
    PowNone(5);
    ScaledShift(1, 91, 0);
    ExactStart(0, 2475880078570760549798248448, -91);
  }

  // ----- the cached powers -----

  ghost predicate IsClose(power: CachedPower, m: int) {
    power.decimalExponent == m && WithinHalfUnit(power.significand, power.binaryExponent, m)
  }

  /** The entries of a part of the table that starts with 10^m. */
  ghost predicate AreClose(part: seq<CachedPower>, m: int, low: int, high: int) {
    forall i :: 0 <= i < |part| && low <= i < high ==> IsClose(part[i], m + 8 * i)
  }

  /** One entry more, at either end of those done. */
  lemma OneMoreClose(part: seq<CachedPower>, m: int, low: int, high: int, i: int, a: nat)
    requires AreClose(part, m, low, high) && low - 1 <= i <= high && 0 <= i < |part|
    requires Mantissa(m + 8 * i, a) && -400 <= m + 8 * i <= 400
    requires part[i].decimalExponent == m + 8 * i
    requires part[i].binaryExponent == 217706 * (m + 8 * i) / 0x1_0000 - 63
    requires 0x8000_0000_0000_0000 <= part[i].significand
    requires a + 800 - 0x800_0000 < part[i].significand * 0x1000_0000 < a + 0x800_0000
    ensures AreClose(part, m, if i < low then i else low, if i == high then i + 1 else high)
  {
    hide WithinHalfUnit, Mantissa;
    HalfUnit(m + 8 * i, a, part[i].significand);
  }

  lemma HalfUnit(m: int, a: nat, c: nat)
    requires Mantissa(m, a) && -400 <= m <= 400
    requires 0x8000_0000_0000_0000 <= c < 0x1_0000_0000_0000_0000
    requires a + 800 - 0x800_0000 < c * 0x1000_0000 < a + 0x800_0000
    ensures WithinHalfUnit(c, BinaryLog(m) - 63, m)
  {
    hide Pow, Ten, Scaled, Starts, BinaryLog;
    var k := BinaryLog(m) - 91;
    Slack(m, a, k);
    SmallPowersOfTwo();
    PowAdd(2, 10, 10);
    PowAdd(2, 9, 9);
    PowAdd(2, 18, 9);
    PowNext(2, 27);
    ScaledShift(c, 28, k + 28);
    ScaledMono(a + 800, c * 0x1000_0000 + 0x800_0000, k);
    ScaledMono(c * 0x1000_0000, a + 0x800_0000, k);
    ScaledAdd(c * 0x1000_0000, 0x800_0000, k);
    ScaledAdd(a, 0x800_0000, k);
    ScaledShift(1, 27, k + 27);
    OneScaled(k + 27);
  }
}
