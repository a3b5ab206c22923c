// FastFixedDtoa: exact fixed-point digits of doubles that are not too large (fixed-dtoa.cc).
module FixedDtoas {
  import opened MachineInts
  import opened Powers
  import opened RealPowers
  import opened Decimals
  import opened DecimalRounding
  import opened UInt128s
  import opened DigitFilling
  import opened DtoaBounds
  import opened NormalizedDoubles
  import opened DtoaModes
  import opened Ieee

  /** After i digits of the fraction f / 2^p after the integer a: the digits so far are n, and the
      rest is a fraction of 2^(p - i). Multiplying by five moves the point one bit instead of four. */
  ghost predicate FractionState(a: int, f: int, p: nat, n: int, i: nat, rest: int) {
    && i <= p && 0 <= rest < Pow(2, p - i)
    && f * Pow(5, i) == (n - a * Pow(10, i)) * Pow(2, p - i) + rest
  }

  lemma StartFraction(a: int, f: int, p: nat)
    requires 0 <= f < Pow(2, p)
    ensures FractionState(a, f, p, a, 0, f)
  {
  }

  lemma NextFraction(a: int, f: int, p: nat, n: int, i: nat, rest: int, digit: int, left: int)
    requires FractionState(a, f, p, n, i, rest) && i < p
    requires 5 * rest == digit * Pow(2, p - i - 1) + left && 0 <= left < Pow(2, p - i - 1) && digit >= 0
    ensures digit <= 9 && FractionState(a, f, p, 10 * n + digit, i + 1, left)
  {
    hide Pow;
    var q, m := Pow(2, p - i - 1), n - a * Pow(10, i);
    PowNext(2, p - i - 1);
    PowNext(5, i);
    PowNext(10, i);
    if digit >= 10 {
      MulMono(10, digit, q);
    }
    MulAssoc(5, f, Pow(5, i));
    MulAssoc(10, a, Pow(10, i));
    MulAssoc(10, m, q);
    Distribute(q, 10 * m, digit);
    assert 5 * (m * (2 * q) + rest) == 10 * m * q + digit * q + left by {
      MulAssoc(m, 2, q);
    }
  }

  /** The digits and the rest denote the number. */
  lemma FractionIsExact(a: int, f: int, p: nat, n: int, i: nat, rest: int)
    requires FractionState(a, f, p, n, i, rest)
    ensures (a as real) + Scaled(f, 0 - p) == ((n as real) + Scaled(rest, i - p)) * Ten(0 - i)
  {
    hide Pow, RPow;
    var q, m := Pow(2, p - i), n - a * Pow(10, i);
    var two, ten := Two(i - p), Ten(0 - i);
    TwoNat(p - i);
    TwoNat(i);
    TenNat(i);
    TwoAdd(0 - p, i);
    PowTen(i);
    RealProduct(f, Pow(5, i));
    RealProduct(m, q);
    RealProduct(a, Pow(10, i));
    RealProduct(Pow(5, i), Pow(2, i));
    FractionReals(a as real, f as real, n as real, rest as real, m as real, q as real, Pow(5, i) as real, Pow(2, i) as real,
      Pow(10, i) as real, two, ten, Two(0 - p));
  }

  lemma FractionReals(a: real, f: real, n: real, rest: real, m: real, q: real, five: real, two: real, ten: real,
      twoDown: real, tenDown: real, twoAll: real)
    requires f * five == m * q + rest && m == n - a * ten && ten == five * two
    requires q * twoDown == 1.0 && ten * tenDown == 1.0 && twoDown == twoAll * two
    ensures a + f * twoAll == (n + rest * twoDown) * tenDown
  {
    assert f * five * twoDown == m + rest * twoDown by {
      assert (m * q + rest) * twoDown == m * (q * twoDown) + rest * twoDown;
    }
    assert f * five * twoDown == f * twoAll * ten by {
      assert f * five * (twoAll * two) == f * twoAll * (five * two);
    }
    assert (f * twoAll * ten) * tenDown == f * twoAll * (ten * tenDown);
    assert (a * ten) * tenDown == a * (ten * tenDown);
    assert n + rest * twoDown == a * ten + f * twoAll * ten;
    assert (a * ten + f * twoAll * ten) * tenDown == (a * ten) * tenDown + (f * twoAll * ten) * tenDown;
  }

  /** Looking at the first bit of the rest rounds half up, at the last place asked for or after the
      last digit that is not zero. */
  lemma FractionIsRounded(a: int, f: int, p: nat, n: int, i: nat, rest: int, x: int, places: nat)
    requires FractionState(a, f, p, n, i, rest) && i <= places && (rest != 0 ==> i == places)
    requires x == if 2 * rest >= Pow(2, p - i) then n + 1 else n
    ensures RoundedHalfUp((a as real) + Scaled(f, 0 - p), DecimalAt(x, 0 - i), Ten(0 - places))
  {
    hide Pow, Ten, Two, RoundedHalfUp;
    FractionIsExact(a, f, p, n, i, rest);
    TwoNat(p - i);
    var part := Scaled(rest, i - p);
    HalfPart(rest, Pow(2, p - i), Two(i - p), part);
    RoundedPart(n as real, part, x as real, Ten(0 - i), (a as real) + Scaled(f, 0 - p), DecimalAt(x, 0 - i), Ten(0 - places));
  }

  lemma HalfPart(rest: int, q: nat, down: real, part: real)
    requires 0 <= rest < q && (q as real) * down == 1.0 && down > 0.0 && part == (rest as real) * down
    ensures 0.0 <= part < 1.0
    ensures 2 * rest >= q <==> part >= 0.5
    ensures rest == 0 ==> part == 0.0
  {
    HalfReal(rest as real, q as real, down, part);
  }

  lemma HalfReal(r: real, q: real, down: real, part: real)
    requires 0.0 <= r < q && q * down == 1.0 && down > 0.0 && part == r * down
    ensures 0.0 <= part < 1.0
    ensures 2.0 * r >= q <==> part >= 0.5
    ensures r == 0.0 ==> part == 0.0
  {
    assert (q - r) * down == 1.0 - part && (2.0 * r - q) * down == 2.0 * part - 1.0;
    assert (q - r) * down > 0.0;
    if 2.0 * r >= q {
      assert (2.0 * r - q) * down >= 0.0;
    } else {
      assert (q - 2.0 * r) * down > 0.0;
    }
  }

  lemma HalfUnitApart(y: real, x: real, unit: real, v: real, xu: real)
    requires x - 0.5 <= y < x + 0.5 && unit > 0.0 && v == y * unit && xu == x * unit
    ensures RoundedHalfUp(v, xu, unit)
  {
    var above, below := y - (x - 0.5), x + 0.5 - y;
    assert above * unit == v - xu + unit / 2.0;
    assert below * unit == xu + unit / 2.0 - v;
    assert above * unit >= 0.0 && below * unit > 0.0;
  }

  lemma RoundedPart(n: real, part: real, x: real, unit: real, v: real, xu: real, place: real)
    requires 0.0 <= part < 1.0 && unit > 0.0 && x == (if part >= 0.5 then n + 1.0 else n)
    requires v == (n + part) * unit && xu == x * unit && place > 0.0 && (part != 0.0 ==> place == unit)
    ensures RoundedHalfUp(v, xu, place)
  {
    if part == 0.0 {
      assert n + part == x;
    } else {
      HalfUnitApart(n + part, x, unit, v, xu);
    }
  }

  /** What FillFractionals has to leave behind. */
  ghost predicate Filled(s: seq<char>, point: int, v: real, places: nat) {
    && AreDigits(s) && point - |s| + places >= 0
    && RoundedHalfUp(v, Denoted(s, point), Ten(0 - places))
  }

  method FillFractionals(fractionals: uint64, exponent: int, fractionalCount: nat, buffer: array<char>, length: nat, decimalPoint: int)
    returns (newLength: nat, newPoint: int)
    requires -128 <= exponent <= 0 && fractionals < 0x100_0000_0000_0000 && fractionals < Pow(2, -exponent)
    requires fractionalCount <= 20 && length + fractionalCount < buffer.Length
    requires AreDigits(buffer[..length]) && decimalPoint == length
    modifies buffer
    ensures newLength <= length + fractionalCount + 1 && newLength <= buffer.Length
    ensures Filled(buffer[..newLength], newPoint, (old(DecimalValue(buffer[..length])) as real) + Scaled(fractionals, exponent), fractionalCount)
  {
    hide Pow, DecimalValue, FractionState;
    ghost var a := DecimalValue(buffer[..length]);
    var i;
    ghost var rest;
    var up;
    if -exponent <= 64 {
      newLength, up, i, rest := FillFractionals64(fractionals, -exponent, fractionalCount, buffer, length);
      FractionIsRounded(a, fractionals, -exponent, DecimalValue(buffer[..newLength]), i, rest,
        DecimalValue(buffer[..newLength]) + (if up then 1 else 0), fractionalCount);
    } else {
      newLength, up, i, rest := FillFractionals128(fractionals, -exponent, fractionalCount, buffer, length);
      FractionIsRounded(a, fractionals * Pow(2, 128 + exponent), 128, DecimalValue(buffer[..newLength]), i, rest,
        DecimalValue(buffer[..newLength]) + (if up then 1 else 0), fractionalCount);
      ScaledShift(fractionals, 128 + exponent, exponent);
    }
    newPoint := decimalPoint;
    if up {
      newLength, newPoint := RoundUp(buffer, newLength, newPoint);
    }
  }

  /** Five times what is left still fits 64 bits: the first three times because only 56 bits are
      used, and later because the point has come down to bit 61. */
  ghost predicate FitsTimesFive(rest: int, p: nat, i: nat) {
    && (i == 0 ==> rest < 0x100_0000_0000_0000)
    && (i == 1 ==> rest < 5 * 0x100_0000_0000_0000)
    && (i == 2 ==> rest < 25 * 0x100_0000_0000_0000)
    && p <= 64
  }

  lemma TimesFiveFits(rest: int, p: nat, i: nat)
    requires FitsTimesFive(rest, p, i) && i < p && 0 <= rest < Pow(2, p - i)
    ensures 5 * rest < 0x1_0000_0000_0000_0000
  {
    hide Pow;
    if i >= 3 {
      PowMono(2, p - i, 61);
      TwoTo61();
    }
  }

  lemma TwoTo61()
    ensures Pow(2, 61) == 0x2000_0000_0000_0000 && Pow(2, 56) == 0x100_0000_0000_0000 && Pow(2, 64) == 0x1_0000_0000_0000_0000
  {
    hide Pow;
    TwoTo28();
    PowAdd(2, 28, 28);
    PowAdd(2, 56, 5);
    PowAdd(2, 56, 8);
    FiveBits();
  }

  lemma FiveBits()
    ensures Pow(2, 5) == 32 && Pow(2, 8) == 256
  {
  }

  /** The rest stays odd or even until the point is down. */
  lemma RestParity(a: int, f: int, p: nat, n: int, i: nat, rest: int)
    requires FractionState(a, f, p, n, i, rest) && i < p
    ensures rest % 2 == f % 2
    ensures i + 1 == p && rest > 0 ==> rest == 1
  {
    hide Pow;
    FivePowerIsOdd(i);
    PowNext(2, p - i - 1);
    PowNone(2);
    MulAssoc(n - a * Pow(10, i), 2, Pow(2, p - i - 1));
    OddFactor(f, Pow(5, i));
  }

  lemma OddFactor(f: int, odd: int)
    requires odd % 2 == 1
    ensures f * odd % 2 == f % 2
  {
    var k := odd / 2;
    assert f * odd == 2 * (f * k) + f;
  }

  /** The point comes all the way down, and the source shifts by -1, exactly for an odd fraction with at
      least as many places asked for as it has bits, and for no fraction at all. */
  predicate PointReachesZero(fractionals: nat, point: nat, fractionalCount: nat) {
    point == 0 || (fractionals % 2 == 1 && fractionalCount >= point)
  }

  /** 2251799813685248.5 with one place does. */
  lemma ShiftsByMinusOne()
    ensures var d := 0x4320_0000_0000_0001;
      && 0 < d < INFINITY && Significand(d) == 4503599627370497 && Exponent(d) == -1
      && Value(d) == 2251799813685248.5 && PointReachesZero(Significand(d) % Pow(2, 1), 1, 1)
  {
    TwoNext(-1);
  }

  method FillFractionals64(fractionalsIn: uint64, pointIn: nat, fractionalCount: nat, buffer: array<char>, length: nat)
    returns (newLength: nat, up: bool, i: nat, ghost rest: int)
    requires pointIn <= 64 && fractionalsIn < 0x100_0000_0000_0000 && fractionalsIn < Pow(2, pointIn)
    requires length + fractionalCount < buffer.Length && AreDigits(buffer[..length])
    modifies buffer
    ensures i <= fractionalCount && newLength == length + i && AreDigits(buffer[..newLength]) && (rest != 0 ==> i == fractionalCount)
    ensures FractionState(old(DecimalValue(buffer[..length])), fractionalsIn, pointIn, DecimalValue(buffer[..newLength]), i, rest)
    ensures up <==> 2 * rest >= Pow(2, pointIn - i)
    ensures i == pointIn <==> PointReachesZero(fractionalsIn, pointIn, fractionalCount)
  {
    hide Pow, DecimalValue, FractionState;
    ghost var a := DecimalValue(buffer[..length]);
    var fractionals: uint64, point: int := fractionalsIn, pointIn;
    newLength, i := length, 0;
    StartFraction(a, fractionals, point);
    while i < fractionalCount
      invariant i <= fractionalCount && newLength == length + i && point == pointIn - i && AreDigits(buffer[..newLength])
      invariant FractionState(a, fractionalsIn, pointIn, DecimalValue(buffer[..newLength]), i, fractionals)
      invariant FitsTimesFive(fractionals, pointIn, i)
      invariant i == pointIn > 0 ==> fractionalsIn % 2 == 1
    {
      if fractionals == 0 {
        break;
      }
      RestBelow(a, fractionalsIn, pointIn, DecimalValue(buffer[..newLength]), i, fractionals);
      RestParity(a, fractionalsIn, pointIn, DecimalValue(buffer[..newLength]), i, fractionals);
      point := point - 1;
      fractionals := FractionalDigit64(fractionals, point, buffer, newLength, a, fractionalsIn, pointIn, i);
      newLength := newLength + 1;
      i := i + 1;
    }
    rest := fractionals;
    RestInRange(a, fractionalsIn, pointIn, DecimalValue(buffer[..newLength]), i, fractionals);
    if i < pointIn {
      RestParity(a, fractionalsIn, pointIn, DecimalValue(buffer[..newLength]), i, fractionals);
    }
    // With the point all the way down nothing is left, and the bit looked at is clear.
    if point == 0 {
      PowNone(2);
      up := false;
    } else {
      PowNext(2, point - 1);
      var q := Pow(2, point - 1);
      TopBit(fractionals, q);
      up := fractionals / q % 2 == 1;
    }
  }

  method FractionalDigit64(fractionals: uint64, point: int, buffer: array<char>, length: nat, ghost a: int, ghost f: int, ghost p: nat, ghost i: nat)
    returns (left: uint64)
    requires length < buffer.Length && p <= 64 && point == p - i - 1 && AreDigits(buffer[..length]) && fractionals > 0
    requires FractionState(a, f, p, DecimalValue(buffer[..length]), i, fractionals) && FitsTimesFive(fractionals, p, i)
    modifies buffer
    ensures AreDigits(buffer[..length + 1]) && point >= 0
    ensures FractionState(a, f, p, DecimalValue(buffer[..length + 1]), i + 1, left) && FitsTimesFive(left, p, i + 1)
  {
    hide Pow, DecimalValue, FractionState;
    ghost var s := buffer[..length];
    RestBelow(a, f, p, DecimalValue(s), i, fractionals);
    TimesFiveFits(fractionals, p, i);
    PowFits(point);
    NextFractionDigit(a, f, p, DecimalValue(s), i, fractionals, point);
    var times5: uint64 := fractionals * 5;
    var one := Pow(2, point);
    var digit := times5 / one;
    left := times5 - digit * one;
    buffer[length] := DigitChar(digit);
    assert buffer[..length + 1] == s + [DigitChar(digit)];
    DecimalAppend(s, DigitChar(digit));
  }

  /** What is above the point after multiplying by five is the next digit. */
  lemma NextFractionDigit(a: int, f: int, p: nat, n: int, i: nat, rest: nat, point: nat)
    requires FractionState(a, f, p, n, i, rest) && FitsTimesFive(rest, p, i) && p <= 64 && point == p - i - 1 && Pow(2, point) > 0
    ensures var one := Pow(2, point);
      var digit := rest * 5 / one;
      var left := rest * 5 - digit * one;
      && 0 <= digit <= 9 && 0 <= digit * one && 0 <= left < one
      && FractionState(a, f, p, 10 * n + digit, i + 1, left) && FitsTimesFive(left, p, i + 1)
  {
    hide Pow, FractionState;
    var one := Pow(2, point);
    var digit := rest * 5 / one;
    var left := rest * 5 - digit * one;
    SplitByPoint(rest * 5, digit, one, left);
    NextFraction(a, f, p, n, i, rest, digit, left);
  }

  lemma SplitByPoint(x: nat, q: int, m: nat, r: int)
    requires m > 0 && q == x / m && r == x - q * m
    ensures 0 <= q && 0 <= q * m && 0 <= r < m && r <= x
  {
  }

  /** A rest that is not zero needs the point to be above it. */
  lemma RestBelow(a: int, f: int, p: nat, n: int, i: nat, rest: int)
    requires FractionState(a, f, p, n, i, rest) && rest > 0
    ensures i < p && rest < Pow(2, p - i)
  {
  }

  lemma RestInRange(a: int, f: int, p: nat, n: int, i: nat, rest: int)
    requires FractionState(a, f, p, n, i, rest)
    ensures i <= p && 0 <= rest < Pow(2, p - i)
  {
  }

  lemma PowFits(n: nat)
    requires n <= 63
    ensures 0 < Pow(2, n) < 0x1_0000_0000_0000_0000
  {
    hide Pow;
    TwoTo61();
    PowMono(2, n, 63);
    PowNext(2, 63);
  }

  lemma TopBit(x: nat, q: nat)
    requires q > 0 && x < 2 * q
    ensures x / q % 2 == 1 <==> 2 * x >= 2 * q
    ensures x / q % 2 == 0 || x / q % 2 == 1
  {
    if x >= q {
      DivModUnique(x, q, 1, x - q);
    } else {
      DivModUnique(x, q, 0, x);
    }
  }

  // ----- 128 bits -----

  /** The same for 128 bits, where the fraction starts out at bit 119 or below. */
  ghost predicate FitsTimesFive128(rest: int, i: nat) {
    && (i == 0 ==> rest < 0x80_0000_0000_0000_0000_0000_0000_0000)
    && (i == 1 ==> rest < 5 * 0x80_0000_0000_0000_0000_0000_0000_0000)
    && (i == 2 ==> rest < 25 * 0x80_0000_0000_0000_0000_0000_0000_0000)
  }

  method FillFractionals128(fractionals: uint64, pointIn: nat, fractionalCount: nat, buffer: array<char>, length: nat)
    returns (newLength: nat, up: bool, i: nat, ghost rest: int)
    requires 64 < pointIn <= 128 && fractionals < 0x100_0000_0000_0000 && fractionals < Pow(2, pointIn)
    requires fractionalCount <= 20 && length + fractionalCount < buffer.Length && AreDigits(buffer[..length])
    modifies buffer
    ensures i <= fractionalCount && newLength == length + i && AreDigits(buffer[..newLength]) && (rest != 0 ==> i == fractionalCount)
    ensures FractionState(old(DecimalValue(buffer[..length])), fractionals * Pow(2, 128 - pointIn), 128,
      DecimalValue(buffer[..newLength]), i, rest)
    ensures up <==> 2 * rest >= Pow(2, 128 - i)
  {
    hide Pow, DecimalValue, FractionState;
    ghost var a := DecimalValue(buffer[..length]);
    ghost var f := fractionals * Pow(2, 128 - pointIn);
    var fractionals128 := new UInt128(fractionals, 0);
    ShiftedDown(fractionals, pointIn);
    fractionals128.Shift(pointIn - 64);
    var point := 128;
    newLength, i := length, 0;
    StartFraction(a, f, 128);
    while i < fractionalCount
      invariant i <= fractionalCount && newLength == length + i && point == 128 - i && AreDigits(buffer[..newLength])
      invariant FractionState(a, f, 128, DecimalValue(buffer[..newLength]), i, fractionals128.Value())
      invariant FitsTimesFive128(fractionals128.Value(), i)
    {
      var zero := fractionals128.IsZero();
      if zero {
        break;
      }
      point := point - 1;
      FractionalDigit128(fractionals128, point, buffer, newLength, a, f, i);
      newLength := newLength + 1;
      i := i + 1;
    }
    rest := fractionals128.Value();
    RestInRange(a, f, 128, DecimalValue(buffer[..newLength]), i, rest);
    PowNext(2, point - 1);
    TopBit(rest, Pow(2, point - 1));
    var bit := fractionals128.BitAt(point - 1);
    up := bit == 1;
  }

  method FractionalDigit128(fractionals128: UInt128, point: nat, buffer: array<char>, length: nat, ghost a: int, ghost f: int, ghost i: nat)
    requires length < buffer.Length && i < 20 && point == 127 - i && AreDigits(buffer[..length])
    requires FractionState(a, f, 128, DecimalValue(buffer[..length]), i, fractionals128.Value())
    requires FitsTimesFive128(fractionals128.Value(), i)
    modifies fractionals128, buffer
    ensures AreDigits(buffer[..length + 1])
    ensures FractionState(a, f, 128, DecimalValue(buffer[..length + 1]), i + 1, fractionals128.Value())
    ensures FitsTimesFive128(fractionals128.Value(), i + 1)
  {
    hide Pow, DecimalValue, FractionState;
    ghost var s, before := buffer[..length], fractionals128.Value();
    RestInRange(a, f, 128, DecimalValue(s), i, before);
    TimesFiveFits128(before, i);
    fractionals128.Multiply(5);
    PowNext(2, point);
    SmallQuotient(before, Pow(2, point));
    var digit := fractionals128.DivModPowerOf2(point);
    NextFraction(a, f, 128, DecimalValue(s), i, before, digit, fractionals128.Value());
    buffer[length] := DigitChar(digit);
    assert buffer[..length + 1] == s + [DigitChar(digit)];
    DecimalAppend(s, DigitChar(digit));
    MulMono(0, digit, Pow(2, point));
  }

  lemma ShiftedDown(f: uint64, p: nat)
    requires 64 < p <= 128 && f < 0x100_0000_0000_0000 && f < Pow(2, p)
    ensures f * 0x1_0000_0000_0000_0000 / Pow(2, p - 64) == f * Pow(2, 128 - p)
    ensures 0 <= f * Pow(2, 128 - p) < 0x80_0000_0000_0000_0000_0000_0000_0000
    ensures f * Pow(2, 128 - p) < Pow(2, 128)
  {
    hide Pow;
    var k, q := Pow(2, 128 - p), Pow(2, p - 64);
    TwoTo61();
    PowAdd(2, 128 - p, p - 64);
    PowAdd(2, 128 - p, p);
    MulAssoc(f, k, q);
    DivModUnique(f * 0x1_0000_0000_0000_0000, q, f * k, 0);
    PowMono(2, 128 - p, 63);
    PowNext(2, 63);
    MulMono(k, 0x8000_0000_0000_0000, f);
    MulStrict(f, Pow(2, p), k);
  }

  lemma TimesFiveFits128(rest: int, i: nat)
    requires FitsTimesFive128(rest, i) && i < 20 && 0 <= rest < Pow(2, 128 - i)
    ensures 5 * rest < 0x1_0000_0000_0000_0000_0000_0000_0000_0000
  {
    hide Pow;
    if i >= 3 {
      PowMono(2, 128 - i, 125);
      TwoTo61();
      PowAdd(2, 61, 64);
    }
  }

  lemma SmallQuotient(rest: int, q: int)
    requires 0 <= rest < 2 * q
    ensures 5 * rest < 0x8000_0000 * q
  {
  }

  // ----- the whole conversion -----

  /** Succeeds exactly for exponents and digit counts up to 20, and is then the double rounded half
      up, without leading or trailing zeros. */
  method FastFixedDtoa(d: uint64, fractionalCount: nat, buffer: array<char>) returns (ok: bool, length: nat, decimalPoint: int)
    requires d < INFINITY && buffer.Length >= 46
    modifies buffer
    ensures ok <==> Exponent(d) <= 20 && fractionalCount <= 20
    ensures ok ==> (length < buffer.Length && buffer[length] == '\0'
      && FixedDigits(buffer[..length], decimalPoint, Value(d), fractionalCount)
      && (length > 0 ==> buffer[length - 1] != '0'))
  {
    hide Pow, Ten, Two, DecimalValue, DecimalAt, Significand, Exponent, Value;
    length, decimalPoint := 0, 0;
    if Exponent(d) > 20 {
      return false, length, decimalPoint;
    }
    if fractionalCount > 20 {
      return false, length, decimalPoint;
    }
    length, decimalPoint := FillAll(d, fractionalCount, buffer);
    length, decimalPoint := TrimZeros(buffer, length, decimalPoint);
    ghost var s := buffer[..length];
    buffer[length] := '\0';
    assert buffer[..length] == s;
    if length == 0 {
      NothingDenoted(s, decimalPoint, 0 - fractionalCount);
      decimalPoint := 0 - fractionalCount;
    }
    ok := true;
  }

  lemma NothingDenoted(s: seq<char>, p: int, q: int)
    requires s == []
    ensures Denoted(s, p) == Denoted(s, q) == 0.0
  {
    hide Ten;
    DecimalNone(s);
  }

  lemma SignificandRange(d: int)
    requires 0 <= d < INFINITY
    ensures 0 <= Significand(d) < 0x20_0000_0000_0000 && -1074 <= Exponent(d)
  {
  }

  /** The digits before they are trimmed. */
  method FillAll(d: uint64, fractionalCount: nat, buffer: array<char>) returns (length: nat, decimalPoint: int)
    requires d < INFINITY && buffer.Length >= 46 && Exponent(d) <= 20 && fractionalCount <= 20
    modifies buffer
    ensures length < buffer.Length && Filled(buffer[..length], decimalPoint, Value(d), fractionalCount)
  {
    hide Pow, Ten, Two, DecimalValue, DecimalAt, Significand, Exponent, Filled, Scaled;
    SignificandRange(d);
    var significand: uint64, exponent := Significand(d), Exponent(d);
    if exponent + 53 > 64 {
      length := FillLarge(significand, exponent, buffer);
      decimalPoint := length;
      IntegerFilled(buffer[..length], significand, exponent, fractionalCount);
    } else if exponent >= 0 {
      ShiftFits(significand, exponent);
      length := FillDigits64(significand * Pow(2, exponent), buffer, 0);
      assert buffer[0..length] == buffer[..length];
      decimalPoint := length;
      SpelledDigits(buffer[..length], significand * Pow(2, exponent));
      IntegerFilled(buffer[..length], significand, exponent, fractionalCount);
    } else if exponent > -53 {
      length, decimalPoint := FillMixed(significand, exponent, fractionalCount, buffer);
    } else if exponent < -128 {
      buffer[0] := '\0';
      length := 0;
      decimalPoint := 0 - fractionalCount;
      FarTooSmallFixed(buffer[..length], significand, exponent, fractionalCount);
    } else {
      decimalPoint := 0;
      length := 0;
      DecimalNone(buffer[..0]);
      PowMono(2, 53, -exponent);
      TwoTo53Nat();
      length, decimalPoint := FillFractionals(significand, exponent, fractionalCount, buffer, 0, 0);
    }
  }

  lemma SpelledDigits(s: seq<char>, n: nat)
    requires Spells(s, n)
    ensures AreDigits(s) && DecimalValue(s) == n
  {
  }

  lemma TwoTo53Nat()
    ensures Pow(2, 53) == 0x20_0000_0000_0000
  {
    hide Pow;
    TwoTo28();
    PowAdd(2, 28, 25);
    PowAdd(2, 25, 3);
    ThreeBits();
  }

  lemma ThreeBits()
    ensures Pow(2, 3) == 8
  {
  }

  lemma ShiftFits(f: nat, e: nat)
    requires f < 0x20_0000_0000_0000 && e <= 11
    ensures 0 <= f * Pow(2, e) < 0x1_0000_0000_0000_0000
  {
    hide Pow;
    PowMono(2, e, 11);
    ElevenBits();
    MulMono(Pow(2, e), 2048, f);
  }

  /** An integer written out in full is exact. */
  lemma IntegerFilled(s: seq<char>, f: nat, e: nat, places: nat)
    requires AreDigits(s) && DecimalValue(s) == f * Pow(2, e)
    ensures Filled(s, |s|, Scaled(f, e), places)
  {
    hide Pow, RPow;
    RealProduct(f, Pow(2, e));
    TwoNat(e);
    RPowZero(10);
  }

  lemma FarTooSmallFixed(s: seq<char>, f: nat, e: int, places: nat)
    requires s == [] && f < 0x20_0000_0000_0000 && e < -128 && places <= 20
    ensures Filled(s, 0 - places, Scaled(f, e), places)
  {
    hide RPow, Pow, Ten, Two, DecimalValue;
    assert 0.0 <= Scaled(f, e) < Two(53 + e) by {
      if f > 0 {
        ScaledRange(f, e);
      }
    }
    TwoMono(53 + e, -76);
    TenMono(-20, 0 - places);
    SmallTen();
    NothingDenoted(s, 0 - places, 0 - places);
  }

  lemma SmallTen()
    ensures Two(-76) < Ten(-20) / 2.0
  {
    hide RPow;
    TenAdd(-20, 20);
    TwoAdd(-76, 76);
    RPowZero(2);
    RPowZero(10);
    TwentyZeros();
    HalfReciprocal(Ten(-20), Ten(20), Two(-76), Two(76));
  }

  lemma HalfReciprocal(a: real, b: real, c: real, d: real)
    requires a * b == 1.0 && c * d == 1.0 && 2.0 * b < d && a > 0.0 && c > 0.0 && b > 0.0
    ensures c < a / 2.0
  {
    RMulMono(2.0 * b, d, c);
    RMulCancel(2.0 * c, a, b);
    assert 2.0 * b * c == 2.0 * c * b;
  }

  /** 10^20 is less than half of 2^76. */
  lemma TwentyZeros()
    ensures 2.0 * Ten(20) < Two(76)
  {
    hide Pow, RPow, Two, Ten;
    TenNat(20);
    TwoNat(76);
    PowAdd(10, 19, 1);
    TenTo19();
    PowNext(10, 19);
    TwoTo61();
    PowAdd(2, 64, 12);
    ElevenBits();
    PowNext(2, 11);
  }

  /** More than 64 bits: the digits above 10^17 and the 17 digits below. */
  method FillLarge(significand: uint64, exponent: int, buffer: array<char>) returns (length: nat)
    requires significand < 0x20_0000_0000_0000 && 11 < exponent <= 20 && buffer.Length >= 46
    modifies buffer
    ensures length < buffer.Length && AreDigits(buffer[..length])
    ensures DecimalValue(buffer[..length]) == significand * Pow(2, exponent)
  {
    hide Pow, DecimalValue;
    var divisor: uint64, dividend: uint64, quotient: uint32, remainder: uint64 := 0xB1_A2BC_2EC5, significand, 0, 0;
    FiveTo17();
    if exponent > 17 {
      DividendLarge(significand, exponent);
      dividend := dividend * Pow(2, exponent - 17);
      quotient := dividend / divisor;
      remainder := dividend % divisor * Pow(2, 17);
    } else {
      DivisorLarge(significand, exponent);
      divisor := divisor * Pow(2, 17 - exponent);
      quotient := dividend / divisor;
      remainder := dividend % divisor * Pow(2, exponent);
    }
    var high := FillDigits32(quotient, buffer, 0);
    ghost var t := buffer[0..high];
    length := FillDigits64FixedLength(remainder, buffer, high);
    assert buffer[..high] == t;
    assert buffer[..length] == t + buffer[high..length];
    SpelledDigits(t, quotient);
    DecimalConcat(t, buffer[high..length]);
    TenTo17();
  }

  lemma FiveTo17()
    ensures Pow(5, 17) == 0xB1_A2BC_2EC5
  {
    hide Pow;
    PowAdd(5, 11, 6);
    FiveTo11();
    FiveTo6();
  }

  lemma FiveTo6()
    ensures Pow(5, 6) == 15625
  {
  }

  lemma TenTo17()
    ensures Pow(10, 17) == 100_000_000_000_000_000 && Pow(2, 17) == 131072
    ensures Pow(5, 17) * Pow(2, 17) == Pow(10, 17)
  {
    hide Pow;
    PowTen(17);
    FiveTo17();
    PowAdd(2, 11, 6);
    ElevenBits();
    SixBits();
  }

  lemma SixBits()
    ensures Pow(2, 6) == 64
  {
  }

  lemma DividendLarge(f: nat, e: int)
    requires f < 0x20_0000_0000_0000 && 17 < e <= 20
    ensures var dividend := f * Pow(2, e - 17);
      && 0 <= dividend < 0x1_0000_0000_0000_0000 && 0 <= dividend / 0xB1_A2BC_2EC5 < 0x1_0000_0000
      && 0 <= dividend % 0xB1_A2BC_2EC5 * Pow(2, 17) < 100_000_000_000_000_000
      && dividend / 0xB1_A2BC_2EC5 * Pow(10, 17) + dividend % 0xB1_A2BC_2EC5 * Pow(2, 17) == f * Pow(2, e)
  {
    hide Pow;
    PowMono(2, e - 17, 3);
    ThreeBits();
    MulMono(Pow(2, e - 17), 8, f);
    PowAdd(2, e - 17, 17);
    MulAssoc(f, Pow(2, e - 17), Pow(2, 17));
    TenTo17();
  }

  lemma DivisorLarge(f: nat, e: int)
    requires f < 0x20_0000_0000_0000 && 11 < e <= 17
    ensures var divisor := 0xB1_A2BC_2EC5 * Pow(2, 17 - e);
      && 0 < divisor < 0x1_0000_0000_0000_0000 && 0 <= f / divisor < 0x1_0000_0000
      && 0 <= f % divisor * Pow(2, e) < 100_000_000_000_000_000
      && f / divisor * Pow(10, 17) + f % divisor * Pow(2, e) == f * Pow(2, e)
  {
    hide Pow;
    PowMono(2, 17 - e, 5);
    FiveBits();
    PowAdd(2, 17 - e, e);
    TenTo17();
    DivisorParts(f, Pow(2, 17 - e), Pow(2, e), 0xB1_A2BC_2EC5 * Pow(2, 17 - e));
  }

  lemma DivisorParts(f: nat, p: nat, q: nat, divisor: nat)
    requires f < 0x20_0000_0000_0000 && 0 < p <= 32 && p * q == 131072 && divisor == 0xB1_A2BC_2EC5 * p && q > 0
    ensures divisor > 0 && 0 <= f / divisor < 0x1_0000_0000 && 0 <= f % divisor * q < 100_000_000_000_000_000
    ensures f / divisor * 100_000_000_000_000_000 + f % divisor * q == f * q
  {
    MulAssoc(0xB1_A2BC_2EC5, p, q);
    QuotientParts(f, divisor, q, f / divisor, f % divisor);
  }

  lemma QuotientParts(f: nat, divisor: nat, q: nat, d: nat, r: nat)
    requires f < 0x20_0000_0000_0000 && divisor >= 0xB1_A2BC_2EC5 && f == divisor * d + r && r < divisor
    requires divisor * q == 100_000_000_000_000_000 && q > 0
    ensures d < 0x1_0000_0000 && 0 <= r * q < 100_000_000_000_000_000
    ensures d * 100_000_000_000_000_000 + r * q == f * q
  {
    if d >= 0x1_0000_0000 {
      MulMono(0x1_0000_0000, d, divisor);
    }
    MulStrict(r, divisor, q);
    MulMono(0, r, q);
    Distribute(q, divisor * d, r);
    MulAssoc(divisor, d, q);
  }

  /** An integral part and a fraction. */
  method FillMixed(significand: uint64, exponent: int, fractionalCount: nat, buffer: array<char>) returns (length: nat, decimalPoint: int)
    requires significand < 0x20_0000_0000_0000 && -53 < exponent < 0 && fractionalCount <= 20 && buffer.Length >= 46
    modifies buffer
    ensures length < buffer.Length && Filled(buffer[..length], decimalPoint, Scaled(significand, exponent), fractionalCount)
  {
    hide Pow, DecimalValue, Filled, Scaled;
    CutAtPoint(significand, -exponent);
    var integrals: uint64 := significand / Pow(2, -exponent);
    var fractionals: uint64 := significand - integrals * Pow(2, -exponent);
    if integrals > 0xFFFF_FFFF {
      length := FillDigits64(integrals, buffer, 0);
    } else {
      length := FillDigits32(integrals, buffer, 0);
    }
    assert buffer[0..length] == buffer[..length];
    SpelledDigits(buffer[..length], integrals);
    decimalPoint := length;
    length, decimalPoint := FillFractionals(fractionals, exponent, fractionalCount, buffer, length, decimalPoint);
    PartsAdd(significand, integrals, fractionals, -exponent);
  }

  lemma CutAtPoint(f: nat, n: nat)
    requires f < 0x20_0000_0000_0000 && n < 53
    ensures 0 <= f / Pow(2, n) <= f && 0 <= f / Pow(2, n) * Pow(2, n) <= f
    ensures f - f / Pow(2, n) * Pow(2, n) < Pow(2, n)
  {
    hide Pow;
    var p := Pow(2, n);
    assert f == f / p * p + f % p;
    MulMono(1, p, f / p);
  }

  lemma PartsAdd(f: nat, integrals: nat, fractionals: nat, n: nat)
    requires f == integrals * Pow(2, n) + fractionals
    ensures (integrals as real) + Scaled(fractionals, 0 - n) == Scaled(f, 0 - n)
  {
    hide Pow, Two;
    TwoNat(n);
    RealProduct(integrals, Pow(2, n));
    PartsAddReal(integrals as real, fractionals as real, f as real, Pow(2, n) as real, Two(0 - n));
  }

  lemma PartsAddReal(a: real, b: real, f: real, p: real, down: real)
    requires f == a * p + b && down * p == 1.0
    ensures a + b * down == f * down
  {
    assert f * down == a * (down * p) + b * down;
  }
}
