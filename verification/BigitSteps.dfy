// The arithmetic behind each column, digit or length comparison of a Bignum operation.
module BigitSteps {
  import opened MachineInts
  import opened Bigits
  import opened Decimals
  import opened Powers
  import opened WordPowers

  // ----- one column of an operation -----

  lemma AddStep(d: int, add: int, carry: int, n: nat)
    ensures var sum := d + add + carry;
      Scale(sum % 0x1000_0000, n) + Scale(sum / 0x1000_0000, n + 1) == Scale(d, n) + Scale(add, n) + Scale(carry, n)
  {
    var sum := d + add + carry;
    CarryStep(sum, sum % 0x1000_0000, sum / 0x1000_0000, n);
    ScaleAdd(d + add, carry, n);
    ScaleAdd(d, add, n);
  }

  /** A digit difference in wrapped 32-bit arithmetic: the low 28 bits and the sign bit. */
  lemma WrappedDifference(d: int, sub: int)
    requires 0 <= d < 0x1000_0000 && 0 <= sub <= 0x1000_0000
    ensures var difference := Wrap32(d - sub);
      && difference % 0x1000_0000 - 0x1000_0000 * (difference / 0x8000_0000) == d - sub
      && difference / 0x8000_0000 == if sub <= d then 0 else 1
  {
  }

  lemma SubStep(d: int, digit: int, sub: int, borrow: int, borrow': int, n: nat)
    requires digit - 0x1000_0000 * borrow' == d - sub - borrow
    ensures Scale(digit, n) - Scale(borrow', n + 1) == Scale(d, n) - Scale(sub, n) - Scale(borrow, n)
  {
    ScaleUp(borrow', n);
    ScaleAdd(digit + sub, borrow, n);
    ScaleAdd(digit, sub, n);
    ScaleAdd(d, 0x1000_0000 * borrow', n);
  }

  /** A partial quotient stays within 16 bits because the whole quotient does. */
  lemma QuotientFits(start: int, d: int, before: int, q: int, rest: int)
    requires 0 < d && 0 <= rest && before * d + q * d + rest == start < 0x1_0000 * d
    ensures before + q < 0x1_0000
  {
    Distribute(d, before, q);
    if before + q >= 0x1_0000 {
      MulMono(0x1_0000, before + q, d);
    }
  }

  function Sign(x: int): int { if x < 0 then -1 else if x == 0 then 0 else 1 }

  /** Below an equal upper part, the first differing digit decides. */
  lemma HigherDigitDecides(s: seq<Bigit>, es: nat, t: seq<Bigit>, et: nat, i: nat)
    ensures DigitAt(s, es, i) < DigitAt(t, et, i) ==> Low(s, es, i + 1) < Low(t, et, i + 1)
    ensures DigitAt(s, es, i) > DigitAt(t, et, i) ==> Low(s, es, i + 1) > Low(t, et, i + 1)
    ensures DigitAt(s, es, i) == DigitAt(t, et, i) ==>
      Low(s, es, i + 1) - Low(s, es, i) == Low(t, et, i + 1) - Low(t, et, i)
  {
    LowBounds(s, es, i);
    LowBounds(t, et, i);
    var d, f := DigitAt(s, es, i), DigitAt(t, et, i);
    if d < f {
      ScaleMono(d, f, i);
    } else if f < d {
      ScaleMono(f, d, i);
    }
  }

  /** What the three lengths alone say about a + b - c, when a is the longer summand. */
  lemma SumLengths(s: seq<Bigit>, es: nat, n: nat, t: seq<Bigit>, et: nat, m: nat, u: seq<Bigit>, eu: nat, k: nat)
    requires n <= |s| && m <= |t| && k <= |u| && ZeroFrom(s, n) && ZeroFrom(t, m) && ZeroFrom(u, k)
    requires (n > 0 && s[n - 1] != 0) || (n == 0 && es == 0)
    requires (k > 0 && u[k - 1] != 0) || (k == 0 && eu == 0)
    requires et + m <= es + n
    ensures es + n + 1 < eu + k ==> Val(s, es) + Val(t, et) < Val(u, eu)
    ensures es + n > eu + k ==> Val(s, es) + Val(t, et) > Val(u, eu)
    ensures es >= et + m && es + n < eu + k ==> Val(s, es) + Val(t, et) < Val(u, eu)
  {
    hide Scale, Val;
    ValBounds(t, et);
    MostValue(s, es, n, es + n);
    MostValue(t, et, m, es + n);
    LeastValue(s, es, n);
    LeastValue(u, eu, k);
    if es + n + 1 < eu + k {
      WeightMono(es + n, eu + k - 1);
    }
    if es + n > eu + k {
      LongerIsLarger(s, es, n, u, eu, k);
    }
    if es >= et + m && es + n < eu + k {
      MostValue(t, et, m, es);
      ValZeroTop(s, es, n);
      ValBounds(s[..n], es);
      WeightMono(es + n, eu + k - 1);
    }
  }

  /** One digit of PlusCompare: with more than a borrow of one left, or less than none, the rest cannot matter. */
  lemma PlusStep(s: seq<Bigit>, es: nat, t: seq<Bigit>, et: nat, u: seq<Bigit>, eu: nat, i: nat, borrow: int)
    ensures var rest := DigitAt(u, eu, i) + 0x1000_0000 * borrow - DigitAt(s, es, i) - DigitAt(t, et, i);
      var total := Scale(borrow, i + 1) + Low(u, eu, i + 1) - Low(s, es, i + 1) - Low(t, et, i + 1);
      && total == Scale(rest, i) + Low(u, eu, i) - Low(s, es, i) - Low(t, et, i)
      && (rest < 0 ==> total < 0)
      && (rest > 1 ==> total > 0)
  {
    var a, b, c := DigitAt(s, es, i), DigitAt(t, et, i), DigitAt(u, eu, i);
    var rest: int := c + 0x1000_0000 * borrow - a - b;
    LowBounds(s, es, i);
    LowBounds(t, et, i);
    LowBounds(u, eu, i);
    ScaleUp(borrow, i);
    ScaleAdd(c, 0x1000_0000 * borrow, i);
    ScaleAdd(rest + a, b, i);
    ScaleAdd(rest, a, i);
    ScaleZero(i);
    if rest < 0 {
      ScaleMono(rest, 0, i);
    } else if rest > 1 {
      ScaleMono(1, rest, i);
      ScaleMono(0, 1, i);
    }
  }

  lemma ProductBound(factor: int, d: Bigit, carry: int)
    requires 0 <= carry <= factor
    ensures 0 <= factor * d <= factor * d + carry <= 0x1000_0000 * factor
  {
    MulMono(d, 0x1000_0000 - 1, factor);
  }

  /** What was subtracted does not exceed the number, so a borrow finds a digit above it. */
  lemma BorrowStops(s: seq<Bigit>, offset: nat, n: nat, i: nat, borrow: int)
    requires n <= |s| && ZeroFrom(s, n) && i <= n && 0 <= borrow
    requires Val(s, offset) - Scale(borrow, offset + i) >= 0
    ensures i == n ==> borrow == 0
  {
    MostValue(s, offset, n, offset + n);
    if borrow > 0 {
      ScaleMono(1, borrow, offset + i);
    }
  }

  /** Among clamped numbers the one with more digits is larger. */
  lemma LongerIsLarger(s: seq<Bigit>, es: nat, n: nat, t: seq<Bigit>, et: nat, m: nat)
    requires n <= |s| && m <= |t| && ZeroFrom(s, n) && ZeroFrom(t, m)
    requires (n > 0 && s[n - 1] != 0) || (n == 0 && es == 0)
    requires (m > 0 && t[m - 1] != 0) || (m == 0 && et == 0)
    ensures es + n > et + m ==> Val(s, es) > Val(t, et)
  {
    if es + n > et + m {
      LeastValue(s, es, n);
      MostValue(t, et, m, es + n - 1);
    }
  }

  lemma NoCarryOut(s: seq<Bigit>, offset: nat, pos: nat, carry: int, length: nat, total: int)
    requires 0 <= carry <= 1 && pos <= length + 1
    requires Val(s, offset) + Scale(carry, offset + pos) == total < Weight(offset + length + 1)
    ensures pos > length ==> carry == 0
  {
    ValBounds(s, offset);
    ScaleMono(carry, 1, offset + pos);
  }

  /** A sum is at least as long as its operands and at most one digit longer. */
  lemma SumBounds(s: seq<Bigit>, es: nat, n: nat, t: seq<Bigit>, et: nat, m: nat, length: int)
    requires n <= |s| && m <= |t| && ZeroFrom(s, n) && ZeroFrom(t, m)
    requires n == 0 || s[n - 1] != 0
    requires m == 0 || t[m - 1] != 0
    requires length == Max(es + n, et + m)
    ensures Val(s, es) + Val(t, et) < Weight(length + 1)
    ensures (n > 0 && length == es + n) || (m > 0 && length == et + m) ==> Val(s, es) + Val(t, et) >= Weight(length - 1)
  {
    LeastValue(s, es, n);
    LeastValue(t, et, m);
    MostValue(s, es, n, length);
    MostValue(t, et, m, length);
  }

  lemma MostValue(s: seq<Bigit>, offset: nat, n: nat, length: int)
    requires n <= |s| && ZeroFrom(s, n) && offset + n <= length
    ensures Val(s, offset) < Weight(length)
  {
    ValZeroTop(s, offset, n);
    ValBounds(s[..n], offset);
    WeightMono(offset + n, length);
  }

  // ----- division -----

  /** Scaling is linear in the digit. */
  lemma ScaledMultiple(q: int, d: int, value: int, n: nat)
    requires 0 <= q && value <= Scale(d, n)
    ensures q * value <= Scale(q * d, n)
  {
    hide Scale;
    ScaleTimes(q, d, n);
    MulMono(value, Scale(d, n), q);
  }

  /** Whether removing multiples of the divisor d, which has m digits, leaves less than m digits: if the
      remainder is that short, and so close to a full divisor that adding d to it would give one digit more. */
  predicate EndsUpShorter(start: int, d: int, m: nat)
    requires d > 0 && m > 0
  {
    start >= Weight(m) && Weight(m) - d <= start % d < Weight(m - 1)
  }

  /** What holds while multiples of d are removed: nothing has been, or enough is left. */
  ghost predicate ExcessRemoved(start: int, value: int, d: int, m: nat)
    requires m > 0
  {
    start >= Weight(m - 1) && (value == start || (value >= Weight(m) - d && start >= Weight(m)))
  }

  lemma StartOfExcess(start: int, d: int, m: nat)
    requires m > 0 && start >= Weight(m - 1)
    ensures ExcessRemoved(start, start, d, m)
  {
  }

  lemma MoreExcess(start: int, value: int, rest: int, d: int, m: nat, result: int)
    requires m > 0 && d > 0 && result >= 0 && start == result * d + value && value >= Weight(m) && rest >= Weight(m) - d
    ensures ExcessRemoved(start, rest, d, m)
  {
    hide Weight;
    MulMono(0, result, d);
    WeightMono(m - 1, m);
  }

  lemma ShorterExactly(start: int, value: int, d: int, m: nat, result: int)
    requires m > 0 && d >= Weight(m - 1) && start == result * d + value && 0 <= value < Weight(m)
    requires ExcessRemoved(start, value, d, m)
    ensures d > 0 && (value < Weight(m - 1) <==> EndsUpShorter(start, d, m))
  {
    hide Weight;
    WeightMono(0, m - 1);
    var low := Weight(m - 1);
    assert low >= 1;
    if value < low {
      DivModUnique(start, d, result, value);
    } else if EndsUpShorter(start, d, m) {
      OneMoreDivisor(start, value, d, result);
    }
  }

  /** A value that is not the remainder is at least one divisor above it. */
  lemma OneMoreDivisor(start: int, value: int, d: int, result: int)
    requires d > 0 && start == result * d + value && value >= 0
    ensures value == start % d || value >= start % d + d
  {
    var k, r := value / d, value % d;
    assert value == d * k + r;
    Distribute(d, result, k);
    DivModUnique(start, d, result + k, r);
    if k >= 1 {
      MulMono(1, k, d);
    }
  }

  /** 2^56 divided by 2^56 - 1, which has two digits, leaves one. */
  lemma LosesADigit()
    ensures var d := 0xFF_FFFF_FFFF_FFFF;
      Weight(1) <= d < Weight(2) <= 0x100_0000_0000_0000 < 0x1_0000 * d && EndsUpShorter(0x100_0000_0000_0000, d, 2)
  {
  }

  /** With a longer dividend, its highest digit times the divisor can be removed and leaves something;
      if what is left is shorter than the divisor, the divisor begins with the largest digit and has more. */
  lemma ExcessStep(s: seq<Bigit>, es: nat, n: nat, t: seq<Bigit>, et: nat, m: nat)
    requires 1 <= n <= |s| && 1 <= m <= |t| && ZeroFrom(s, n) && ZeroFrom(t, m)
    requires s[n - 1] != 0 && t[m - 1] != 0 && es + n > et + m
    ensures var rest := Val(s, es) - s[n - 1] * Val(t, et);
      && 0 < rest < Val(s, es) && rest >= Weight(et + m) - Val(t, et)
      && (rest < Weight(et + m - 1) ==> m > 1 && t[m - 1] == 0xFFF_FFFF)
  {
    hide Scale, Val, Weight;
    var top, d, a := s[n - 1], Val(t, et), Val(s, es);
    var high, low := Weight(es + n - 1), Weight(et + m - 1);
    LeastValue(t, et, m);
    MostValue(t, et, m, es + n - 1);
    TopBigit(s, es, n);
    TopBigit(t, et, m);
    ScaleTimes(top, 1, es + n - 1);
    assert top * high <= a;
    WeightMono(et + m, es + n - 1);
    WeightMono(et + m - 1, et + m);
    ExcessArith(top, d, a, high, low);
    if m == 1 {
      SingleDigit(t, et);
    }
    if a - top * d < low {
      ScaleTimes((t[m - 1] as int) + 1, 1, et + m - 1);
      DigitIsLargest((t[m - 1] as int) + 1, d, low);
    }
  }

  lemma SingleDigit(t: seq<Bigit>, et: nat)
    requires 1 <= |t| && ZeroFrom(t, 1)
    ensures Val(t, et) == Scale(t[0], et) <= 0xFFF_FFFF * Weight(et)
  {
    hide Scale, Val, Weight;
    ValZeroTop(t, et, 1);
    ValPush(t, et, 0);
    ValNone(t, et);
    ScaleTimes(t[0], 1, et);
    MulMono(t[0], 0xFFF_FFFF, Weight(et));
  }

  lemma DigitIsLargest(digit: int, d: int, low: int)
    requires digit <= 0x1000_0000 && 0 < low && 0xFFF_FFFF * low < d < digit * low
    ensures digit == 0x1000_0000
  {
    if digit < 0x1000_0000 {
      MulMono(digit, 0xFFF_FFFF, low);
    }
  }

  lemma ExcessArith(top: int, d: int, a: int, high: int, low: int)
    requires top >= 1 && top * high <= a && 0 < d < high
    ensures 0 < a - top * d < a
    ensures a - top * d >= high - d
    ensures a - top * d < low ==> high - d < low
  {
    MulMono(1, top, d);
    Distribute(top, high - d, d);
    MulMono(1, top, high - d);
  }

  lemma OneBigitStep(s: seq<Bigit>, es: nat, n: nat, t: seq<Bigit>, et: nat, q: int)
    requires 1 <= n <= |s| && 1 <= |t| && ZeroFrom(s, n) && ZeroFrom(t, 1)
    requires t[0] != 0 && es + n == et + 1 && q == s[n - 1] / t[0]
    ensures 0 <= s[n - 1] - t[0] * q < t[0]
    ensures var rest := Val(s, es) - q * Val(t, et);
      && 0 <= rest < Val(t, et)
      && rest == Val(s, es) + Scale(s[n - 1] - t[0] * q, es + n - 1) - Scale(s[n - 1], es + n - 1)
  {
    hide Scale, Val, Weight;
    var left: int := s[n - 1] - t[0] * q;
    SingleDigit(t, et);
    TopBigit(s, es, n);
    ScaleTimes(q, t[0], et);
    ScaleAdd(left, q * t[0], et);
    ScaleAdd(left + 1, q * t[0], et);
    ScaleZero(et);
    ScaleMono(0, left, et);
    ScaleMono(left + 1, t[0], et);
  }

  lemma EstimateStep(s: seq<Bigit>, es: nat, n: nat, t: seq<Bigit>, et: nat, m: nat, q: int)
    requires 1 <= n <= |s| && 1 <= m <= |t| && ZeroFrom(s, n) && ZeroFrom(t, m)
    requires s[n - 1] != 0 && t[m - 1] != 0 && q == s[n - 1] / ((t[m - 1] as int) + 1)
    requires es + n == et + m || (es + n < et + m && t[m - 1] == 0xFFF_FFFF)
    ensures 0 <= q && q * Val(t, et) <= Val(s, es)
    ensures t[m - 1] * (q + 1) > s[n - 1] ==> Val(s, es) < (q + 1) * Val(t, et)
  {
    hide Scale, Val, Weight;
    EstimateBounds(s[n - 1], t[m - 1], q);
    ValBounds(s, es);
    if es + n == et + m {
      EstimateArith(s[n - 1], t[m - 1], q, Val(s, es), Val(t, et), es + n - 1) by {
        TopBigit(s, es, n);
        TopBigit(t, et, m);
      }
    } else {
      LongerIsLarger(t, et, m, s, es, n);
    }
  }

  lemma EstimateArith(a: int, b: int, q: int, v: int, d: int, p: nat)
    requires 0 <= q && 0 <= b && q * (b + 1) <= a
    requires v < Scale(a + 1, p) && Scale(a, p) <= v
    requires Scale(b, p) <= d <= Scale(b + 1, p)
    ensures q * d <= v
    ensures b * (q + 1) > a ==> v < (q + 1) * d
  {
    hide Scale;
    EstimateNotTooBig(a, b + 1, q, v, d, p);
    if b * (q + 1) > a {
      EstimateNotTooSmall(a, b, q + 1, v, d, p);
    }
  }

  lemma EstimateNotTooBig(a: int, b: int, q: int, v: int, d: int, p: nat)
    requires 0 <= q && q * b <= a && Scale(a, p) <= v && d <= Scale(b, p)
    ensures q * d <= v
  {
    hide Scale;
    ScaledMultiple(q, b, d, p);
    ScaleMono(q * b, a, p);
  }

  lemma EstimateNotTooSmall(a: int, b: int, q: int, v: int, d: int, p: nat)
    requires 0 <= q && a < b * q && v < Scale(a + 1, p) && Scale(b, p) <= d
    ensures v < q * d
  {
    hide Scale;
    ScaleMono(a + 1, b * q, p);
    ScaleTimes(q, b, p);
    MulMono(Scale(b, p), d, q);
  }

  lemma EstimateBounds(a: Bigit, b: Bigit, q: int)
    requires q == a / ((b as int) + 1)
    ensures 0 <= q <= a && q * ((b as int) + 1) <= a
    ensures 0 <= b * (q + 1) <= a + b
    ensures b == 0xFFF_FFFF ==> q == 0
  {
    Distribute(q, b, 1);
    Distribute(b, q, 1);
    MulMono(0, q, b);
  }

  lemma ShortIsSmall(s: seq<Bigit>, offset: nat, n: nat, length: int)
    requires n <= |s| && ZeroFrom(s, n) && length >= 1
    ensures offset + n < length ==> Val(s, offset) < Weight(length - 1)
    ensures Val(s, offset) > 0 ==> n > 0
  {
    hide Scale, Val, Weight;
    if offset + n < length {
      MostValue(s, offset, n, length - 1);
    }
    if n == 0 {
      ValZeros(s, offset);
    }
  }

  // ----- multiplication by one factor -----

  /** One column of a multiplication by a single factor. */
  lemma MulColumn(f: int, d: int, carry: int, digit: int, carry': int, n: nat)
    requires f * d + carry == digit + 0x1000_0000 * carry'
    ensures Scale(digit, n) + Scale(carry', n + 1) == f * Scale(d, n) + Scale(carry, n)
  {
    hide Scale;
    CarryStep(f * d + carry, digit, carry', n);
    ScaleAdd(f * d, carry, n);
    ScaleTimes(f, d, n);
  }

  /** Shifting a digit left by `shift` bits: what leaves it on the left is its top bits. */
  lemma ShiftColumn(d: Bigit, carry: int, shift: nat)
    requires shift < 28 && 0 <= carry < Pow(2, shift)
    ensures Pow(2, shift) * Pow(2, 28 - shift) == 0x1000_0000
    ensures Pow(2, shift) * d + carry
      == Wrap32(Wrap32(d * Pow(2, shift)) + carry) % 0x1000_0000 + 0x1000_0000 * (d / Pow(2, 28 - shift))
    ensures 0 <= d / Pow(2, 28 - shift) < Pow(2, shift)
  {
    hide Pow;
    PowSplit(2, 28, shift);
    TwoTo28();
    ShiftArith(d, carry, Pow(2, shift), Pow(2, 28 - shift));
  }

  lemma ShiftArith(d: Bigit, carry: int, p: int, q: int)
    requires p * q == 0x1000_0000 && 1 <= p && 1 <= q && 0 <= carry < p
    ensures p * d + carry == Wrap32(Wrap32(d * p) + carry) % 0x1000_0000 + 0x1000_0000 * (d / q)
    ensures 0 <= d / q < p
  {
    hide Wrap32;
    var x, y := d / q, d % q;
    ShiftedDigit(d, p, q, x, y);
    MulMono(y, q - 1, p);
    Distribute(p, q - 1, 1);
    MulMono(0, y, p);
    SmallRemainder(d * p, carry, x, p * y + carry);
  }

  lemma ShiftedDigit(d: int, p: int, q: int, x: int, y: int)
    requires d == q * x + y && 0 <= y < q && 0 <= d < 0x1000_0000 && 1 <= p && p * q == 0x1000_0000
    ensures p * d == 0x1000_0000 * x + p * y && 0 <= x < p
  {
    MulAssoc(p, q, x);
    Distribute(p, q * x, y);
    if x < 0 {
      MulMono(x, -1, q);
    }
    if x >= p {
      MulMono(p, x, q);
    }
  }

  lemma SmallRemainder(product: int, carry: int, x: int, y: int)
    requires 0 <= carry && product + carry == 0x1000_0000 * x + y && 0 <= y < 0x1000_0000
    ensures Wrap32(Wrap32(product) + carry) % 0x1000_0000 == y
  {
    hide Wrap32;
    var z := Wrap32(product) + carry;
    WrapModulo(product);
    WrapModulo(z);
    DivModUnique(z, 0x1000_0000, x - 16 * (product / 0x1_0000_0000), y);
  }

  /** Masking 28 bits does not see the wrap-around of the 32-bit addition. */
  lemma WrapModulo(x: int)
    ensures Wrap32(x) == x - 0x1_0000_0000 * (x / 0x1_0000_0000)
    ensures Wrap32(x) % 0x1000_0000 == x % 0x1000_0000
  {
    var k, r := x / 0x1_0000_0000, Wrap32(x);
    DivModUnique(x, 0x1000_0000, 16 * k + r / 0x1000_0000, r % 0x1000_0000);
  }

  /** With carry <= factor the next carry is at most the factor again: the 64-bit column of
      MultiplyByUInt64 fits with nothing to spare. */
  lemma SplitColumn(factor: uint64, d: Bigit, carry: int)
    requires 0 <= carry <= factor
    ensures var low, high := factor % 0x1_0000_0000, factor / 0x1_0000_0000;
      var tmp := carry % 0x1000_0000 + low * d;
      var carry' := carry / 0x1000_0000 + tmp / 0x1000_0000 + high * d * 0x10;
      && 0 <= low * d < 0x1_0000_0000_0000_0000
      && 0 <= high * d < 0x1000_0000_0000_0000
      && 0 <= tmp < 0x1_0000_0000_0000_0000
      && factor * d + carry == tmp % 0x1000_0000 + 0x1000_0000 * carry'
      && 0 <= carry' <= factor
  {
    var low, high := factor % 0x1_0000_0000, factor / 0x1_0000_0000;
    MulMono(d, 0xFFF_FFFF, low);
    MulMono(d, 0xFFF_FFFF, high);
    MulMono(0, d, low);
    MulMono(0, d, high);
    MulMono(d, 0xFFF_FFFF, factor);
    Distribute(d, low, 0x1_0000_0000 * high);
    MulAssoc(d, 0x1_0000_0000, high);
  }

  /** The weight of digit n is a power of two. */
  lemma {:induction false} WeightIsPower(n: nat)
    ensures Weight(n) == Pow(2, 28 * n)
  {
    if n > 0 {
      WeightIsPower(n - 1);
      TwoTo28();
      PowAdd(2, 28, 28 * n - 28) by {
        hide Pow;
      }
      assert 28 + (28 * n - 28) == 28 * n;
    }
  }

  /** Raising the hidden exponent multiplies by a power of two. */
  lemma RaiseExponent(s: seq<Bigit>, offset: nat, k: nat)
    ensures Val(s, offset + k) == Val(s, offset) * Pow(2, 28 * k)
  {
    hide Scale, Val, Weight, Pow;
    ValOffset(s, offset);
    ValOffset(s, offset + k);
    ScaleScale(Val(s, 0), offset, k);
    ScaleTimes(Val(s, offset), 1, k);
    WeightIsPower(k);
  }

  /** A multiple of a clamped number is at least as long. */
  lemma GrownTop(v: int, f: int, s: seq<Bigit>, offset: nat, n: nat)
    requires n <= |s| && ZeroFrom(s, n) && (n == 0 || s[n - 1] != 0)
    requires f >= 1 && v == Val(s, offset)
    ensures n > 0 ==> f * v >= Weight(offset + n - 1)
  {
    hide Scale, Val, Weight;
    LeastValue(s, offset, n);
    MulMono(1, f, v);
  }

  lemma CarryFitsBigit(carry: int, shift: nat)
    requires shift < 28 && carry < Pow(2, shift)
    ensures carry < 0x1000_0000
  {
    hide Pow;
    PowMono(2, shift, 28);
    TwoTo28();
  }

  // ----- powers that fit -----

  /** A clamped number below the weight of place L has at most L digits. */
  lemma LengthFromValue(s: seq<Bigit>, offset: nat, n: nat, length: nat)
    requires n <= |s| && ZeroFrom(s, n) && (n == 0 || s[n - 1] != 0)
    requires Val(s, offset) < Weight(length)
    ensures n == 0 || offset + n <= length
  {
    hide Scale, Val, Weight;
    LeastValue(s, offset, n);
    if n > 0 && offset + n > length {
      WeightMono(length, offset + n - 1);
    }
  }

  /** Every power the algorithm passes through is below the bound EnsureCapacity was given. */
  lemma PowerFits(base: nat, bitSize: nat, power: nat, c: nat)
    requires 0 < base < Pow(2, bitSize) && c <= power
    ensures bitSize * power >= 0
    ensures var bound := bitSize * power / 28 + 1;
      Pow(base, c) < Weight(bound) && (bound <= 127 ==> Pow(base, c) < Weight(127) < Weight(128))
  {
    hide Pow, Weight;
    MulMono(0, bitSize, power);
    var bits := bitSize * power;
    var bound := bits / 28 + 1;
    PowMono(base, c, power);
    PowBase(base, Pow(2, bitSize), power);
    PowPow(2, bitSize, power);
    PowNext(2, bits);
    PowMono(2, bits + 1, 28 * bound);
    WeightIsPower(bound);
    if bound <= 127 {
      WeightMono(bound, 127);
      WeightMono(127, 128);
    }
  }

  /** Before each big squaring the digits take at most half of the buffer. */
  lemma SquareFits(s: seq<Bigit>, n: nat, base: nat, bitSize: nat, power: nat, c: nat)
    requires n <= |s| && ZeroFrom(s, n) && (n == 0 || s[n - 1] != 0)
    requires 0 < base < Pow(2, bitSize) && 2 * c <= power
    requires Val(s, 0) == Pow(base, c)
    requires bitSize * power / 28 + 2 <= 128
    ensures 2 * n <= 128
  {
    hide Scale, Val, Weight, Pow;
    LeastValue(s, 0, n);
    PowDouble(base, c);
    PowerFits(base, bitSize, power, 2 * c);
    if n > 64 {
      var v := Val(s, 0);
      WeightMono(64, n - 1);
      MulMono(Weight(64), v, v);
      MulMono(Weight(64), v, Weight(64));
      WeightMono(127, 128);
      ScaleScale(1, 64, 64);
      ScaleMono(1, 1, 64);
      ScaleMono(1, 1, 128);
      ScaleTimes(Weight(64), 1, 64);
    }
  }

  // ----- powers of five -----

  const FIVE_1_TO_12: seq<uint32> :=
    [5, 25, 125, 625, 3125, 15625, 78125, 390625, 1953125, 9765625, 48828125, 244140625]

  lemma SmallFives(n: nat)
    requires 1 <= n <= 12
    ensures FIVE_1_TO_12[n - 1] == Pow(5, n)
  {
    assert Pow(5, 6) == 15625;
    if n > 6 {
      PowAdd(5, 6, n - 6);
    }
  }

  lemma FiveTo13()
    ensures Pow(5, 13) == 1220703125
  {
    hide Pow;
    SmallFives(12);
    SmallFives(1);
    PowAdd(5, 12, 1);
  }

  lemma FiveTo27()
    ensures Pow(5, 27) == 0x6765_c793_fa10_079d
  {
    hide Pow;
    FiveTo13();
    SmallFives(1);
    PowAdd(5, 13, 13);
    PowAdd(5, 26, 1);
  }

  /** A partial product by fives stays below the full one. */
  lemma NextFives(done: nat, step: nat, power: nat, v: nat)
    requires done + step <= power
    ensures Pow(5, step) * (Pow(5, done) * v) == Pow(5, done + step) * v <= Pow(5, power) * v
  {
    hide Pow;
    PowAdd(5, step, done);
    MulAssoc(Pow(5, step), Pow(5, done), v);
    PowMono(5, done + step, power);
    MulMono(Pow(5, done + step), Pow(5, power), v);
  }

  lemma AppendFits(value: seq<char>, pos: nat, count: nat)
    requires AreDigits(value) && DecimalValue(value) < Weight(127) && pos + count <= |value|
    ensures var v := DecimalValue(value[..pos]);
      && v >= 0
      && Pow(10, count) * v + DecimalValue(value[pos..pos + count]) == DecimalValue(value[..pos + count])
      && Pow(5, count) * v <= Pow(10, count) * v < Weight(127)
  {
    hide Pow, DecimalValue, Weight;
    var head, part := value[..pos], value[pos..pos + count];
    PrefixIsSmaller(value, pos + count);
    assert value[..pos + count] == head + part && |part| == count;
    AppendBelow(head, part, Weight(127));
  }

  lemma AppendBelow(head: seq<char>, part: seq<char>, limit: nat)
    requires AreDigits(head) && AreDigits(part) && DecimalValue(head + part) < limit
    ensures DecimalValue(head) >= 0 && Pow(10, |part|) * DecimalValue(head) + DecimalValue(part) == DecimalValue(head + part)
    ensures Pow(5, |part|) * DecimalValue(head) <= Pow(10, |part|) * DecimalValue(head) < limit
  {
    hide Pow, DecimalValue;
    DecimalConcat(head, part);
    DecimalBounds(part);
    DecimalBounds(head);
    PowBase(5, 10, |part|);
    PartOfSum(Pow(5, |part|), Pow(10, |part|), DecimalValue(head), DecimalValue(part), limit);
  }

  lemma PartOfSum(p: nat, q: nat, v: nat, d: nat, limit: nat)
    requires p <= q && q * v + d < limit
    ensures p * v <= q * v < limit
  {
    MulMono(p, q, v);
  }
}
