// The 128-bit integer of fixed-dtoa.cc: two 64-bit halves, multiplied in 32-bit pieces.
module UInt128s {
  import opened MachineInts
  import opened Powers
  import opened WordPowers

  class UInt128 {
    var high: uint64
    var low: uint64

    ghost function Value(): (v: int)
      reads this
      ensures 0 <= v < 0x1_0000_0000_0000_0000_0000_0000_0000_0000
    {
      high * 0x1_0000_0000_0000_0000 + low
    }

    constructor (highBits: uint64, lowBits: uint64)
      ensures Value() == highBits * 0x1_0000_0000_0000_0000 + lowBits
    {
      high := highBits;
      low := lowBits;
    }

    /** The product, which has to fit; carries move in an accumulator that never overflows, and the
        shift to the left drops the carry on purpose. */
    method Multiply(multiplicand: uint32)
      requires Value() * multiplicand < 0x1_0000_0000_0000_0000_0000_0000_0000_0000
      modifies this
      ensures Value() == old(Value()) * multiplicand
    {
      ghost var l0, l1, h0, h1 := low % 0x1_0000_0000, low / 0x1_0000_0000, high % 0x1_0000_0000, high / 0x1_0000_0000;
      PartFits(l0, multiplicand, 0);
      var accumulator: uint64 := low % 0x1_0000_0000 * multiplicand;
      var part0: uint32 := accumulator % 0x1_0000_0000;
      ghost var a0 := accumulator;
      accumulator := accumulator / 0x1_0000_0000;
      PartFits(l1, multiplicand, accumulator);
      accumulator := accumulator + low / 0x1_0000_0000 * multiplicand;
      ghost var a1 := accumulator;
      low := accumulator % 0x1_0000_0000 * 0x1_0000_0000 + part0;
      accumulator := accumulator / 0x1_0000_0000;
      PartFits(h0, multiplicand, accumulator);
      accumulator := accumulator + high % 0x1_0000_0000 * multiplicand;
      var part2: uint32 := accumulator % 0x1_0000_0000;
      ghost var a2 := accumulator;
      accumulator := accumulator / 0x1_0000_0000;
      PartFits(h1, multiplicand, accumulator);
      accumulator := accumulator + high / 0x1_0000_0000 * multiplicand;
      PartsProduct(l0, l1, h0, h1, multiplicand, a0, a1, a2, accumulator);
      high := accumulator * 0x1_0000_0000 + part2;
    }

    /** Shifts to the right, or to the left for a negative amount. */
    method Shift(shiftAmount: int)
      requires -64 <= shiftAmount <= 64
      modifies this
      ensures shiftAmount >= 0 ==> Value() == old(Value()) / Pow(2, shiftAmount)
      ensures shiftAmount < 0 ==> Value() == old(Value()) * Pow(2, -shiftAmount) % 0x1_0000_0000_0000_0000_0000_0000_0000_0000
    {
      hide Pow;
      TwoTo64();
      if shiftAmount == 0 {
        PowNone(2);
      } else if shiftAmount == -64 {
        WholeLeft(high, low);
        high := low;
        low := 0;
      } else if shiftAmount == 64 {
        low := high;
        high := 0;
      } else if shiftAmount <= 0 {
        PowSplit(2, 64, -shiftAmount);
        ShiftLeft(Pow(2, -shiftAmount), Pow(2, 64 + shiftAmount));
      } else {
        PowSplit(2, 64, shiftAmount);
        ShiftRight(Pow(2, shiftAmount), Pow(2, 64 - shiftAmount));
      }
    }

    /** p and q are the powers of two by which the halves are shifted. */
    method ShiftLeft(p: nat, q: nat)
      requires p > 0 && q > 0 && p * q == 0x1_0000_0000_0000_0000
      modifies this
      ensures Value() == old(Value()) * p % 0x1_0000_0000_0000_0000_0000_0000_0000_0000
    {
      LeftShift(high, low, p, q);
      var kept: uint64 := high * p % 0x1_0000_0000_0000_0000;
      high := kept + low / q;
      low := low * p % 0x1_0000_0000_0000_0000;
    }

    method ShiftRight(p: nat, q: nat)
      requires p > 0 && q > 0 && p * q == 0x1_0000_0000_0000_0000
      modifies this
      ensures Value() == old(Value()) / p
    {
      RightShift(high, low, p, q);
      var kept: uint64 := low / p;
      low := kept + high * q % 0x1_0000_0000_0000_0000;
      high := high / p;
    }

    /** Splits off the part above a power of two, which has to be a small number. */
    method DivModPowerOf2(power: nat) returns (result: int)
      requires 0 < power < 128 && Value() < 0x8000_0000 * Pow(2, power)
      modifies this
      ensures 0 <= result < 0x8000_0000
      ensures old(Value()) == result * Pow(2, power) + Value() && Value() < Pow(2, power)
    {
      hide Pow;
      TwoTo64();
      if power >= 64 {
        PowAdd(2, 64, power - 64);
        result := DivModHigh(Pow(2, power - 64));
      } else {
        PowSplit(2, 64, power);
        result := DivModLow(Pow(2, power), Pow(2, 64 - power));
      }
    }

    method DivModHigh(p: nat) returns (result: int)
      requires p > 0 && Value() < 0x8000_0000 * (0x1_0000_0000_0000_0000 * p)
      modifies this
      ensures 0 <= result < 0x8000_0000
      ensures old(Value()) == result * (0x1_0000_0000_0000_0000 * p) + Value() && Value() < 0x1_0000_0000_0000_0000 * p
    {
      HighPart(high, low, p);
      result := high / p;
      high := high - result * p;
    }

    method DivModLow(p: nat, q: nat) returns (result: int)
      requires p > 0 && q > 0 && p * q == 0x1_0000_0000_0000_0000 && Value() < 0x8000_0000 * p
      modifies this
      ensures 0 <= result < 0x8000_0000
      ensures old(Value()) == result * p + Value() && Value() < p
    {
      LowPart(high, low, p, q);
      var partLow: uint64 := low / p;
      var partHigh: uint64 := high * q;
      result := partLow + partHigh;
      high := 0;
      low := low - partLow * p;
    }

    method IsZero() returns (zero: bool)
      ensures zero <==> Value() == 0
    {
      zero := high == 0 && low == 0;
    }

    /** Bit `position` tells whether the number modulo the next power of two reaches half of it. */
    method BitAt(position: nat) returns (bit: int)
      requires position < 128
      ensures bit == Value() / Pow(2, position) % 2
    {
      hide Pow;
      TwoTo64();
      if position >= 64 {
        PowAdd(2, 64, position - 64);
        HighBit(high, low, Pow(2, position - 64));
        bit := high / Pow(2, position - 64) % 2;
      } else {
        PowSplit(2, 64, position);
        PowNext(2, 63 - position);
        LowBit(high, low, Pow(2, position), Pow(2, 63 - position));
        bit := low / Pow(2, position) % 2;
      }
    }
  }

  lemma PartFits(part: int, m: int, carry: int)
    requires 0 <= part < 0x1_0000_0000 && 0 <= m < 0x1_0000_0000 && 0 <= carry < 0x1_0000_0000
    ensures 0 <= part * m + carry < 0x1_0000_0000_0000_0000
  {
    MulMono(part, 0xFFFF_FFFF, m);
    MulMono(0, part, m);
  }

  lemma PartsProduct(l0: int, l1: int, h0: int, h1: int, m: int, a0: int, a1: int, a2: int, a3: int)
    requires 0 <= a0 && 0 <= a1 && 0 <= a2 && 0 <= a3
    requires a0 == l0 * m && a1 == a0 / 0x1_0000_0000 + l1 * m && a2 == a1 / 0x1_0000_0000 + h0 * m
    requires a3 == a2 / 0x1_0000_0000 + h1 * m
    requires ((h1 * 0x1_0000_0000 + h0) * 0x1_0000_0000_0000_0000 + (l1 * 0x1_0000_0000 + l0)) * m
      < 0x1_0000_0000_0000_0000_0000_0000_0000_0000
    ensures a3 < 0x1_0000_0000
    ensures ((h1 * 0x1_0000_0000 + h0) * 0x1_0000_0000_0000_0000 + (l1 * 0x1_0000_0000 + l0)) * m
      == (a3 * 0x1_0000_0000 + a2 % 0x1_0000_0000) * 0x1_0000_0000_0000_0000
        + (a1 % 0x1_0000_0000 * 0x1_0000_0000 + a0 % 0x1_0000_0000)
  {
    assert ((h1 * 0x1_0000_0000 + h0) * 0x1_0000_0000_0000_0000 + (l1 * 0x1_0000_0000 + l0)) * m
      == h1 * m * 0x1_0000_0000_0000_0000_0000_0000 + h0 * m * 0x1_0000_0000_0000_0000 + l1 * m * 0x1_0000_0000 + l0 * m;
  }

  lemma WholeLeft(high: uint64, low: uint64)
    ensures (high * 0x1_0000_0000_0000_0000 + low) * 0x1_0000_0000_0000_0000 % 0x1_0000_0000_0000_0000_0000_0000_0000_0000
      == low * 0x1_0000_0000_0000_0000
  {
    DivModUnique((high * 0x1_0000_0000_0000_0000 + low) * 0x1_0000_0000_0000_0000,
      0x1_0000_0000_0000_0000_0000_0000_0000_0000, high, low * 0x1_0000_0000_0000_0000);
  }

  /** p is 2^n and q is 2^(64 - n): n bits leave at the top of each half. */
  lemma LeftShift(high: uint64, low: uint64, p: nat, q: nat)
    requires p > 0 && q > 0 && p * q == 0x1_0000_0000_0000_0000
    ensures high * p % 0x1_0000_0000_0000_0000 + low / q < 0x1_0000_0000_0000_0000
    ensures (high * 0x1_0000_0000_0000_0000 + low) * p % 0x1_0000_0000_0000_0000_0000_0000_0000_0000
      == (high * p % 0x1_0000_0000_0000_0000 + low / q) * 0x1_0000_0000_0000_0000 + low * p % 0x1_0000_0000_0000_0000
  {
    var h, l, carry, left := high / q, high % q, low / q, low % q;
    ShiftHalf(high, p, q, h, l);
    ShiftHalf(low, p, q, carry, left);
    if carry >= p {
      MulMono(p, carry, q);
    }
    MulMono(l + 1, q, p);
    Distribute(p, l, 1);
    var r := (l * p + carry) * 0x1_0000_0000_0000_0000 + left * p;
    assert (high * 0x1_0000_0000_0000_0000 + low) * p == high * p * 0x1_0000_0000_0000_0000 + low * p;
    DivModUnique((high * 0x1_0000_0000_0000_0000 + low) * p, 0x1_0000_0000_0000_0000_0000_0000_0000_0000, h, r);
  }

  lemma ShiftHalf(x: nat, p: nat, q: nat, d: nat, r: nat)
    requires p > 0 && q > 0 && p * q == 0x1_0000_0000_0000_0000 && d == x / q && r == x % q
    ensures x == d * q + r && x * p == d * 0x1_0000_0000_0000_0000 + r * p && r * p < 0x1_0000_0000_0000_0000
    ensures x * p % 0x1_0000_0000_0000_0000 == r * p && r * p >= 0
  {
    MulAssoc(d, q, p);
    Distribute(p, d * q, r);
    MulStrict(r, q, p);
    MulMono(0, r, p);
    DivModUnique(x * p, 0x1_0000_0000_0000_0000, d, r * p);
  }

  /** p is 2^n and q is 2^(64 - n): the low n bits of the upper half move down. */
  lemma RightShift(high: uint64, low: uint64, p: nat, q: nat)
    requires p > 0 && q > 0 && p * q == 0x1_0000_0000_0000_0000
    ensures low / p + high * q % 0x1_0000_0000_0000_0000 < 0x1_0000_0000_0000_0000
    ensures (high * 0x1_0000_0000_0000_0000 + low) / p
      == high / p * 0x1_0000_0000_0000_0000 + (low / p + high * q % 0x1_0000_0000_0000_0000)
  {
    var h, l, lo, left := high / p, high % p, low / p, low % p;
    ShiftHalf(high, q, p, h, l);
    assert low == lo * p + left;
    if lo >= q {
      MulMono(q, lo, p);
    }
    MulMono(l + 1, p, q);
    Distribute(q, l, 1);
    var quotient := h * 0x1_0000_0000_0000_0000 + (lo + l * q);
    assert p * quotient + left == high * 0x1_0000_0000_0000_0000 + low by {
      MulAssoc(p, l, q);
      MulAssoc(l, p, q);
      assert p * quotient == p * h * 0x1_0000_0000_0000_0000 + p * lo + p * (l * q);
    }
    DivModUnique(high * 0x1_0000_0000_0000_0000 + low, p, quotient, left);
  }

  lemma HighPart(high: uint64, low: uint64, p: nat)
    requires p > 0 && high * 0x1_0000_0000_0000_0000 + low < 0x8000_0000 * (0x1_0000_0000_0000_0000 * p)
    ensures var q := high / p;
      && 0 <= q < 0x8000_0000 && 0 <= high - q * p < p
      && high * 0x1_0000_0000_0000_0000 + low == q * (0x1_0000_0000_0000_0000 * p) + ((high - q * p) * 0x1_0000_0000_0000_0000 + low)
      && (high - q * p) * 0x1_0000_0000_0000_0000 + low < 0x1_0000_0000_0000_0000 * p
  {
    var q, r := high / p, high % p;
    assert high == q * p + r;
    if q >= 0x8000_0000 {
      MulMono(0x8000_0000, q, p);
    }
  }

  lemma LowPart(high: uint64, low: uint64, p: nat, q: nat)
    requires p > 0 && q > 0 && p * q == 0x1_0000_0000_0000_0000 && high * 0x1_0000_0000_0000_0000 + low < 0x8000_0000 * p
    ensures 0 <= high * q < 0x8000_0000 && 0 <= low / p + high * q < 0x8000_0000 && 0 <= low - low / p * p < p
    ensures high * 0x1_0000_0000_0000_0000 + low == (low / p + high * q) * p + (low - low / p * p)
  {
    var d, r := low / p, low % p;
    assert low == d * p + r;
    MulAssoc(high, q, p);
    Distribute(p, d, high * q);
    MulMono(0, high, q);
    if d + high * q >= 0x8000_0000 {
      MulMono(0x8000_0000, d + high * q, p);
    }
  }

  lemma HighBit(high: uint64, low: uint64, p: nat)
    requires p > 0
    ensures (high * 0x1_0000_0000_0000_0000 + low) / (0x1_0000_0000_0000_0000 * p) == high / p
  {
    var d, r := high / p, high % p;
    assert high == d * p + r;
    DivModUnique(high * 0x1_0000_0000_0000_0000 + low, 0x1_0000_0000_0000_0000 * p, d, r * 0x1_0000_0000_0000_0000 + low);
  }

  lemma LowBit(high: uint64, low: uint64, p: nat, q: nat)
    requires p > 0 && q > 0 && p * (2 * q) == 0x1_0000_0000_0000_0000
    ensures (high * 0x1_0000_0000_0000_0000 + low) / p % 2 == low / p % 2
  {
    var d, r := low / p, low % p;
    assert low == d * p + r;
    assert high * 0x1_0000_0000_0000_0000 == p * (2 * (q * high)) by {
      MulAssoc(p, 2 * q, high);
      MulAssoc(2, q, high);
    }
    EvenPart(high * 0x1_0000_0000_0000_0000 + low, p, q * high, d, r);
  }

  lemma EvenPart(x: nat, p: nat, half: nat, d: nat, r: nat)
    requires p > 0 && r < p && x == p * (2 * half) + d * p + r
    ensures x / p % 2 == d % 2
  {
    Distribute(p, 2 * half, d);
    DivModUnique(x, p, 2 * half + d, r);
  }
}
