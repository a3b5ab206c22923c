// Left-to-right exponentiation: the bits of the exponent under a moving mask, and the phase
// of AssignPowerUInt16 that still fits a 64-bit word.
module WordPowers {
  import opened MachineInts
  import opened Powers

  /** The part of the exponent above the mask bit, which is what has been raised to so far. */
  function Prefix(power: nat, mask: nat): nat {
    if mask == 0 then power else power / mask / 2
  }

  predicate IsMask(mask: nat) {
    mask <= 1 || (mask % 2 == 0 && IsMask(mask / 2))
  }

  function Bit(power: nat, mask: nat): nat
    requires mask > 0
  {
    power / mask % 2
  }

  function OddPart(b: nat): nat
    requires b > 0
  {
    if b % 2 == 0 then OddPart(b / 2) else b
  }

  function BitSize(b: nat): nat {
    if b == 0 then 0 else 1 + BitSize(b / 2)
  }

  lemma {:induction false} BitSizeBound(b: nat)
    ensures b < Pow(2, BitSize(b))
  {
    if b > 0 {
      BitSizeBound(b / 2);
    }
  }

  lemma {:induction false} BitSizeOfWord(b: nat, n: nat)
    requires b < Pow(2, n)
    ensures BitSize(b) <= n
  {
    if b > 0 {
      BitSizeOfWord(b / 2, n - 1);
    }
  }

  /** Moving the mask down one bit doubles the prefix and appends that bit. */
  lemma {:induction false} PrefixStep(power: nat, mask: nat)
    requires mask >= 1 && (mask == 1 || mask % 2 == 0)
    ensures Prefix(power, mask / 2) == 2 * Prefix(power, mask) + Bit(power, mask)
    ensures 2 * Prefix(power, mask) + Bit(power, mask) <= power
  {
    QuotientFacts(power, mask);
    if mask > 1 {
      HalfDivision(power, mask / 2, power / mask, power % mask);
    } else {
      assert power / mask == power;
    }
  }

  lemma QuotientFacts(power: nat, mask: nat)
    requires mask >= 1
    ensures power == mask * (power / mask) + power % mask && 0 <= power % mask < mask
    ensures 0 <= power / mask <= power
  {
    var q := power / mask;
    if q < 0 {
      MulMono(q, -1, mask);
    }
    MulMono(1, mask, q);
  }

  lemma PrefixLe(power: nat, mask: nat)
    ensures 0 <= Prefix(power, mask) <= power
  {
    if mask > 0 {
      QuotientFacts(power, mask);
    }
  }

  lemma HalfDivision(power: nat, half: nat, q: nat, r: nat)
    requires half >= 1 && power == 2 * half * q + r && r < 2 * half
    ensures power / half / 2 == q
  {
    var e := if r >= half then 1 else 0;
    assert power == half * (2 * q + e) + (r - half * e);
    DivModUnique(power, half, 2 * q + e, r - half * e);
  }

  lemma PowDouble(b: nat, c: nat)
    ensures Pow(b, 2 * c) == Pow(b, c) * Pow(b, c)
    ensures Pow(b, 2 * c + 1) == Pow(b, c) * Pow(b, c) * b
  {
    PowAdd(b, c, c);
    assert Pow(b, 2 * c + 1) == b * Pow(b, 2 * c);
  }

  /** Squares in a 64-bit word while that cannot wrap. A product with the base that would not fit
      is left pending; the word is then so large that the loop ends. */
  method PowerInWord(base: uint16, bitSize: nat, power: nat, start: nat) returns (value: uint64, delayed: bool, mask: nat)
    requires base % 2 == 1 && bitSize == BitSize(base) && bitSize <= 16
    requires IsMask(start) && Prefix(power, start) == 1
    ensures IsMask(mask) && mask <= start
    ensures value * (if delayed then base else 1) == Pow(base, Prefix(power, mask))
    ensures delayed ==> value >= 0x1_0000_0000
  {
    hide Pow;
    value, delayed, mask := base, false, start;
    PowOne(base);
    while mask != 0 && value <= 0xFFFF_FFFF
      invariant IsMask(mask) && mask <= start && value >= 0
      invariant delayed ==> value >= 0x1_0000_0000
      invariant value * (if delayed then base else 1) == Pow(base, Prefix(power, mask))
      decreases mask
    {
      PrefixStep(power, mask);
      PowDouble(base, Prefix(power, mask));
      MulMono(value, 0xFFFF_FFFF, value);
      MulMono(value, 0xFFFF_FFFF, 0xFFFF_FFFF);
      value := value * value;
      if Bit(power, mask) != 0 {
        TopBitsClear(value, base, bitSize);
        // The mask of the top bitSize bits is clear.
        var highBitsZero := value / Pow(2, 64 - bitSize) == 0;
        if highBitsZero {
          value := value * base;
        } else {
          delayed := true;
        }
      }
      mask := mask / 2;
    }
  }

  lemma PowOne(b: nat)
    ensures Pow(b, 1) == b
  {
    assert Pow(b, 1) == b * Pow(b, 0);
  }

  lemma TopBitsClear(value: uint64, base: uint16, bitSize: nat)
    requires bitSize == BitSize(base) && bitSize <= 16
    ensures value / Pow(2, 64 - bitSize) == 0 ==> 0 <= value * base < 0x1_0000_0000_0000_0000
    ensures value / Pow(2, 64 - bitSize) != 0 ==> value >= 0x1_0000_0000
  {
    hide Pow, BitSize;
    var p := Pow(2, 64 - bitSize);
    BitSizeBound(base);
    PowSplit(2, 64, bitSize);
    TwoTo64();
    PowMono(2, 48, 64 - bitSize);
    if value / p == 0 {
      assert value < p;
      MulMono(0, value, base);
      MulMono(value, p - 1, base);
      MulMono(base, Pow(2, bitSize), p);
      Distribute(base, p, -1);
      if base == 0 {
        assert value * base == 0;
      }
    } else if value < p {
      DivModUnique(value, p, 0, value);
    }
  }

  lemma TwoTo64()
    ensures Pow(2, 64) == 0x1_0000_0000_0000_0000
    ensures Pow(2, 48) == 0x1_0000_0000_0000
  {
    hide Pow;
    TwoTo28();
    PowAdd(2, 28, 28);
    PowAdd(2, 56, 8);
    PowAdd(2, 28, 20);
    PowAdd(2, 20, 8);
    TwoTo8();
  }

  lemma TwoTo8()
    ensures Pow(2, 8) == 0x100
  {
  }

  lemma SecondBitSet(power: nat, quarter: nat)
    requires quarter >= 1 && 2 * quarter <= power < 4 * quarter
    ensures power / quarter / 2 == 1
  {
    HalfDivision(power, quarter, 1, power - 2 * quarter);
  }

  lemma TwoTo16()
    ensures Pow(2, 16) == 0x1_0000
  {
    hide Pow;
    TwoTo8();
    PowAdd(2, 8, 8);
  }

  /** Taking the twos out of the base and putting them back as one shift. */
  lemma ShiftedPower(base: nat, odd: nat, shifts: nat, power: nat)
    requires base == odd * Pow(2, shifts)
    ensures shifts * power >= 0 && Pow(base, power) == Pow(2, shifts * power) * Pow(odd, power)
  {
    hide Pow;
    PowProduct(odd, Pow(2, shifts), power);
    PowPow(2, shifts, power);
  }
}
