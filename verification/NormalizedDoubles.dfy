// A double and its boundaries as normalized DiyFps over one exponent (ieee.h).
module NormalizedDoubles {
  import opened MachineInts
  import opened Powers
  import opened RealPowers
  import opened DiyFps
  import opened Ieee
  import opened DtoaBounds
  import opened WordPowers

  /** The place of the top bit decides the shift. */
  lemma LeadingIs(f: nat, n: nat)
    requires 0 < f && 0x8000_0000_0000_0000 <= f * Pow(2, n) < 0x1_0000_0000_0000_0000
    ensures f < 0x1_0000_0000_0000_0000 && Leading(f) == n
  {
    hide Pow, Leading;
    Shifts(f, n);
    NoShift(f * Pow(2, n));
  }

  lemma {:induction false} LeadingShifts(f: nat)
    requires 0 < f < 0x1_0000_0000_0000_0000
    ensures 0x8000_0000_0000_0000 <= f * Pow(2, Leading(f)) < 0x1_0000_0000_0000_0000
    decreases 0x1_0000_0000_0000_0000 - f
  {
    hide Pow;
    if f < 0x8000_0000_0000_0000 {
      LeadingShifts(2 * f);
      OneShift(f);
    } else {
      PowNone(2);
    }
  }

  method AsNormalizedDiyFp(d: uint64) returns (w: DiyFp)
    requires 0 < d < INFINITY
    ensures fresh(w) && w.f == Significand(d) * Pow(2, Leading(Significand(d))) && w.e == Exponent(d) - Leading(Significand(d))
    ensures w.f >= 0x8000_0000_0000_0000
  {
    hide Pow, Leading, Significand, Exponent;
    FieldRange(d);
    var f: uint64, e := Significand(d), Exponent(d);
    while f / 0x10_0000_0000_0000 % 2 == 0
      invariant 0 < f < 0x20_0000_0000_0000
      invariant e - Leading(f) == Exponent(d) - Leading(Significand(d))
      invariant f * Pow(2, Leading(f)) == Significand(d) * Pow(2, Leading(Significand(d)))
      decreases 0x20_0000_0000_0000 - f
    {
      OneShift(f);
      f := f * 2;
      e := e - 1;
    }
    ElevenBits();
    LeadingIs(f, 11);
    w := new DiyFp(f * 2048, e - 11);
  }

  lemma ElevenBits()
    ensures Pow(2, 11) == 2048
  {
  }

  /** Both boundaries over the exponent of the normalized upper one, which is that of the
      normalized double as well. */
  method NormalizedBoundaries(d: uint64) returns (mMinus: DiyFp, mPlus: DiyFp)
    requires 0 < d < INFINITY
    ensures fresh(mMinus) && fresh(mPlus)
    ensures Leading(Significand(d)) >= 11
    ensures var k := Leading(Significand(d));
      && mPlus.e == mMinus.e == Exponent(d) - k
      && mPlus.f == (2 * Significand(d) + 1) * Pow(2, k - 1)
      && mMinus.f == (if LowerBoundaryIsCloser(d) then (4 * Significand(d) - 1) * Pow(2, k - 2)
        else (2 * Significand(d) - 1) * Pow(2, k - 1))
  {
    hide Pow, Leading, Significand, Exponent, LowerBoundaryIsCloser;
    FieldRange(d);
    var f: uint64, e := Significand(d), Exponent(d);
    mPlus := new DiyFp(f * 2 + 1, e - 1);
    BoundaryShifts(f);
    mPlus.Normalize();
    if LowerBoundaryIsCloser(d) {
      mMinus := new DiyFp(f * 4 - 1, e - 2);
    } else {
      mMinus := new DiyFp(f * 2 - 1, e - 1);
    }
    mMinus.f := mMinus.f * Pow(2, mMinus.e - mPlus.e);
    mMinus.e := mPlus.e;
  }

  lemma BoundaryShifts(f: nat)
    requires 0 < f < 0x20_0000_0000_0000
    ensures var k := Leading(f);
      && k >= 11 && Leading(2 * f + 1) == k - 1
      && 0 < (4 * f - 1) * Pow(2, k - 2) < 0x1_0000_0000_0000_0000
      && 0 < (2 * f - 1) * Pow(2, k - 1) < 0x1_0000_0000_0000_0000
  {
    hide Pow, Leading;
    var k := Leading(f);
    LeadingShifts(f);
    AtLeastEleven(f);
    PowNext(2, k - 2);
    PowNext(2, k - 1);
    PowSplit(2, 64, k);
    TwoTo64();
    RoundUpFits(f, Pow(2, k), Pow(2, 64 - k));
    MulAssoc(f, 4, Pow(2, k - 2));
    QuarterRange(f, Pow(2, k - 2));
    LeadingIs(2 * f + 1, k - 1);
  }

  lemma QuarterRange(f: nat, p: nat)
    requires 0 < f && 0 < p && 0x8000_0000_0000_0000 <= 4 * (f * p) && 4 * (f * p) + 4 * p <= 0x1_0000_0000_0000_0000
    ensures 0 < (4 * f - 1) * p < 0x1_0000_0000_0000_0000
    ensures 0 < (2 * f - 1) * (2 * p) < 0x1_0000_0000_0000_0000
    ensures 0x8000_0000_0000_0000 <= (2 * f + 1) * (2 * p) < 0x1_0000_0000_0000_0000
  {
    QuarterShifts(f, p);
  }

  lemma QuarterShifts(f: nat, p: nat)
    requires 0 < f && 0 < p
    ensures (2 * f + 1) * (2 * p) == 4 * (f * p) + 2 * p
    ensures 0 < (4 * f - 1) * p == 4 * (f * p) - p
    ensures 0 < (2 * f - 1) * (2 * p) == 4 * (f * p) - 2 * p
  {
    MulMono(1, f, p);
  }

  lemma RoundUpFits(f: nat, p: nat, q: nat)
    requires f * p < q * p && p > 0
    ensures f * p + p <= q * p
  {
    MulCancel(q, f, p);
    MulMono(f + 1, q, p);
    Distribute(p, f, 1);
  }

  lemma {:induction false} AtLeastEleven(f: nat)
    requires 0 < f < 0x20_0000_0000_0000
    ensures 11 <= Leading(f) <= 63
  {
    hide Pow, Leading;
    var k := Leading(f);
    LeadingShifts(f);
    if k <= 10 {
      PowMono(2, k, 10);
      TenBits();
      MulMono(Pow(2, k), 1024, f);
    }
    if k >= 64 {
      PowMono(2, 64, k);
      TwoTo64();
      MulMono(1, f, Pow(2, k));
    }
  }

  lemma TenBits()
    ensures Pow(2, 10) == 1024
  {
  }

  /** Shifting significand and exponent together keeps the value. */
  lemma ScaledShift(f: int, n: nat, e: int)
    ensures Scaled(f * Pow(2, n), e - n) == Scaled(f, e)
  {
    hide Pow, RPow;
    RealProduct(f, Pow(2, n));
    TwoNat(n);
    TwoAdd(e - n, n);
    RMulAssoc(f as real, Pow(2, n) as real, Two(e - n));
  }
}
