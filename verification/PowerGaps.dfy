// How far powers of two and powers of ten are apart at the ends of the range of a double.
module PowerGaps {
  import opened Powers
  import opened RealPowers

  /** 2^93 is about a hundredth below 10^28, so this many powers apart the gap is bounded on both sides. */
  lemma {:induction false} TwosBelowTens(k: nat)
    requires k <= 11
    ensures (1.0 - (k as real) / 100.0) * Ten(28 * k) <= Two(93 * k) <= (1.0 - (k as real) / 125.0) * Ten(28 * k)
  {
    hide RPow, Two, Ten;
    if k == 0 {
      NoPowers();
    } else {
      TwosBelowTens(k - 1);
      TwoAdd(93 * (k - 1), 93);
      TenAdd(28 * (k - 1), 28);
      NinetyThree();
      OneMoreFactor((k - 1) as real, Two(93 * (k - 1)), Ten(28 * (k - 1)), Two(93), Ten(28), Two(93 * k), Ten(28 * k));
    }
  }

  lemma NoPowers()
    ensures Two(0) == 1.0 && Ten(0) == 1.0
  {
  }

  lemma OneMoreFactor(k: real, a: real, b: real, two: real, ten: real, nextA: real, nextB: real)
    requires 0.0 <= k <= 10.0 && a > 0.0 && b > 0.0 && ten > 0.0 && nextA == a * two && nextB == b * ten
    requires (1.0 - k / 100.0) * b <= a <= (1.0 - k / 125.0) * b
    requires 0.99 * ten <= two <= 0.9904 * ten
    ensures (1.0 - (k + 1.0) / 100.0) * nextB <= nextA <= (1.0 - (k + 1.0) / 125.0) * nextB
  {
    assert (two - 0.99 * ten) * a >= 0.0 && (0.9904 * ten - two) * a >= 0.0;
    var low, high := a - (1.0 - k / 100.0) * b, (1.0 - k / 125.0) * b - a;
    assert low * ten >= 0.0 && high * ten >= 0.0;
    LinearGap(k, a * two, a * ten, nextB, k * nextB);
  }

  /** at stands for a times the power of ten, and kb for k times the next one. */
  lemma LinearGap(k: real, nextA: real, at: real, nextB: real, kb: real)
    requires 0.0 <= k <= 10.0 && nextB > 0.0 && kb == k * nextB
    requires 0.99 * at <= nextA <= 0.9904 * at && nextB - kb / 100.0 <= at <= nextB - kb / 125.0
    ensures (1.0 - (k + 1.0) / 100.0) * nextB <= nextA <= (1.0 - (k + 1.0) / 125.0) * nextB
  {
    assert kb >= 0.0 && (10.0 - k) * nextB >= 0.0;
    assert (1.0 - (k + 1.0) / 100.0) * nextB == nextB - kb / 100.0 - nextB / 100.0;
    assert (1.0 - (k + 1.0) / 125.0) * nextB == nextB - kb / 125.0 - nextB / 125.0;
  }

  lemma NinetyThree()
    ensures 0.99 * Ten(28) <= Two(93) <= 0.9904 * Ten(28)
    ensures Two(51) == 2251799813685248.0 && Ten(15) == 1000000000000000.0
  {
    hide Pow;
    TwoNat(93);
    TenNat(28);
    TwoNat(51);
    TenNat(15);
    LargePowers();
  }

  lemma LargePowers()
    ensures Pow(2, 93) == 9903520314283042199192993792 && Pow(10, 28) == 10000000000000000000000000000
    ensures Pow(2, 51) == 2251799813685248 && Pow(10, 15) == 1000000000000000
  {
    hide Pow;
    FirstPowers();
    PowAdd(2, 10, 7);
    PowAdd(2, 17, 17);
    PowAdd(2, 34, 17);
    PowAdd(2, 51, 34);
    PowAdd(2, 85, 8);
    PowAdd(2, 7, 1);
    PowAdd(10, 7, 7);
    PowAdd(10, 14, 1);
    PowAdd(10, 14, 14);
  }

  lemma FirstPowers()
    ensures Pow(2, 10) == 1024 && Pow(2, 7) == 128 && Pow(2, 1) == 2 && Pow(10, 7) == 10000000 && Pow(10, 1) == 10
  {
  }

  /** 10^-323 is about two least doubles. */
  lemma LeastDoubleSize()
    ensures 1.5 * Two(-1074) < Ten(-323) < 2.105 * Two(-1074)
  {
    hide RPow, Two, Ten;
    TwosBelowTens(11);
    NinetyThree();
    TwoAdd(1023, 51);
    TenAdd(308, 15);
    TwoAdd(-1074, 1074);
    TenAdd(-323, 323);
    NoPowers();
    ProductsApart(Two(1023), Ten(308), Two(1074), Ten(323));
    Reciprocals(Two(-1074), Two(1074), Ten(-323), Ten(323));
  }

  lemma ProductsApart(a: real, b: real, two: real, ten: real)
    requires b > 0.0 && 0.89 * b <= a <= 0.912 * b
    requires two == a * 2251799813685248.0 && ten == b * 1000000000000000.0
    ensures 1.5 * ten < two < 2.105 * ten
  {
  }

  lemma Reciprocals(h: real, two: real, w: real, ten: real)
    requires h > 0.0 && w > 0.0 && ten > 0.0 && h * two == 1.0 && w * ten == 1.0 && 1.5 * ten < two < 2.105 * ten
    ensures 1.5 * h < w < 2.105 * h
  {
    var r := h * w;
    assert r > 0.0;
    assert r * two == w && r * ten == h;
    assert r * (two - 1.5 * ten) > 0.0 && r * (2.105 * ten - two) > 0.0;
  }
}
