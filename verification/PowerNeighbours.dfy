// How close below a power of ten a number with 53 bits can be: the binary digits of the power, over the grid
// of 53 bits, tell where the next lower point is.
module PowerNeighbours {
  import opened Powers
  import opened RealPowers
  import opened Ieee
  import opened NormalizedDoubles
  import opened PowerGaps
  import opened DecimalRounding
  import opened DtoaBounds
  import opened DtoaModes
  import opened DiyFps

  /** Below the power of ten by less than one part in 2^62 - 1. */
  predicate AlmostPower(v: real, m: int) {
    v < Ten(m) && (Ten(m) - v) * 4611686018427387903.0 < Ten(m)
  }

  /** No number with 53 bits is almost 10^m. */
  ghost predicate NoneAlmostAt(m: int) {
    forall f: nat, q: int :: f < 0x20_0000_0000_0000 ==> !AlmostPower(Scaled(f, q), m)
  }

  // ----- the grid point below a power -----

  /** A number with 53 bits that is less than the next point of a grid is at most the point below. */
  lemma NoneBetween(f: nat, e: int, q: nat, n: int)
    requires f < 0x20_0000_0000_0000 && q >= 0x10_0000_0000_0000 && Scaled(f, e) < Scaled(q + 1, n)
    ensures Scaled(f, e) <= Scaled(q, n)
  {
    hide Pow, Scaled;
    if e >= n {
      var g := f * Pow(2, e - n);
      ScaledShift(f, e - n, e);
      ScaledMono(q + 1, g, n);
      ScaledMono(g, q, n);
    } else {
      ScaledMono(f, 0x20_0000_0000_0000, e);
      ScaledUp(0x10_0000_0000_0000, e + 1);
      ScaledExponentMono(0x10_0000_0000_0000, e + 1, n);
      ScaledMono(0x10_0000_0000_0000, q, n);
    }
  }

  lemma ScaledExponentMono(f: nat, e: int, n: int)
    requires e <= n
    ensures Scaled(f, e) <= Scaled(f, n)
  {
    hide RPow, Two;
    TwoMono(e, n);
    RMulMono(Two(e), Two(n), f as real);
  }

  /** With c units of 2^k just below 10^m, the rest of c over a grid of 2^t units tells how far the next
      number with 53 bits is. */
  lemma RestKeepsAway(m: int, k: int, c: nat, slack: nat, t: nat, q: nat)
    requires Scaled(c, k) <= Ten(m) <= Scaled(c + slack, k)
    requires q >= 0x10_0000_0000_0000 && c + slack <= (q + 1) * Pow(2, t)
    requires (c - q * Pow(2, t)) * 0x3FFF_FFFF_FFFF_FFFF >= c + slack
    ensures NoneAlmostAt(m)
  {
    hide Pow, Ten, Scaled;
    var below := q * Pow(2, t);
    ScaledShift(q, t, k + t);
    ScaledShift(q + 1, t, k + t);
    ScaledMono(c + slack, (q + 1) * Pow(2, t), k);
    ScaledFactor(c - below, 0x3FFF_FFFF_FFFF_FFFF, k);
    ScaledMono(c + slack, (c - below) * 0x3FFF_FFFF_FFFF_FFFF, k);
    ScaledAdd(c - below, below, k);
    forall f: nat, e: int | f < 0x20_0000_0000_0000
      ensures !AlmostPower(Scaled(f, e), m)
    {
      if Scaled(f, e) < Ten(m) {
        NoneBetween(f, e, q, k + t);
        FarBelow(Ten(m), Scaled(f, e), Scaled(below, k), Scaled(c - below, k));
      }
    }
  }

  lemma ScaledFactor(f: int, g: int, k: int)
    ensures Scaled(f * g, k) == Scaled(f, k) * (g as real)
  {
    hide Two;
    RealProduct(f, g);
    RMulAssoc(f as real, g as real, Two(k));
  }

  lemma FarBelow(power: real, v: real, below: real, gap: real)
    requires v <= below && below + gap <= power <= gap * 4611686018427387903.0
    ensures (power - v) * 4611686018427387903.0 >= power
  {
  }

  // ----- exact powers -----

  /** A power that itself has 53 bits: its digits go on with zeros, and the point below is one unit away. */
  lemma ExactPower(m: int, f: nat, k: int)
    requires 0 < f < 0x20_0000_0000_0000 && Scaled(f, k) == Ten(m)
    ensures NoneAlmostAt(m)
  {
    hide Pow, Leading, Ten, Scaled, NoneAlmostAt;
    LeadingShifts(f);
    AtLeastEleven(f);
    var n := Leading(f) - 2;
    PowNext(2, n);
    PowNext(2, n + 1);
    ScaledShift(f, n, k);
    PowNone(2);
    RestKeepsAway(m, k - n, f * Pow(2, n), 0, 0, f * Pow(2, n) - 1);
  }

  lemma FiveUp(a: nat, k: int)
    ensures Scaled(5 * a, k + 1) == 10.0 * Scaled(a, k)
  {
    hide Two;
    ScaledUp(5 * a, k + 1);
    ScaledFactor(a, 10, k);
  }

  lemma {:induction false} FivesExact(m: nat)
    ensures Scaled(Pow(5, m), m) == Ten(m)
  {
    hide Pow, Ten, Scaled;
    if m == 0 {
      FirstExact();
    } else {
      FivesExact(m - 1);
      PowNext(5, m - 1);
      FiveUp(Pow(5, m - 1), m - 1);
      TenNext(m - 1);
    }
  }

  lemma FirstExact()
    ensures Scaled(Pow(5, 0), 0) == Ten(0)
  {
  }

  lemma TwentyTwoFives()
    ensures Pow(5, 22) == 2384185791015625
  {
    hide Pow;
    FiveTo11();
    PowAdd(5, 11, 11);
  }

  lemma NoneAtSmallPower(m: nat)
    requires m <= 23
    ensures NoneAlmostAt(m)
  {
    hide Pow, Ten, Scaled, NoneAlmostAt;
    TwentyTwoFives();
    FivesExact(m);
    if m <= 22 {
      PowMono(5, m, 22);
      ExactPower(m, Pow(5, m), m);
    } else {
      PowNext(5, 22);
      PowNext(2, 0);
      PowNone(2);
      RestKeepsAway(23, 23, Pow(5, 23), 0, 1, 5960464477539062);
    }
  }

  // ----- beyond the range of doubles -----

  lemma FarAboveDoubles(m: int, v: real)
    requires m >= 309 && v < Two(1024)
    ensures !AlmostPower(v, m)
  {
    hide Two, Ten;
    TwosBelowTens(11);
    TwoNext(1023);
    TenNext(308);
    TenMono(309, m);
  }

  lemma FarBelowDoubles(m: int, v: real)
    requires m <= -325 && v >= Two(-1074)
    ensures !AlmostPower(v, m)
  {
    hide Two, Ten;
    LeastDoubleSize();
    TenNext(-324);
    TenMono(m, -324);
  }
}
