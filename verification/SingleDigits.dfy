// Decimals of a single digit: a double never has two of them, at different decimal points, that are
// both as close as a single digit allows. Only the nine least doubles are coarse enough to ask.
module SingleDigits {
  import opened RealPowers
  import opened PowerGaps
  import opened Ieee
  import opened DecimalRounding
  import opened DtoaBounds

  /** More than half a step above the single digits the power of ten is closer. */
  lemma AboveHalfStep(x: int, u: real, v: real)
    requires x <= 9 && u > 0.0 && 2.0 * v > 19.0 * u
    ensures Abs((x as real) * u - v) > Abs(10.0 * u - v)
  {
    var y := (x as real) * u;
    UnitsBetween(x as real, x as real, 9.0, u, y);
    AboveHalfReal(y, u, v);
  }

  lemma AboveHalfReal(y: real, u: real, v: real)
    requires u > 0.0 && y <= 9.0 * u && 2.0 * v > 19.0 * u
    ensures Abs(y - v) > Abs(10.0 * u - v)
  {
  }

  /** Otherwise a double that rounds up to the power of ten has one of the nine least significands. */
  lemma FewUnits(f: nat, h: real, w: real, v: real)
    requires h > 0.0 && v == (f as real) * h && 20.0 * v <= 19.0 * w && w <= v + h / 2.0
    ensures f <= 9
  {
    RMulCancel(f as real, 9.5, h);
  }

  /** And there no power of ten is so close below the upper boundary. */
  lemma PowersApart(f: nat, p: int, h: real, w: real, v: real)
    requires 0 < f <= 9 && h == Two(-1074) && w == Ten(p) && v == (f as real) * h && w <= v + h / 2.0
    ensures 20.0 * v > 19.0 * w
  {
    hide RPow, Two, Ten;
    LeastDoubleSize();
    TenNext(-324);
    TenNext(-323);
    UnitsBetween(f as real, if f >= 2 then 2.0 else 1.0, if f >= 2 then 9.0 else 1.0, h, v);
    if p <= -324 {
      TenMono(p, -324);
    } else if p > -323 {
      TenMono(-322, p);
    }
  }

  /** A power of ten below the upper boundary is closer to the double than the single digits below it. */
  lemma PowerIsCloser(d: int, x: int, p: int)
    requires 0 < d < INFINITY && x <= 9 && Ten(p) <= Midpoint(d)
    ensures Abs(DecimalAt(x, p - 1) - Value(d)) > Abs(Ten(p) - Value(d))
  {
    hide RPow, Ten, Value, Midpoint;
    TenNext(p - 1);
    CloseToPower(d, p);
    AboveHalfStep(x, Ten(p - 1), Value(d));
  }

  lemma CloseToPower(d: int, p: int)
    requires 0 < d < INFINITY && Ten(p) <= Midpoint(d)
    ensures 20.0 * Value(d) > 19.0 * Ten(p)
  {
    hide RPow, Two, Ten, Significand, Exponent;
    var f, e := Significand(d), Exponent(d);
    FieldRange(d);
    MidpointAbove(d);
    if 20.0 * Value(d) <= 19.0 * Ten(p) {
      FewUnits(f, Two(e), Ten(p), Value(d));
      PowersApart(f, p, Two(e), Ten(p), Value(d));
    }
  }

  lemma MidpointAbove(d: int)
    requires 0 < d < INFINITY
    ensures Midpoint(d) == Value(d) + Two(Exponent(d)) / 2.0
  {
    hide RPow, Two, Significand, Exponent;
    ScaledUp(Significand(d), Exponent(d));
    ScaledAdd(2 * Significand(d), 1, Exponent(d) - 1);
    TwoNext(Exponent(d) - 1);
  }
}
