// What the safe integer decisions of the fast generators mean for the real numbers their inputs
// approximate.
module GrisuRounding {
  import opened Powers
  import opened RealPowers
  import opened Decimals
  import opened DigitGens
  import opened DecimalRounding
  import opened RatioRounding
  import opened Ieee

  /** x lies within one unit of f * 2^e, strictly. */
  ghost predicate WithinUnit(x: real, f: int, e: int) {
    Scaled(f - 1, e) < x < Scaled(f + 1, e)
  }

  ghost predicate AllFarther(x: int, e: int, v: real, range: Interval) {
    forall y: int :: y != x && range.Has(DecimalAt(y, e)) ==> Abs(DecimalAt(x, e) - v) < Abs(DecimalAt(y, e) - v)
  }

  /** Nothing else in the interval with as many places is as close to v. */
  ghost predicate OnlyClosest(s: seq<char>, point: int, v: real, range: Interval) {
    AllFarther(DecimalValue(s), point - |s|, v, range)
  }

  /** The common small unit of the integers: errors and digits are both multiples of it. */
  lemma CommonUnit(kappa: int, e: int) returns (r: real)
    requires e <= 0
    ensures var (tenKappa, unit) := Weights(kappa, Pow(2, -e));
      && r > 0.0 && tenKappa > 0 && unit > 0
      && (tenKappa as real) * r == Ten(kappa) && (unit as real) * r == Two(e)
  {
    hide Pow, RPow, Ten, Two;
    var one := Pow(2, -e);
    TwoNat(-e);
    if kappa >= 0 {
      r := Two(e);
      TenNat(kappa);
      MulStrict(0, Pow(10, kappa), one);
      RealProduct(Pow(10, kappa), one);
      RMulAssoc(Pow(10, kappa) as real, one as real, r);
    } else {
      r := Two(e) * Ten(kappa);
      TenNat(-kappa);
      RMulMono(0.0, Two(e), Ten(kappa));
      RMulAssoc(one as real, Two(e), Ten(kappa));
      RMulAssoc(Pow(10, -kappa) as real, Two(e), Ten(kappa));
    }
  }

  /** A multiple of the digit weight and a multiple of the error unit compare as integers do. */
  lemma CompareMultiples(y: int, tenKappa: nat, kappa: int, m: int, unit: nat, e: int, r: real)
    requires r > 0.0 && (tenKappa as real) * r == Ten(kappa) && (unit as real) * r == Two(e)
    ensures y * tenKappa < m * unit <==> DecimalAt(y, kappa) < Scaled(m, e)
    ensures y * tenKappa > m * unit <==> DecimalAt(y, kappa) > Scaled(m, e)
  {
    hide Ten, Two;
    RealProduct(y, tenKappa);
    RealProduct(m, unit);
    RMulAssoc(y as real, tenKappa as real, r);
    RMulAssoc(m as real, unit as real, r);
    RMulCancel((y * tenKappa) as real, (m * unit) as real, r);
    RMulCancel((m * unit) as real, (y * tenKappa) as real, r);
  }

  /** The same for points half way between two multiples. */
  lemma CompareHalves(x: int, tenKappa: nat, kappa: int, m: int, unit: nat, e: int, r: real, up: bool)
    requires r > 0.0 && (tenKappa as real) * r == Ten(kappa) && (unit as real) * r == Two(e)
    ensures var y := if up then 2 * (x * tenKappa) + tenKappa else 2 * (x * tenKappa) - tenKappa;
      var half := if up then DecimalAt(x, kappa) + Ten(kappa) / 2.0 else DecimalAt(x, kappa) - Ten(kappa) / 2.0;
      && (y >= 2 * (m * unit) ==> half >= Scaled(m, e))
      && (y <= 2 * (m * unit) ==> half <= Scaled(m, e))
  {
    hide Ten, Two, DecimalAt, Scaled;
    var z := if up then 2 * x + 1 else 2 * x - 1;
    assert z * tenKappa == if up then 2 * (x * tenKappa) + tenKappa else 2 * (x * tenKappa) - tenKappa;
    CompareMultiples(z, tenKappa, kappa, 2 * m, unit, e, r);
    HalfUnits(x, kappa);
    assert 2 * m * unit == 2 * (m * unit);
    assert Scaled(2 * m, e) == 2.0 * Scaled(m, e) by {
      ScaledAdd(m, m, e);
    }
  }

  /** Grisu soundness: digits found safe are strictly inside, and strictly the closest there. */
  lemma SafeIsClosest(x: int, kappa: int, e: int, low: int, w: int, high: int, range: Interval, v: real)
    requires e <= 0
    requires var (tenKappa, unit) := Weights(kappa, Pow(2, -e)); SafeDigits(x, tenKappa, low, w, high, unit)
    requires WithinUnit(range.low, low, e) && WithinUnit(v, w, e) && WithinUnit(range.high, high, e)
    ensures range.low < DecimalAt(x, kappa) < range.high
    ensures AllFarther(x, kappa, v, range)
  {
    hide Pow, Ten, Two, DecimalAt, Scaled;
    var (tenKappa, unit) := Weights(kappa, Pow(2, -e));
    var r := CommonUnit(kappa, e);
    CompareMultiples(x, tenKappa, kappa, low + 3, unit, e, r);
    CompareMultiples(x, tenKappa, kappa, high - 1, unit, e, r);
    ScaledMono(low + 1, low + 3, e);
    CompareHalves(x, tenKappa, kappa, w + 1, unit, e, r, true);
    CompareHalves(x, tenKappa, kappa, w - 1, unit, e, r, false);
    forall y: int | y != x && range.Has(DecimalAt(y, kappa))
      ensures Abs(DecimalAt(x, kappa) - v) < Abs(DecimalAt(y, kappa) - v)
    {
      FartherInside(x, y, tenKappa, kappa, low, w, high, unit, range, v, e, r);
    }
  }

  lemma FartherInside(x: int, y: int, tenKappa: nat, kappa: int, low: int, w: int, high: int, unit: nat, range: Interval, v: real, e: int, r: real)
    requires SafeDigits(x, tenKappa, low, w, high, unit) && y != x && range.Has(DecimalAt(y, kappa))
    requires WithinUnit(range.low, low, e) && WithinUnit(v, w, e) && WithinUnit(range.high, high, e)
    requires 2 * (x * tenKappa) + tenKappa >= 2 * ((w + 1) * unit) ==> DecimalAt(x, kappa) + Ten(kappa) / 2.0 >= Scaled(w + 1, e)
    requires 2 * (x * tenKappa) - tenKappa <= 2 * ((w - 1) * unit) ==> DecimalAt(x, kappa) - Ten(kappa) / 2.0 <= Scaled(w - 1, e)
    requires r > 0.0 && (tenKappa as real) * r == Ten(kappa) && (unit as real) * r == Two(e)
    ensures Abs(DecimalAt(x, kappa) - v) < Abs(DecimalAt(y, kappa) - v)
  {
    hide Ten, Two, DecimalAt, Scaled, SafeDigits;
    CompareMultiples(y, tenKappa, kappa, low - 1, unit, e, r);
    CompareMultiples(y, tenKappa, kappa, high + 1, unit, e, r);
    Farther(x, y, tenKappa, kappa, low, w, high, unit, v, e);
  }

  lemma Farther(x: int, y: int, tenKappa: nat, kappa: int, low: int, w: int, high: int, unit: nat, v: real, e: int)
    requires SafeDigits(x, tenKappa, low, w, high, unit) && y != x
    requires (low - 1) * unit < y * tenKappa < (high + 1) * unit
    requires 2 * (x * tenKappa) + tenKappa >= 2 * ((w + 1) * unit) ==> DecimalAt(x, kappa) + Ten(kappa) / 2.0 >= Scaled(w + 1, e)
    requires 2 * (x * tenKappa) - tenKappa <= 2 * ((w - 1) * unit) ==> DecimalAt(x, kappa) - Ten(kappa) / 2.0 <= Scaled(w - 1, e)
    requires WithinUnit(v, w, e)
    ensures Abs(DecimalAt(x, kappa) - v) < Abs(DecimalAt(y, kappa) - v)
  {
    hide Ten, DecimalAt, Scaled;
    NextMultiple(x, kappa);
    if y > x {
      MulMono(x + 1, y, tenKappa);
      DecimalAtMono(x + 1, y, kappa);
    } else {
      MulMono(y, x - 1, tenKappa);
      DecimalAtMono(y, x - 1, kappa);
    }
  }

  lemma NextMultiple(x: int, kappa: int)
    ensures DecimalAt(x + 1, kappa) == DecimalAt(x, kappa) + Ten(kappa)
    ensures DecimalAt(x - 1, kappa) == DecimalAt(x, kappa) - Ten(kappa)
  {
    hide Ten;
  }

  lemma NoShorterIsNoMultiple(p: int, kappa: int, e: int, low: int, high: int, range: Interval)
    requires e <= 0
    requires var (tenKappa, unit) := Weights(kappa, Pow(2, -e)); NoShorter(p, tenKappa, low, high, unit)
    requires WithinUnit(range.low, low, e) && WithinUnit(range.high, high, e)
    ensures NoMultiple(kappa + 1, range)
  {
    hide Pow, Ten, Two, DecimalAt, Scaled;
    var (tenKappa, unit) := Weights(kappa, Pow(2, -e));
    var r := CommonUnit(kappa, e);
    var coarser := kappa + 1;
    forall z: int
      ensures !range.Has(DecimalAt(z, coarser))
    {
      TenTimes(z, kappa);
      CompareMultiples(10 * z, tenKappa, kappa, low - 1, unit, e, r);
      CompareMultiples(10 * z, tenKappa, kappa, high + 1, unit, e, r);
      MulAssoc(10, z, tenKappa);
      if z <= p {
        MulMono(z, p, tenKappa);
      } else {
        MulMono(p + 1, z, tenKappa);
        Distribute(tenKappa, p, 1);
      }
    }
  }

  lemma TenTimes(z: int, kappa: int)
    ensures DecimalAt(z, kappa + 1) == DecimalAt(10 * z, kappa)
  {
    hide RPow;
    TenNext(kappa);
  }

  /** The result of DigitGen, over the reals. */
  lemma GeneratedIsShortest(s: seq<char>, kappa: int, e: int, low: int, w: int, high: int, range: Interval, v: real)
    requires e <= 0 && Generated(s, kappa, Pow(2, -e), low, w, high)
    requires WithinUnit(range.low, low, e) && WithinUnit(v, w, e) && WithinUnit(range.high, high, e)
    ensures s != [] && AreDigits(s) && s[0] != '0'
    ensures range.low < Denoted(s, kappa + |s|) < range.high
    ensures IsShortest(s, range) && OnlyClosest(s, kappa + |s|, v, range)
  {
    hide Pow, Ten, Two, DecimalAt, Scaled, WithinUnit, IsShortest, SafeDigits, NoShorter, AllFarther, DecimalValue;
    SafeIsClosest(DecimalValue(s), kappa, e, low, w, high, range, v);
    if |s| >= 2 {
      NoShorterIsNoMultiple(DecimalValue(s[..|s| - 1]), kappa, e, low, high, range);
    }
    NoneCoarserIsShortest(s, kappa + |s|, range);
  }

  // ----- scaling by a power of ten -----

  function ScaledInterval(range: Interval, k: int): Interval {
    Interval(range.low * Ten(k), range.high * Ten(k), range.closed)
  }

  lemma HasScaled(range: Interval, x: real, z: real, k: int)
    requires z == x * Ten(k)
    ensures range.Has(x) <==> ScaledInterval(range, k).Has(z)
  {
    hide Ten;
    RMulCancel(range.low, x, Ten(k));
    RMulCancel(x, range.high, Ten(k));
  }

  lemma DecimalAtScaled(y: int, e: int, k: int)
    ensures DecimalAt(y, e) * Ten(k) == DecimalAt(y, e + k)
  {
    hide Ten;
    TenAdd(e, k);
    RMulAssoc(y as real, Ten(e), Ten(k));
  }

  /** Shortest and closest survive dividing everything by a power of ten. */
  lemma Unscale(s: seq<char>, point: int, v: real, range: Interval, k: int, w: real)
    requires w == v * Ten(k)
    requires IsShortest(s, ScaledInterval(range, k)) && OnlyClosest(s, point + k, w, ScaledInterval(range, k))
    requires ScaledInterval(range, k).Has(Denoted(s, point + k))
    ensures range.Has(Denoted(s, point)) && IsShortest(s, range) && OnlyClosest(s, point, v, range)
  {
    hide Pow, Ten, DecimalAt, DecimalValue, Interval.Has, ScaledInterval;
    var x, e := DecimalValue(s), point - |s|;
    var scaled, ek := ScaledInterval(range, k), e + k;
    assert AllFarther(x, ek, w, scaled);
    DecimalAtScaled(x, e, k);
    HasScaled(range, DecimalAt(x, e), DecimalAt(x, ek), k);
    forall y: nat, m: nat, f: int | 0 < y < Pow(10, m) && range.Has(DecimalAt(y, f))
      ensures |s| <= m
    {
      var fk := f + k;
      DecimalAtScaled(y, f, k);
      HasScaled(range, DecimalAt(y, f), DecimalAt(y, fk), k);
      assert scaled.Has(DecimalAt(y, fk));
    }
    forall y: int | y != x && range.Has(DecimalAt(y, e))
      ensures Abs(DecimalAt(x, e) - v) < Abs(DecimalAt(y, e) - v)
    {
      DecimalAtScaled(y, e, k);
      HasScaled(range, DecimalAt(y, e), DecimalAt(y, ek), k);
      assert scaled.Has(DecimalAt(y, ek));
      assert Abs(DecimalAt(x, ek) - w) < Abs(DecimalAt(y, ek) - w);
      CloserUnscaled(DecimalAt(x, e), DecimalAt(y, e), v, Ten(k), DecimalAt(x, ek), DecimalAt(y, ek), w);
    }
  }

  lemma CloserUnscaled(x: real, y: real, v: real, t: real, xt: real, yt: real, vt: real)
    requires t > 0.0 && xt == x * t && yt == y * t && vt == v * t && Abs(xt - vt) < Abs(yt - vt)
    ensures Abs(x - v) < Abs(y - v)
  {
    hide Abs;
    DistanceScaled(x, v, t, xt, vt);
    DistanceScaled(y, v, t, yt, vt);
    RMulCancel(Abs(x - v), Abs(y - v), t);
  }

  lemma DistanceScaled(x: real, v: real, t: real, xt: real, vt: real)
    requires t > 0.0 && xt == x * t && vt == v * t
    ensures Abs(xt - vt) == Abs(x - v) * t
  {
    RMulCancel(x, v, t);
    RDistribute(x, v, t);
  }
}
