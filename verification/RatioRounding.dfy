// From integer ratios to the reals they stand for.
module RatioRounding {
  import opened Powers
  import opened RealPowers
  import opened Decimals
  import opened DigitRatios
  import opened Ieee
  import opened DecimalRounding

  /** The ratio is v scaled down: one unit of the numerator is worth `unit`. */
  ghost predicate Stands(q: Ratio, unit: real, point: int, v: real, range: Interval) {
    && unit > 0.0
    && (q.n as real) * unit == v
    && ((q.n - q.below) as real) * unit == range.low
    && ((q.n + q.above) as real) * unit == range.high
    && (q.d as real) * unit == Ten(point - 1)
    && q.even == range.closed
  }

  /** Comparing a decimal with a multiple of the unit is comparing integers. */
  lemma CompareWithDecimal(d: nat, unit: real, point: int, y: int, j: nat, m: int)
    requires unit > 0.0 && d > 0 && (d as real) * unit == Ten(point - 1)
    ensures y * d <= m * Pow(10, j) <==> DecimalAt(y, point - 1 - j) <= (m as real) * unit
    ensures y * d >= m * Pow(10, j) <==> DecimalAt(y, point - 1 - j) >= (m as real) * unit
  {
    hide Pow, DecimalAt, Ten;
    PowPositive(j);
    DecimalTimesPower(d, unit, point, y, j);
    UnitTimesPower(unit, m, j);
    CrossCompare(DecimalAt(y, point - 1 - j), (m as real) * unit, (y * d) as real, (m * Pow(10, j)) as real,
      Pow(10, j) as real, unit);
  }

  lemma CrossCompare(x: real, y: real, a: real, b: real, p: real, unit: real)
    requires x * p == a * unit && y * p == b * unit && p > 0.0 && unit > 0.0
    ensures x <= y <==> a <= b
    ensures y <= x <==> b <= a
  {
    RMulCancel(x, y, p);
    RMulCancel(y, x, p);
    RMulCancel(a, b, unit);
    RMulCancel(b, a, unit);
  }

  lemma DecimalTimesPower(d: nat, unit: real, point: int, y: int, j: nat)
    requires (d as real) * unit == Ten(point - 1)
    ensures DecimalAt(y, point - 1 - j) * (Pow(10, j) as real) == ((y * d) as real) * unit
  {
    hide Pow, RPow;
    TenNat(j);
    TenAdd(point - 1 - j, j);
    RMulAssoc(y as real, Ten(point - 1 - j), Pow(10, j) as real);
    RealProduct(y, d);
    RMulAssoc(y as real, d as real, unit);
  }

  lemma UnitTimesPower(unit: real, m: int, j: nat)
    ensures ((m as real) * unit) * (Pow(10, j) as real) == ((m * Pow(10, j)) as real) * unit
  {
    hide Pow;
    RealProduct(m, Pow(10, j));
    RMulAssoc(m as real, unit, Pow(10, j) as real);
    RMulAssoc(m as real, Pow(10, j) as real, unit);
  }

  lemma InsideIsInRange(q: Ratio, unit: real, point: int, v: real, range: Interval, y: int, j: nat)
    requires q.Valid() && Stands(q, unit, point, v, range)
    ensures q.Inside(y, Pow(10, j)) <==> range.Has(DecimalAt(y, point - 1 - j))
  {
    hide Pow, DecimalAt;
    CompareWithDecimal(q.d, unit, point, y, j, q.n - q.below);
    CompareWithDecimal(q.d, unit, point, y, j, q.n + q.above);
  }

  /** The integer distance, scaled, is the real distance. */
  lemma DistanceIsReal(q: Ratio, unit: real, point: int, v: real, range: Interval, y: int, j: nat)
    requires q.Valid() && Stands(q, unit, point, v, range)
    ensures Abs(DecimalAt(y, point - 1 - j) - v) * (Pow(10, j) as real) == (q.Distance(y, Pow(10, j)) as real) * unit
  {
    hide Pow, DecimalAt, Ten;
    var p, x := Pow(10, j) as real, DecimalAt(y, point - 1 - j);
    CompareWithDecimal(q.d, unit, point, y, j, q.n);
    DecimalTimesPower(q.d, unit, point, y, j);
    UnitTimesPower(unit, q.n, j);
    RDistribute(x, v, p);
    RDistribute((y * q.d) as real, (q.n * Pow(10, j)) as real, unit);
    if y * q.d <= q.n * Pow(10, j) {
      assert Abs(x - v) == v - x;
      assert (q.Distance(y, Pow(10, j)) as real) == (q.n * Pow(10, j)) as real - (y * q.d) as real;
    } else {
      assert Abs(x - v) == x - v;
      assert (q.Distance(y, Pow(10, j)) as real) == (y * q.d) as real - (q.n * Pow(10, j)) as real;
    }
  }

  lemma RDistribute(a: real, b: real, c: real)
    ensures (a - b) * c == a * c - b * c && (b - a) * c == b * c - a * c
  {
  }

  /** The integer facts about the digits are the promised ones about the double. */
  lemma ShortestResultIsShortest(q: Ratio, unit: real, point: int, v: real, range: Interval, s: seq<char>)
    requires q.Valid() && Stands(q, unit, point, v, range) && ShortestResult(q, s)
    ensures range.Has(Denoted(s, point))
    ensures IsShortest(s, range) && IsClosest(s, point, v, range)
  {
    hide Pow, Ten, DecimalAt, DecimalValue, Ratio.Inside, Ratio.Distance, Interval.Has, IsShortest, Stands;
    var n, x, e := |s|, DecimalValue(s), point - |s|;
    InsideIsInRange(q, unit, point, v, range, x, n - 1);
    var coarser := e + 1;
    if n >= 2 {
      forall z: int
        ensures !range.Has(DecimalAt(z, coarser))
      {
        InsideIsInRange(q, unit, point, v, range, z, n - 2);
      }
    }
    NoneCoarserIsShortest(s, point, range);
    forall y: int | range.Has(DecimalAt(y, e))
      ensures Abs(Denoted(s, point) - v) <= Abs(DecimalAt(y, e) - v)
    {
      InsideIsInRange(q, unit, point, v, range, y, n - 1);
      CloserInReals(q, unit, point, v, range, x, y, n - 1);
    }
    forall y: int | range.Has(DecimalAt(y, e)) && y != x && Abs(DecimalAt(x, e) - v) == Abs(DecimalAt(y, e) - v)
      ensures x % 2 == 0
    {
      InsideIsInRange(q, unit, point, v, range, y, n - 1);
      CloserInReals(q, unit, point, v, range, x, y, n - 1);
      CloserInReals(q, unit, point, v, range, y, x, n - 1);
    }
  }

  lemma CloserInReals(q: Ratio, unit: real, point: int, v: real, range: Interval, x: int, y: int, j: nat)
    requires q.Valid() && Stands(q, unit, point, v, range)
    ensures q.Distance(x, Pow(10, j)) <= q.Distance(y, Pow(10, j)) <==>
      Abs(DecimalAt(x, point - 1 - j) - v) <= Abs(DecimalAt(y, point - 1 - j) - v)
  {
    hide Pow, DecimalAt, Ratio.Distance;
    DistanceIsReal(q, unit, point, v, range, x, j);
    DistanceIsReal(q, unit, point, v, range, y, j);
    PowPositive(j);
    CrossCompare(Abs(DecimalAt(x, point - 1 - j) - v), Abs(DecimalAt(y, point - 1 - j) - v),
      q.Distance(x, Pow(10, j)) as real, q.Distance(y, Pow(10, j)) as real, Pow(10, j) as real, unit);
  }

  lemma PowPositive(j: nat)
    ensures Pow(10, j) as real > 0.0
  {
  }

  /** Rounding the ratio half up at place j is rounding the number half up at that place. */
  lemma HalfUpIsRounded(n: nat, d: nat, unit: real, point: int, j: nat)
    requires unit > 0.0 && d > 0 && (d as real) * unit == Ten(point - 1)
    ensures n * Pow(10, j) >= 0
    ensures var x := HalfUp(n * Pow(10, j), d);
      RoundedHalfUp((n as real) * unit, DecimalAt(x, point - 1 - j), Ten(point - 1 - j))
  {
    hide Pow, Ten, DecimalAt;
    MulMono(0, n, Pow(10, j));
    var m, e := n * Pow(10, j), point - 1 - j;
    var x := HalfUp(m, d);
    var below: int := 2 * (x as int) - 1;
    HalfUpBounds(m, d);
    CompareWithDecimal(d, unit, point, below, j, 2 * n);
    CompareWithDecimal(d, unit, point, 2 * x + 1, j, 2 * n);
    HalfUnits(x, e);
    assert ((2 * n) as real) * unit == 2.0 * ((n as real) * unit);
    assert (2 * n) * Pow(10, j) == 2 * m;
  }

  lemma HalfUpBounds(m: nat, d: nat)
    requires d > 0
    ensures var x := HalfUp(m, d); (2 * x - 1) * d <= 2 * m < (2 * x + 1) * d
  {
    var x, r := (2 * m + d) / (2 * d), (2 * m + d) % (2 * d);
    assert 2 * m + d == 2 * d * x + r;
    Distribute(d, 2 * x, 1);
    Distribute(d, 2 * x, -1);
    MulAssoc(2, d, x);
  }

  lemma HalfUnits(x: int, e: int)
    ensures DecimalAt(2 * x - 1, e) == 2.0 * (DecimalAt(x, e) - Ten(e) / 2.0)
    ensures DecimalAt(2 * x + 1, e) == 2.0 * (DecimalAt(x, e) + Ten(e) / 2.0)
  {
    hide RPow;
  }
}
