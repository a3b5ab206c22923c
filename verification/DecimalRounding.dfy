// What printed digits promise, over the reals: the shortest digits inside an interval, and
// rounding half up to a place.
module DecimalRounding {
  import opened Powers
  import opened RealPowers
  import opened Decimals
  import opened Ieee

  /** The number y * 10^e. */
  function DecimalAt(y: int, e: int): real { (y as real) * Ten(e) }

  /** The number written as the digits s with the decimal point after `point` of them. */
  function Denoted(s: seq<char>, point: int): real { DecimalAt(DecimalValue(s), point - |s|) }

  datatype Interval = Interval(low: real, high: real, closed: bool) {
    predicate Has(x: real) {
      if closed then low <= x <= high else low < x < high
    }
  }

  /** The numbers that read back as d. */
  function ReadsBack(d: int): Interval
    requires 0 < d < INFINITY
  {
    Interval(Midpoint(d - 1), Midpoint(d), d % 2 == 0)
  }

  /** No number in the interval has fewer digits, wherever its decimal point is. */
  ghost predicate IsShortest(s: seq<char>, range: Interval) {
    forall y: nat, m: nat, e: int :: 0 < y < Pow(10, m) && range.Has(DecimalAt(y, e)) ==> |s| <= m
  }

  ghost predicate EvenOnTie(x: int, e: int, v: real, range: Interval) {
    forall y: int :: range.Has(DecimalAt(y, e)) && y != x && Abs(DecimalAt(x, e) - v) == Abs(DecimalAt(y, e) - v) ==> x % 2 == 0
  }

  ghost predicate ClosestMultiple(x: real, e: int, v: real, range: Interval) {
    forall y: int :: range.Has(DecimalAt(y, e)) ==> Abs(x - v) <= Abs(DecimalAt(y, e) - v)
  }

  /** Among the numbers in the interval with as many places, none is closer to v, and if another one is
      as close then the last digit is even. */
  ghost predicate IsClosest(s: seq<char>, point: int, v: real, range: Interval) {
    ClosestMultiple(Denoted(s, point), point - |s|, v, range) && EvenOnTie(DecimalValue(s), point - |s|, v, range)
  }

  /** No multiple of 10^e lies in the interval. */
  ghost predicate NoMultiple(e: int, range: Interval) {
    forall z: int :: !range.Has(DecimalAt(z, e))
  }

  /** x is v rounded to a multiple of the unit, halves up. */
  predicate RoundedHalfUp(v: real, x: real, unit: real) {
    x - unit / 2.0 <= v < x + unit / 2.0
  }

  lemma DecimalAtShift(y: int, e: int, k: nat)
    ensures DecimalAt(y * Pow(10, k), e) == DecimalAt(y, e + k)
  {
    hide Pow, Ten;
    RealProduct(y, Pow(10, k));
    TenNat(k);
    TenAdd(e, k);
    RMulAssoc(y as real, Pow(10, k) as real, Ten(e));
  }

  lemma DecimalAtMono(y: int, z: int, e: int)
    ensures y <= z ==> DecimalAt(y, e) <= DecimalAt(z, e)
    ensures y < z ==> DecimalAt(y, e) < DecimalAt(z, e)
  {
    RMulMono(y as real, z as real, Ten(e));
  }

  lemma DecimalAtPower(m: nat, e: int)
    ensures DecimalAt(Pow(10, m), e) == Ten(e + m)
  {
    hide Pow, Ten;
    TenNat(m);
    TenAdd(e, m);
  }

  /** If nothing coarser lies in the interval, nothing shorter does either: a number with fewer
      digits is a coarser one, or lies below a power of ten that would itself be inside. */
  lemma NoneCoarserIsShortest(s: seq<char>, point: int, range: Interval)
    requires s != [] && AreDigits(s) && s[0] != '0' && range.Has(Denoted(s, point))
    requires |s| >= 2 ==> NoMultiple(point - |s| + 1, range)
    ensures IsShortest(s, range)
  {
    hide Pow, Ten, DecimalAt, DecimalValue;
    forall y: nat, m: nat, e: int | 0 < y < Pow(10, m) && range.Has(DecimalAt(y, e))
      ensures |s| <= m
    {
      if m < |s| {
        ShorterIsCoarser(s, point, range, y, m, e);
      }
    }
  }

  lemma ShorterIsCoarser(s: seq<char>, point: int, range: Interval, y: nat, m: nat, e: int)
    requires s != [] && AreDigits(s) && s[0] != '0' && range.Has(Denoted(s, point))
    requires 0 < y < Pow(10, m) && range.Has(DecimalAt(y, e)) && m < |s|
    ensures |s| >= 2 && !NoMultiple(point - |s| + 1, range)
  {
    hide Pow, Ten, DecimalAt, DecimalValue;
    var n := |s|;
    if m == 0 {
      PowNone(10);
    }
    if e >= point - n + 1 {
      var k := e - (point - n + 1);
      DecimalAtShift(y, point - n + 1, k);
    } else {
      // y * 10^e < 10^(point - 1) <= the digits
      LeadingDigit(s);
      DecimalAtMono(y, Pow(10, m), e);
      DecimalAtPower(m, e);
      DecimalAtPower(n - 1, point - n);
      DecimalAtMono(Pow(10, n - 1), DecimalValue(s), point - n);
      DecimalAtPower(n - 2, point - n + 1);
      TenMono(e + m, point - 1);
    }
  }

  lemma TenMono(a: int, b: int)
    requires a <= b
    ensures Ten(a) <= Ten(b)
  {
    hide RPow;
    RPowMono(10, a, b);
  }

  lemma {:induction false} LeadingDigit(s: seq<char>)
    requires s != [] && AreDigits(s) && s[0] != '0'
    ensures Pow(10, |s| - 1) <= DecimalValue(s) < Pow(10, |s|)
  {
    DecimalBounds(s);
    if |s| == 1 {
      assert s[..0] == [];
    } else {
      LeadingDigit(s[..|s| - 1]);
    }
  }

  /** The interval of d is exactly what rounds to d. */
  lemma ReadsBackRounds(x: real, d: int)
    requires 0 < d < INFINITY
    ensures ReadsBack(d).Has(x) <==> RoundsTo(x, d)
  {
    hide Midpoint, Value;
    MidpointIsMiddle(d - 1);
  }
}
