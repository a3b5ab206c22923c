// Which of two equally close shortest decimals is printed.
module DecimalTies {
  import opened Powers
  import opened RealPowers
  import opened Decimals
  import opened Ieee
  import opened DecimalRounding
  import opened DtoaModes
  import opened AsciiDoubles

  /** If two neighbouring decimals are equally close, the upper one is printed exactly if the last digit of
      the lower one is odd. */
  lemma UpperOnTie(s: seq<char>, p: int, d: int, low: int)
    requires 0 < d < INFINITY && ShortestDigits(s, p, d)
    requires ReadsBack(d).Has(DecimalAt(low, p - |s|)) && ReadsBack(d).Has(DecimalAt(low + 1, p - |s|))
    requires Abs(DecimalAt(low, p - |s|) - Value(d)) == Abs(DecimalAt(low + 1, p - |s|) - Value(d))
    ensures DecimalValue(s) == if low % 2 == 1 then low + 1 else low
  {
    hide Pow, Ten, Midpoint, Value, DecimalValue, DecimalAt, ReadsBack, Interval.Has;
    var x, e := DecimalValue(s), p - |s|;
    DecimalAtMono(low, low + 1, e);
    DecimalAtMono(x, low, e);
    DecimalAtMono(low + 1, x, e);
    assert x == low || x == low + 1;
  }

  /** A double half way between two decimals of 16 digits. */
  const HALF_WAY := 0x3FE0_0010_0000_0000

  lemma HalfWayFields()
    ensures 0 < HALF_WAY < INFINITY && HALF_WAY % 2 == 0
    ensures Significand(HALF_WAY) == 4503668346847232 && Exponent(HALF_WAY) == -53
    ensures Significand(HALF_WAY - 1) == 4503668346847231 && Exponent(HALF_WAY - 1) == -53
  {
  }

  /** Its size in units of 10^-16, and that of the boundaries around it. */
  lemma HalfWaySize()
    ensures var u := Ten(-16);
      && Value(HALF_WAY) == 5000076293945312.5 * u
      && 5000076293945311.9 * u < Midpoint(HALF_WAY - 1) < 5000076293945312.0 * u
      && 5000076293945313.0 * u < Midpoint(HALF_WAY) < 5000076293945313.1 * u
  {
    hide Pow, Two, Ten, Significand, Exponent;
    HalfWayFields();
    TwoNat(54);
    TenNat(16);
    SixteenAndFiftyFour();
    TwoNext(-54);
  }

  lemma SixteenAndFiftyFour()
    ensures Pow(2, 54) == 18014398509481984 && Pow(10, 16) == 10000000000000000
  {
    hide Pow;
    TiePowers();
    PowAdd(2, 9, 9);
    PowAdd(2, 18, 18);
    PowAdd(2, 36, 18);
    PowAdd(10, 8, 8);
  }

  lemma TiePowers()
    ensures Pow(2, 9) == 512 && Pow(10, 8) == 100000000 && Pow(10, 4) == 10000
  {
  }

  lemma HalfWayDigits()
    ensures AreDigits("5000076293945312") && DecimalValue("5000076293945312") == 5000076293945312
  {
    hide Pow, DecimalValue;
    TiePowers();
    FourDigits('5', '0', '0', '0');
    FourDigits('0', '7', '6', '2');
    FourDigits('9', '3', '9', '4');
    FourDigits('5', '3', '1', '2');
    assert "5000" + "0762" == "50000762" && "9394" + "5312" == "93945312" && "50000762" + "93945312" == "5000076293945312";
    DecimalConcat("5000", "0762");
    DecimalConcat("9394", "5312");
    DecimalConcat("50000762", "93945312");
  }

  lemma FourDigits(a: char, b: char, c: char, d: char)
    ensures DecimalValue([a, b, c, d]) == 1000 * Digit(a) + 100 * Digit(b) + 10 * Digit(c) + Digit(d)
  {
    hide DecimalValue;
    DecimalNone([]);
    DecimalAppend([], a);
    DecimalAppend([a], b);
    DecimalAppend([a, b], c);
    DecimalAppend([a, b, c], d);
    assert [] + [a] == [a] && [a] + [b] == [a, b] && [a, b] + [c] == [a, b, c] && [a, b, c] + [d] == [a, b, c, d];
  }

  /** Only two decimals of 16 places read back. */
  lemma OnlyTwo(y: int)
    ensures var v, x := Value(HALF_WAY), DecimalAt(y, -16);
      ReadsBack(HALF_WAY).Has(x) <==> y == 5000076293945312 || y == 5000076293945313
    ensures DecimalAt(y, -16) == (y as real) * Ten(-16)
  {
    hide Ten, Midpoint, Value;
    HalfWayFields();
    HalfWaySize();
    InUnits(y as real, Ten(-16), DecimalAt(y, -16));
  }

  lemma InUnits(y: real, u: real, x: real)
    requires u > 0.0 && x == y * u
    ensures 5000076293945311.9 * u < x ==> 5000076293945311.9 < y
    ensures x < 5000076293945313.1 * u ==> y < 5000076293945313.1
    ensures y == 5000076293945312.0 ==> x == 5000076293945312.0 * u
    ensures y == 5000076293945313.0 ==> x == 5000076293945313.0 * u
  {
    if y <= 5000076293945311.9 {
      UnitsBetween(y, y, 5000076293945311.9, u, x);
    }
    if y >= 5000076293945313.1 {
      UnitsBetween(y, 5000076293945313.1, y, u, x);
    }
  }

  /** The upper one of two equally close decimals is not always taken, whatever bignum-dtoa.h says: the lower
      one is printed for this double. */
  lemma NotAlwaysUp(s: seq<char>, p: int)
    requires ShortestDigits(s, p, HALF_WAY)
    ensures s == "5000076293945312" && p == 0
    ensures ReadsBack(HALF_WAY).Has(DecimalAt(5000076293945313, -16))
    ensures Abs(DecimalAt(5000076293945313, -16) - Value(HALF_WAY)) == Abs(Denoted(s, p) - Value(HALF_WAY))
  {
    hide Pow, Ten, Midpoint, Value, DecimalValue, DecimalAt, ReadsBack, Interval.Has;
    HalfWayShortest();
    ShortestUnique(s, p, "5000076293945312", 0, HALF_WAY);
    HalfWayDigits();
    HalfWaySize();
    OnlyTwo(5000076293945312);
    OnlyTwo(5000076293945313);
  }

  lemma HalfWayShortest()
    ensures ShortestDigits("5000076293945312", 0, HALF_WAY)
  {
    hide Pow, Ten, Midpoint, Value, DecimalValue, IsShortest, DecimalAt, ReadsBack, Interval.Has;
    var t, x := "5000076293945312", 5000076293945312;
    HalfWayDigits();
    HalfWaySize();
    OnlyTwo(x);
    PowNone(10);
    PowNext(10, 0);
    forall z: int
      ensures !ReadsBack(HALF_WAY).Has(DecimalAt(z, -15))
    {
      DecimalAtShift(z, -16, 1);
      assert z * Pow(10, 1) == 10 * z;
      OnlyTwo(10 * z);
    }
    NoneCoarserIsShortest(t, 0, ReadsBack(HALF_WAY));
    forall y: int | ReadsBack(HALF_WAY).Has(DecimalAt(y, -16))
      ensures Abs(DecimalAt(x, -16) - Value(HALF_WAY)) <= Abs(DecimalAt(y, -16) - Value(HALF_WAY))
    {
      OnlyTwo(y);
    }
  }
}
