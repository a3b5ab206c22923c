// The library's own text conversions: doubles to text with 15 digits (ToPrecision with trimming)
// and text to doubles (s4convertors.cpp).
module TextConversions {
  import opened Options
  import opened MachineInts
  import opened Powers
  import opened RealPowers
  import opened Decimals
  import opened DecimalRounding
  import opened CachedPowers
  import opened DtoaBounds
  import opened DtoaModes
  import opened AsciiDoubles
  import opened LeastDouble
  import opened Strtods
  import opened DiyFpStrtods
  import opened PowerGaps
  import opened TextLiterals
  import opened Scanners
  import opened Layouts
  import opened RoundTrips
  import opened Ieee

  /** The digits an exact or a fast conversion of d to `precision` digits may yield. */
  ghost predicate PrecisionDigits(s: seq<char>, point: int, d: int, precision: nat, magnitude: int)
    requires 0 <= d < INFINITY
  {
    if d == 0 then s == ['0'] && point == 1
    else CountedDigits(s, point, Value(d), precision, magnitude)
  }

  /** Decimal points of doubles stay within three digits. */
  lemma PointRange(s: seq<char>, point: int, d: int, precision: nat, magnitude: int)
    requires 0 <= d < INFINITY && precision > 0 && PrecisionDigits(s, point, d, precision, magnitude)
    ensures -405 < point < 405 && s != [] && AreDigits(s)
    ensures d > 0 ==> |s| == precision
  {
    hide RPow, Ten, Two, DecimalValue, DecimalAt, Value, Pow;
    if d > 0 {
      ValueRange(d);
      PowersApart();
      TenOrder(magnitude - 1, 400);
      TenOrder(-400, magnitude);
    }
  }

  function SpecialText(v: uint64): seq<char> {
    if WithoutSign(v) == INFINITY then (if Ieee.Sign(v) < 0 then ['-'] else []) + "INF" else "NAN"
  }

  /** d.ddd with an exponent if more than 14 zeros would follow the point or any the digits. */
  method ToPrecision(v: uint64, precision: int, builder: StringBuilder, table: seq<CachedPower>, ceilLog: int, estimate: int)
    returns (ok: bool, ghost l: Literal, ghost s: seq<char>, ghost point: int, ghost magnitude: int)
    requires builder.Valid() && builder.position + Max(precision, 0) + 24 < builder.buffer.Length
    requires IsPowerTable(table) && Logarithms(WithoutSign(v), ceilLog, estimate)
    modifies builder, builder.buffer
    ensures builder.Valid() && builder.position <= old(builder.position) + Max(precision, 0) + 24
    ensures var d := WithoutSign(v);
      if d >= INFINITY then ok && builder.Contents() == old(builder.Contents()) + SpecialText(v)
      else ((ok <==> 1 <= precision <= 120)
        && (ok ==> (builder.Contents() == old(builder.Contents()) + Text(l) && WellFormed(l) && l.integral != []
          && l.sign == (if v >= 0x8000_0000_0000_0000 then ['-'] else []) && Magnitude(l) == Denoted(s, point)
          && PrecisionDigits(s, point, d, precision, magnitude))))
    ensures var d := WithoutSign(v);
      d < INFINITY && ok ==> (
        && (l.exponent.Some? <==> -point + 1 > 14 || point - precision > 0)
        && (l.exponent.Some? ==> ExponentialForm(l) && DecimalExponent(l) == point - 1 && l.integral + l.fraction == s)
        && (l.exponent.None? ==> PlainForm(l) && |l.integral| == Max(point, 1) && |l.fraction| == Max(0, precision - point)))
    ensures !ok ==> builder.Contents() == old(builder.Contents())
  {
    hide IsPowerTable, Logarithms, PrecisionDigits, Text, Magnitude, DecimalAt, DecimalValue, StringBuilder.Contents, Value,
      CountedDigits, WellFormed, ExponentialForm, PlainForm, DecimalExponent;
    s, point, magnitude := [], 0, 0;
    l := Literal([], [], false, [], None);
    if WithoutSign(v) >= INFINITY {
      HandleSpecialValues(v, builder);
      return true, l, s, point, magnitude;
    }
    if precision < 1 || precision > 120 {
      return false, l, s, point, magnitude;
    }
    var decimalRep := new char[121];
    var sign, length, decimalPoint;
    sign, length, decimalPoint, magnitude := DoubleToAscii(v, Precision, precision, decimalRep, table, ceilLog, estimate);
    var digits := decimalRep[..length];
    s, point := digits, decimalPoint;
    AsciiDigits(s, point, WithoutSign(v), precision, magnitude);
    PointRange(s, point, WithoutSign(v), precision, magnitude);
    ghost var before := builder.Contents();
    if sign {
      builder.AddCharacter('-');
    }
    ghost var body := LayOut(digits, decimalPoint, precision, builder);
    l := body.(sign := if sign then ['-'] else []);
    WithSign(body, l, before);
    SignedForm(body, l);
    ok := true;
  }

  method HandleSpecialValues(v: uint64, builder: StringBuilder)
    requires WithoutSign(v) >= INFINITY && builder.Valid() && builder.position + 4 < builder.buffer.Length
    modifies builder, builder.buffer
    ensures builder.Valid() && builder.Contents() == old(builder.Contents()) + SpecialText(v)
  {
    hide StringBuilder.Contents;
    ghost var before := builder.Contents();
    if WithoutSign(v) == INFINITY {
      if Ieee.Sign(v) < 0 {
        builder.AddCharacter('-');
      }
      builder.AddSubstring("INF");
      assert before + ['-'] + "INF" == before + (['-'] + "INF");
      assert before + "INF" == before + ([] + "INF");
    } else {
      builder.AddSubstring("NAN");
    }
  }

  lemma AsciiDigits(s: seq<char>, point: int, d: int, precision: nat, magnitude: int)
    requires 0 <= d < INFINITY && precision > 0
    requires if d == 0 then s == ['0'] && point == 1
      else CountedDigits(s, point, Value(d), precision, magnitude)
    ensures PrecisionDigits(s, point, d, precision, magnitude)
  {
  }

  lemma WithSign(body: Literal, l: Literal, before: seq<char>)
    requires WellFormed(body) && body.sign == [] && (l == body || l == body.(sign := ['-']))
    ensures before + l.sign + Text(body) == before + Text(l)
    ensures WellFormed(l) && Magnitude(l) == Magnitude(body)
  {
    hide DecimalValue, DecimalAt, ExponentText, FractionText, Text;
    var rest := body.integral + (FractionText(body) + ExponentText(body.exponent));
    SameRest(body, l);
    Prefixed(before, l.sign, rest);
  }

  lemma SignedForm(body: Literal, l: Literal)
    requires l == body || l == body.(sign := ['-'])
    ensures (ExponentialForm(body) ==> ExponentialForm(l)) && (PlainForm(body) ==> PlainForm(l))
    ensures DecimalExponent(l) == DecimalExponent(body)
  {
  }

  lemma Prefixed(a: seq<char>, b: seq<char>, c: seq<char>)
    ensures a + b + c == a + (b + c) && [] + c == c
  {
  }

  lemma SameRest(body: Literal, l: Literal)
    requires l == body || l == body.(sign := ['-'])
    ensures var rest := body.integral + (FractionText(body) + ExponentText(body.exponent));
      Text(body) == body.sign + rest && Text(l) == l.sign + rest
  {
  }

  /** The choice between the two layouts, with the limits this library sets. */
  method LayOut(digits: seq<char>, decimalPoint: int, precision: nat, builder: StringBuilder) returns (ghost l: Literal)
    requires AreDigits(digits) && digits != [] && 1 <= precision <= 120 && -405 < decimalPoint < 405
    requires |digits| == precision || (|digits| == 1 && decimalPoint == 1)
    requires builder.Valid() && builder.position + precision + 23 < builder.buffer.Length
    modifies builder, builder.buffer
    ensures builder.Valid() && builder.Contents() == old(builder.Contents()) + Text(l) && builder.position <= old(builder.position) + precision + 22
    ensures WellFormed(l) && l.sign == [] && l.integral != [] && Magnitude(l) == Denoted(digits, decimalPoint)
    ensures l.exponent.Some? <==> -decimalPoint + 1 > 14 || decimalPoint - precision > 0
    ensures l.exponent.Some? ==> ExponentialForm(l) && DecimalExponent(l) == decimalPoint - 1 && l.integral + l.fraction == digits
    ensures l.exponent.None? ==> PlainForm(l) && |l.integral| == Max(decimalPoint, 1) && |l.fraction| == Max(0, precision - decimalPoint)
  {
    hide Text, Magnitude, DecimalAt, DecimalValue, StringBuilder.Contents, WellFormed, DecimalExponent;
    if -decimalPoint + 1 > 14 || decimalPoint - precision > 0 {
      l := CreateExponentialRepresentation(digits, decimalPoint - 1, builder);
    } else {
      l := CreateDecimalRepresentation(digits, decimalPoint, Max(0, precision - decimalPoint), builder);
    }
  }

  /** What the library writes for 15 digits with the decimal point there: which layout, and no zeros at the end. */
  ghost predicate IsTrimmed(m: Literal, negative: bool, point: int) {
    && m.sign == (if negative then ['-'] else [])
    && (m.fraction != [] ==> m.fraction[|m.fraction| - 1] != '0')
    && (m.exponent.Some? <==> -point + 1 > 14 || point > 15)
    && (m.exponent.Some? ==> ExponentialForm(m) && DecimalExponent(m) == point - 1)
    && (m.exponent.None? ==> PlainForm(m) && |m.integral| == Max(point, 1))
  }

  /** Doubles as the library prints them: 15 digits without the zeros at the end. */
  method FastDtoaText(v: uint64, size: nat, table: seq<CachedPower>, ceilLog: int, estimate: int)
    returns (text: seq<char>, ghost s: seq<char>, ghost point: int, ghost magnitude: int)
    requires size >= 40 && IsPowerTable(table) && Logarithms(WithoutSign(v), ceilLog, estimate)
    ensures var d := WithoutSign(v);
      if d >= INFINITY then text == SpecialText(v)
      else (Parse(text).Some?
        && (IsNegative(Parse(text).value) <==> Ieee.Sign(v) < 0) && Magnitude(Parse(text).value) == Denoted(s, point)
        && (if d == 0 then s == ['0'] && point == 1 else CountedDigits(s, point, Value(d), 15, magnitude)))
    ensures WithoutSign(v) < INFINITY ==> IsTrimmed(Parse(text).value, v >= 0x8000_0000_0000_0000, point)
  {
    hide IsPowerTable, Logarithms, Text, Parse, Magnitude, DecimalAt, DecimalValue, Value, CountedDigits, WellFormed,
      WithoutZeros, ExponentialForm, PlainForm, DecimalExponent, IsTrimmed;
    var builder := new StringBuilder(size);
    var ok;
    ghost var before := builder.Contents();
    ghost var l;
    ok, l, s, point, magnitude := ToPrecision(v, 15, builder, table, ceilLog, estimate);
    // A precision of 15 is in range, so the source's fallback to no text at all is never taken.
    if WithoutSign(v) >= INFINITY {
      assert before + SpecialText(v) == SpecialText(v);
      builder.TrimTrailingZeros(None);
    } else {
      assert before + Text(l) == Text(l);
      builder.TrimTrailingZeros(Some(l));
      TrimmingKeepsMagnitude(l);
      TrimmedIs(l, v >= 0x8000_0000_0000_0000, point);
    }
    text := builder.buffer[..builder.position];
  }

  lemma TrimmedIs(l: Literal, negative: bool, point: int)
    requires WellFormed(l) && l.sign == if negative then ['-'] else []
    requires l.exponent.Some? <==> -point + 1 > 14 || point > 15
    requires l.exponent.Some? ==> ExponentialForm(l) && DecimalExponent(l) == point - 1
    requires l.exponent.None? ==> PlainForm(l) && |l.integral| == Max(point, 1)
    ensures IsTrimmed(WithoutZeros(l), negative, point) && (IsNegative(WithoutZeros(l)) <==> negative) && l.integral != []
  {
    hide DecimalValue, WithoutZeros;
    TrimmedForm(l);
  }

  /** There is one text for each double: the digits, their point and the sign leave no choice. */
  lemma OneText(text: seq<char>, l: Literal, negative: bool, point: int)
    requires Parse(text).Some? && IsTrimmed(Parse(text).value, negative, point)
    requires WellFormed(l) && IsTrimmed(l, negative, point) && Magnitude(l) == Magnitude(Parse(text).value)
    ensures text == Text(l)
  {
    hide Parse, Text, Magnitude, DecimalValue, WellFormed, ExponentialForm, PlainForm;
    ParsedText(text);
    SameParts(Parse(text).value, l, negative, point);
    OneLiteral(Parse(text).value, l);
  }

  lemma SameParts(l: Literal, m: Literal, negative: bool, point: int)
    requires IsTrimmed(l, negative, point) && IsTrimmed(m, negative, point)
    ensures l.sign == m.sign && |l.integral| == |m.integral| && DecimalExponent(l) == DecimalExponent(m)
    ensures (PlainForm(l) && PlainForm(m)) || (ExponentialForm(l) && ExponentialForm(m))
  {
    hide DecimalValue;
  }

  /** A double that is a decimal n of 15 digits at some place is printed as the literal of exactly that value. */
  method PrintExactly(v: uint64, ghost n: int, ghost place: int, ghost l: Literal, table: seq<CachedPower>, ceilLog: int, estimate: int)
    returns (text: seq<char>)
    requires 0 < WithoutSign(v) < INFINITY && IsPowerTable(table) && Logarithms(WithoutSign(v), ceilLog, estimate)
    requires 100_000_000_000_000 <= n < 1_000_000_000_000_000 && Value(WithoutSign(v)) == DecimalAt(n, place - 15)
    requires WellFormed(l) && IsTrimmed(l, v >= 0x8000_0000_0000_0000, place) && Magnitude(l) == Value(WithoutSign(v))
    ensures text == Text(l)
  {
    hide IsPowerTable, Logarithms, Text, Parse, Magnitude, DecimalAt, DecimalValue, Value, CountedDigits, WellFormed, IsTrimmed;
    ghost var s, point, magnitude;
    text, s, point, magnitude := FastDtoaText(v, 40, table, ceilLog, estimate);
    PositiveValue(WithoutSign(v));
    FifteenDigits(n, place, Value(WithoutSign(v)), s, point, magnitude);
    CountedShape(s, point, Value(WithoutSign(v)), magnitude);
    OneText(text, l, v >= 0x8000_0000_0000_0000, point);
  }

  lemma PositiveValue(d: int)
    requires 0 < d < INFINITY
    ensures Value(d) > 0.0
  {
    hide Value, Two;
    ValueRange(d);
  }

  /** Three doubles: one with a point, one with an exponent, and the negative zero. */
  method PrintSome(table: seq<CachedPower>, ceilLog: uint64 -> int, estimate: uint64 -> int)
    returns (plain: seq<char>, exponential: seq<char>, zero: seq<char>)
    requires IsPowerTable(table) && CorrectLogarithms(ceilLog, estimate)
    ensures plain == "1.5" && exponential == "-1e20" && zero == "-0"
  {
    hide IsPowerTable, Logarithms, Text, Parse, Magnitude, DecimalAt, DecimalValue, Value, CountedDigits, WellFormed, IsTrimmed;
    ghost var l := OneAndAHalf();
    ghost var m := TenTo20();
    ghost var z := MinusZero();
    var d: uint64, e: uint64 := 0x3FF8_0000_0000_0000, 0x4415_AF1D_78B5_8C40;
    plain := PrintExactly(d, 150_000_000_000_000, 1, l, table, ceilLog(d), estimate(d));
    exponential := PrintExactly(0x8000_0000_0000_0000 + e, 100_000_000_000_000, 21, m, table, ceilLog(e), estimate(e));
    ghost var s, point, magnitude;
    zero, s, point, magnitude := FastDtoaText(0x8000_0000_0000_0000, 40, table, ceilLog(0), estimate(0));
    OneText(zero, z, true, 1);
  }

  lemma OneAndAHalf() returns (l: Literal)
    ensures Value(0x3FF8_0000_0000_0000) == DecimalAt(150_000_000_000_000, -14) == Magnitude(l)
    ensures WellFormed(l) && IsTrimmed(l, false, 1) && Text(l) == "1.5"
  {
    hide Two, Ten, DecimalValue, Significand, Exponent;
    SomeFields();
    FiftyTwoBits();
    TwoAdd(-52, 52);
    SomePowers();
    TenAdd(-14, 14);
    TenAdd(-1, 1);
    SingleDigitIs('1');
    DecimalAppend(['1'], '5');
    l := Literal([], ['1'], true, ['5'], None);
    assert l.integral + l.fraction == ['1'] + ['5'];
  }

  lemma TenTo20() returns (l: Literal)
    ensures Value(0x4415_AF1D_78B5_8C40) == DecimalAt(100_000_000_000_000, 6) == Magnitude(l)
    ensures WellFormed(l) && IsTrimmed(l, true, 21) && Text(l) == "-1e20"
  {
    hide Two, Ten, DecimalValue, Significand, Exponent;
    SomeFields();
    SomePowers();
    SingleDigitIs('1');
    SingleDigitIs('2');
    DecimalAppend(['2'], '0');
    assert ['2'] + ['0'] == ['2', '0'];
    l := Literal(['-'], ['1'], false, [], Some(ExponentPart('e', [], ['2', '0'])));
    assert l.integral + l.fraction == ['1'];
  }

  lemma SomeFields()
    ensures Significand(0x3FF8_0000_0000_0000) == 0x18_0000_0000_0000 && Exponent(0x3FF8_0000_0000_0000) == -52
    ensures Significand(0x4415_AF1D_78B5_8C40) == 6103515625000000 && Exponent(0x4415_AF1D_78B5_8C40) == 14
  {
  }

  lemma SomePowers()
    ensures Two(0) == 1.0 && Two(14) == 16384.0 && Ten(0) == 1.0 && Ten(1) == 10.0 && Ten(6) == 1000000.0
    ensures Ten(14) == 100000000000000.0 && Ten(20) == 100000000000000000000.0
  {
    hide Pow, Two, Ten;
    NoPowers();
    AdjustmentTable();
    FirstPowers();
    PowAdd(2, 7, 7);
    TwoNat(14);
    TenNat(1);
    TenNat(6);
    TenNat(14);
    TenAdd(14, 6);
  }

  lemma MinusZero() returns (l: Literal)
    ensures WellFormed(l) && IsTrimmed(l, true, 1) && Magnitude(l) == Denoted(['0'], 1) && Text(l) == "-0"
  {
    l := Literal(['-'], ['0'], false, [], None);
  }

  /** The names printed for infinity and for what is not a number are read as such. */
  method SpecialThroughText(v: uint64, table: seq<CachedPower>, hardware: (seq<char>, int) -> Option<uint64>, ceilLog: int, estimate: int)
    returns (text: seq<char>, r: Reading)
    requires WithoutSign(v) >= INFINITY && IsPowerTable(table) && StartsAtLeastPower(table) && IsCorrectHardware(hardware)
    ensures WithoutSign(v) == INFINITY ==>
      text == (if v >= 0x8000_0000_0000_0000 then "-INF" else "INF") && r == Number(v >= 0x8000_0000_0000_0000, INFINITY)
    ensures WithoutSign(v) > INFINITY ==> text == "NAN" && r.NotANumber?
  {
    hide IsPowerTable, StartsAtLeastPower, IsCorrectHardware, Parse, Magnitude, RoundsTo;
    ghost var s, point, magnitude;
    text, s, point, magnitude := FastDtoaText(v, 40, table, ceilLog, estimate);
    assert ['-'] + "INF" == "-INF" && [] + "INF" == "INF";
    var processed;
    r, processed := StringToIeee(text, table, hardware);
  }

  /** Text read to a double and printed again: a number of at most 15 digits in the normal range
      comes back as text of exactly the same value. */
  method TextThroughDouble(input: seq<char>, ghost s: seq<char>, ghost point: int, size: nat, table: seq<CachedPower>,
      hardware: (seq<char>, int) -> Option<uint64>, ceilLog: uint64 -> int, estimate: uint64 -> int)
    returns (bits: uint64, text: seq<char>)
    requires |input| < 0x3FFF_F000 && size >= 40 && Parse(input).Some?
    requires s != [] && AreDigits(s) && s[0] != '0' && |s| <= 15 && Magnitude(Parse(input).value) == Denoted(s, point)
    requires IsPowerTable(table) && StartsAtLeastPower(table) && IsCorrectHardware(hardware) && CorrectLogarithms(ceilLog, estimate)
    ensures RoundsTo(Magnitude(Parse(input).value), bits)
    ensures InNormalRange(Denoted(s, point)) ==> (Parse(text).Some?
      && Magnitude(Parse(text).value) == Magnitude(Parse(input).value)
      && IsNegative(Parse(text).value) == IsNegative(Parse(input).value))
  {
    hide IsPowerTable, Logarithms, Text, Parse, Magnitude, DecimalAt, DecimalValue, Value, CountedDigits, RoundsTo, StartsAtLeastPower,
      IsCorrectHardware, InNormalRange, Padded;
    var r, processed := StringToIeee(input, table, hardware);
    SignOfParse(input);
    bits, text := r.bits, [];
    NormalRange(Denoted(s, point), bits);
    if 0x10_0000_0000_0000 <= bits < INFINITY {
      var v: uint64 := if r.negative then bits + 0x8000_0000_0000_0000 else bits;
      ghost var t, q, m;
      text, t, q, m := FastDtoaText(v, size, table, ceilLog(bits), estimate(bits));
      FifteenDigitRoundTrip(s, point, bits, t, q, m);
      PaddedDenotes(s, point);
    }
  }

  /** The printer and the scanner agree: any digits in either layout, trimmed or not and then scanned, are read
      to the double nearest to what they denote. */
  method LayOutAndRead(digits: seq<char>, point: int, exponential: bool, places: nat, trim: bool, table: seq<CachedPower>,
      hardware: (seq<char>, int) -> Option<uint64>) returns (text: seq<char>, bits: uint64)
    requires AreDigits(digits)
    requires exponential ==> digits != [] && -9999 < point <= 10000 && |digits| < 0x1000_0000
    requires !exponential ==> |digits| - point <= places && Max(point, 1) + places < 0x1000_0000
    requires IsPowerTable(table) && StartsAtLeastPower(table) && IsCorrectHardware(hardware)
    ensures Parse(text).Some? && Magnitude(Parse(text).value) == Denoted(digits, point)
    ensures RoundsTo(Denoted(digits, point), bits)
  {
    hide IsPowerTable, StartsAtLeastPower, IsCorrectHardware, Text, Parse, Magnitude, DecimalAt, DecimalValue, RoundsTo, WellFormed,
      WithoutZeros, DecimalExponent;
    var builder := new StringBuilder(|digits| + Max(point, 1) + places + 20);
    ghost var before, l := builder.Contents(), Literal([], [], false, [], None);
    if exponential {
      l := CreateExponentialRepresentation(digits, point - 1, builder);
    } else {
      l := CreateDecimalRepresentation(digits, point, places, builder);
    }
    assert before + Text(l) == Text(l);
    ParseText(l);
    TrimmingKeepsMagnitude(l);
    if trim {
      builder.TrimTrailingZeros(Some(l));
    }
    text := builder.buffer[..builder.position];
    var r, processed := StringToIeee(text, table, hardware);
    SignOfParse(text);
    bits := r.bits;
  }

  lemma SignOfParse(t: seq<char>)
    requires Parse(t).Some?
    ensures IsNegative(Parse(t).value) <==> SignOf(t) == ['-']
    ensures !Names(t, "INF") && !Names(t, "NAN")
  {
    hide Span, ParseExponent;
    if Names(t, "INF") || Names(t, "NAN") {
      NoDigitIsJunk(t);
    }
  }

  lemma PaddedDenotes(s: seq<char>, point: int)
    requires AreDigits(s) && |s| <= 15
    ensures Denoted(Padded(s, 15), point) == Denoted(s, point)
  {
    hide DecimalValue, DecimalAt, Ten, Pow, Padded;
    PaddedValue(s, 15);
    DecimalAtShift(DecimalValue(s), point - 15, 15 - |s|);
  }
}
