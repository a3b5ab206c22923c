// Laying out digits as text (double-conversion.cc) in a StringBuilder (utils.h), and trimming the
// zeros of the result.
module Layouts {
  import opened Options
  import opened MachineInts
  import opened Powers
  import opened RealPowers
  import opened Decimals
  import opened DecimalRounding
  import opened DigitFilling
  import opened TextLiterals

  ghost predicate NoPointIn(t: seq<char>, from: nat, to: nat) {
    forall i :: from <= i < to && i < |t| ==> t[i] != '.'
  }

  function Repeated(c: char, n: nat): (s: seq<char>)
    ensures |s| == n && forall i :: 0 <= i < n ==> s[i] == c
  {
    if n == 0 then [] else Repeated(c, n - 1) + [c]
  }

  /** The digits up to the last one that is not zero. */
  function StripZeros(s: seq<char>): (t: seq<char>)
    ensures t <= s && (t != [] ==> t[|t| - 1] != '0')
  {
    if s == [] || s[|s| - 1] != '0' then s else StripZeros(s[..|s| - 1])
  }

  /** The literal without the zeros that end its fraction. */
  function WithoutZeros(l: Literal): Literal {
    if !l.dot then l
    else
      var kept := StripZeros(l.fraction);
      l.(dot := kept != [], fraction := kept)
  }

  class StringBuilder {
    const buffer: array<char>
    var position: int

    ghost predicate Valid()
      reads this, buffer
    {
      0 <= position <= buffer.Length
    }

    ghost function Contents(): (s: seq<char>)
      reads this, buffer
      requires Valid()
      ensures |s| == position
    {
      buffer[..position]
    }

    constructor (size: nat)
      ensures Valid() && fresh(buffer) && buffer.Length == size && Contents() == []
    {
      buffer := new char[size];
      position := 0;
    }

    method Reset()
      modifies this
      ensures Valid() && Contents() == []
    {
      position := 0;
    }

    method AddCharacter(c: char)
      requires Valid() && position < buffer.Length
      modifies this, buffer
      ensures Valid() && Contents() == old(Contents()) + [c]
    {
      buffer[position] := c;
      position := position + 1;
    }

    /** The characters may come from the buffer itself: they are moved as a whole. */
    method AddSubstring(s: seq<char>)
      requires Valid() && position + |s| < buffer.Length
      modifies this, buffer
      ensures Valid() && Contents() == old(Contents()) + s
    {
      ghost var before := Contents();
      forall i | 0 <= i < |s| {
        buffer[position + i] := s[i];
      }
      position := position + |s|;
      assert Contents() == before + s;
    }

    method AddPadding(c: char, count: int)
      requires Valid() && position + Max(count, 0) < buffer.Length
      modifies this, buffer
      ensures Valid() && Contents() == old(Contents()) + Repeated(c, Max(count, 0))
    {
      ghost var before := Contents();
      assert before + Repeated(c, 0) == before;
      var i := 0;
      while i < count
        invariant 0 <= i <= Max(count, 0) && Valid() && position == |before| + i
        invariant Contents() == before + Repeated(c, i)
      {
        AddCharacter(c);
        assert Repeated(c, i + 1) == Repeated(c, i) + [c];
        i := i + 1;
      }
    }

    /** Removes the zeros at the end of the fraction, and a point left without digits; an exponent
        moves up behind what remains. */
    method TrimTrailingZeros(ghost number: Option<Literal>)
      requires Valid() && position < buffer.Length
      requires if number.Some? then WellFormed(number.value) && Contents() == Text(number.value)
        else NoPointIn(Contents(), 0, position)
      modifies this, buffer
      ensures Valid() && position <= old(position)
      ensures Contents() == if number.Some? then Text(WithoutZeros(number.value)) else old(Contents())
    {
      hide Text, WellFormed, WithoutZeros;
      ghost var before := Contents();
      ghost var l := if number.Some? then number.value else Literal([], [], false, [], None);
      var dotPos := 0;
      ghost var trimmed := false;
      while dotPos < position
        invariant 0 <= dotPos && Valid() && position <= old(position)
        invariant !trimmed ==> Contents() == before && NoPointIn(before, 0, dotPos)
        invariant trimmed ==> number.Some? && Contents() == Text(WithoutZeros(l)) && NoPointIn(Contents(), dotPos, position)
        decreases buffer.Length - dotPos
      {
        if buffer[dotPos] == '.' {
          assert !trimmed;
          OnlyPoint(l, dotPos);
          TrimAt(dotPos, l);
          trimmed := true;
          PointStays(l, dotPos);
        }
        dotPos := dotPos + 1;
      }
      if !trimmed && number.Some? {
        NoPointAtAll(l);
      }
    }

    /** Looks for the exponent from the end of the text. */
    method FindExponent(dotPos: nat, ghost l: Literal) returns (powSize: nat, powPos: nat)
      requires Valid() && WellFormed(l) && l.dot && Contents() == Text(l) && dotPos == |l.sign| + |l.integral|
      ensures powPos + powSize <= position && buffer[powPos..powPos + powSize] == ExponentText(l.exponent)
      ensures powSize == |ExponentText(l.exponent)|
    {
      hide Text, ExponentText, WellFormed;
      ghost var at := dotPos + 1 + |l.fraction|;
      MarkIsLast(l);
      powSize, powPos := 0, position - 1;
      while powPos > dotPos
        invariant dotPos <= powPos < position && (l.exponent.Some? ==> at <= powPos)
        decreases powPos
      {
        if buffer[powPos] == 'e' || buffer[powPos] == 'E' {
          MarkAt(l, powPos);
          powSize := position - powPos;
          assert buffer[powPos..position] == Contents()[at..];
          return;
        }
        assert Contents()[powPos] == buffer[powPos];
        MarkAt(l, powPos);
        powPos := powPos - 1;
      }
      assert buffer[powPos..powPos] == [];
    }

    /** The trimming itself, with the point at this position. */
    method TrimAt(dotPos: nat, ghost l: Literal)
      requires Valid() && position < buffer.Length && WellFormed(l) && l.dot && Contents() == Text(l)
      requires dotPos == |l.sign| + |l.integral|
      modifies this, buffer
      ensures Valid() && Contents() == Text(WithoutZeros(l)) && position <= old(position)
    {
      hide Text, ExponentText, WithoutZeros;
      ghost var head, end := l.sign + l.integral, ExponentText(l.exponent);
      PointText(l);
      var powSize, powPos := FindExponent(dotPos, l);
      var tail := buffer[powPos..powPos + powSize];
      CutEnd(head + (['.'] + l.fraction), end);
      position := position - powSize;
      assert Contents() == head + (['.'] + l.fraction);
      StripFraction(head, l.fraction);
      if powSize > 0 {
        AddSubstring(tail);
      } else {
        assert Contents() == Contents() + end;
      }
    }

    /** Takes the zeros and a lone point from the end. */
    method StripFraction(ghost head: seq<char>, ghost fraction: seq<char>)
      requires Valid() && AreDigits(fraction) && Contents() == head + (['.'] + fraction)
      modifies this
      ensures Valid() && position <= old(position)
      ensures Contents() == head + (if StripZeros(fraction) == [] then [] else ['.'] + StripZeros(fraction))
    {
      ghost var rest := fraction;
      while position > 0 && buffer[position - 1] == '0'
        invariant Valid() && position <= old(position) && Contents() == head + (['.'] + rest)
        invariant AreDigits(rest) && StripZeros(rest) == StripZeros(fraction)
        decreases position
      {
        assert buffer[position - 1] == (head + (['.'] + rest))[position - 1];
        rest := rest[..|rest| - 1];
        position := position - 1;
      }
      assert buffer[position - 1] == (head + (['.'] + rest))[position - 1];
      assert (head + (['.'] + rest))[position - 1] == if rest == [] then '.' else rest[|rest| - 1];
      StripStops(rest);
      if position > 0 && buffer[position - 1] == '.' {
        position := position - 1;
      }
    }
  }

  lemma CutEnd(s: seq<char>, e: seq<char>)
    ensures (s + e)[..|s|] == s && |s + e| == |s| + |e|
  {
  }

  lemma PointText(l: Literal)
    requires l.dot
    ensures Text(l) == l.sign + l.integral + (['.'] + l.fraction) + ExponentText(l.exponent)
    ensures Text(WithoutZeros(l)) == l.sign + l.integral
      + (if StripZeros(l.fraction) == [] then [] else ['.'] + StripZeros(l.fraction)) + ExponentText(l.exponent)
  {
    hide ExponentText, StripZeros;
    var m := WithoutZeros(l);
    Regroup(l.sign, l.integral, FractionText(l), ExponentText(l.exponent));
    Regroup(l.sign, l.integral, FractionText(m), ExponentText(l.exponent));
  }

  lemma Regroup(a: seq<char>, b: seq<char>, c: seq<char>, d: seq<char>)
    ensures a + (b + (c + d)) == a + b + c + d
  {
  }

  /** Where StripZeros stops there is no zero left. */
  lemma StripStops(s: seq<char>)
    requires s == [] || s[|s| - 1] != '0'
    ensures StripZeros(s) == s
  {
  }

  lemma TextParts(l: Literal, i: nat)
    requires WellFormed(l) && i < |Text(l)|
    ensures Text(l)[i] == '.' <==> l.dot && i == |l.sign| + |l.integral|
  {
    var n := |l.sign| + |l.integral|;
    assert Text(l) == l.sign + l.integral + FractionText(l) + ExponentText(l.exponent);
    assert i < |l.sign| ==> Text(l)[i] == l.sign[i];
    assert |l.sign| <= i < n ==> Text(l)[i] == l.integral[i - |l.sign|];
    assert l.dot && n < i <= n + |l.fraction| ==> Text(l)[i] == l.fraction[i - n - 1];
    var m := n + |FractionText(l)|;
    if i >= m {
      assert Text(l)[i] == ExponentText(l.exponent)[i - m];
      ExponentHasNoPoint(l.exponent.value, i - m);
    }
  }

  lemma ExponentHasNoPoint(e: ExponentPart, i: nat)
    requires WellFormedExponent(e) && i < 1 + |e.sign| + |e.digits|
    ensures (ExponentText(Some(e)))[i] != '.'
  {
    var t := ExponentText(Some(e));
    assert 1 + |e.sign| <= i ==> t[i] == e.digits[i - 1 - |e.sign|];
  }

  /** Behind the point the only letter is the exponent's. */
  lemma MarkAt(l: Literal, i: nat)
    requires WellFormed(l) && l.dot && |l.sign| + |l.integral| < i < |Text(l)|
    ensures Text(l)[i] == 'e' || Text(l)[i] == 'E' <==> l.exponent.Some? && i == |l.sign| + |l.integral| + 1 + |l.fraction|
  {
    var n := |l.sign| + |l.integral|;
    var m := n + 1 + |l.fraction|;
    if i < m {
      assert Text(l)[i] == l.fraction[i - n - 1];
    } else {
      assert Text(l)[i] == ExponentText(l.exponent)[i - m];
      MarkFirst(l.exponent.value, i - m);
    }
  }

  lemma MarkIsLast(l: Literal)
    requires WellFormed(l) && l.dot
    ensures var at := |l.sign| + |l.integral| + 1 + |l.fraction|;
      && at <= |Text(l)| && Text(l)[at..] == ExponentText(l.exponent)
      && (l.exponent.Some? <==> at < |Text(l)|)
  {
    assert Text(l) == l.sign + l.integral + ['.'] + l.fraction + ExponentText(l.exponent);
  }

  lemma MarkFirst(e: ExponentPart, i: nat)
    requires WellFormedExponent(e) && i < 1 + |e.sign| + |e.digits|
    ensures var c := ExponentText(Some(e))[i]; c == 'e' || c == 'E' <==> i == 0
  {
    var t := ExponentText(Some(e));
    assert 1 + |e.sign| <= i ==> t[i] == e.digits[i - 1 - |e.sign|];
    assert 1 <= i < 1 + |e.sign| ==> t[i] == e.sign[i - 1];
  }

  lemma OnlyPoint(l: Literal, i: nat)
    requires WellFormed(l) && i < |Text(l)| && Text(l)[i] == '.'
    ensures l.dot && i == |l.sign| + |l.integral|
  {
    TextParts(l, i);
  }

  lemma NoPointAtAll(l: Literal)
    requires WellFormed(l) && NoPointIn(Text(l), 0, |Text(l)|)
    ensures WithoutZeros(l) == l
  {
    if l.dot {
      TextParts(l, |l.sign| + |l.integral|);
    }
  }

  /** After the point's place no other point follows, trimmed or not. */
  lemma PointStays(l: Literal, dotPos: nat)
    requires WellFormed(l) && l.dot && dotPos == |l.sign| + |l.integral|
    ensures NoPointIn(Text(WithoutZeros(l)), dotPos + 1, |Text(WithoutZeros(l))|)
  {
    var m := WithoutZeros(l);
    forall i | dotPos + 1 <= i < |Text(m)|
      ensures Text(m)[i] != '.'
    {
      TextPartsAfter(m, i);
    }
  }

  lemma TextPartsAfter(m: Literal, i: nat)
    requires AreDigits(m.fraction) && (m.exponent.Some? ==> WellFormedExponent(m.exponent.value))
    requires |m.sign| + |m.integral| < i < |Text(m)|
    ensures Text(m)[i] != '.'
  {
    var n := |m.sign| + |m.integral|;
    assert m.dot && n < i <= n + |m.fraction| ==> Text(m)[i] == m.fraction[i - n - 1];
    var k := n + |FractionText(m)|;
    if i >= k {
      assert Text(m)[i] == ExponentText(m.exponent)[i - k];
      ExponentHasNoPoint(m.exponent.value, i - k);
    }
  }

  // ----- what trimming keeps -----

  predicate AllZero(s: seq<char>) { forall i :: 0 <= i < |s| ==> s[i] == '0' }

  lemma {:induction false} StrippedValue(s: seq<char>, exponent: int)
    requires AreDigits(s)
    ensures AreDigits(StripZeros(s)) && Denoted(StripZeros(s), exponent) == Denoted(s, exponent)
    ensures StripZeros(s) == [] <==> AllZero(s)
  {
    hide DecimalValue, Ten, DecimalAt;
    if s != [] && s[|s| - 1] == '0' {
      var t := s[..|s| - 1];
      StrippedValue(t, exponent);
      assert s == t + ['0'];
      TrailingZero(t, exponent);
    }
  }

  /** The magnitude as integral and fraction digits around a point. */
  lemma MagnitudeIs(l: Literal)
    ensures Magnitude(l) == Denoted(l.integral + l.fraction, |l.integral| + DecimalExponent(l))
  {
  }

  /** Trimming leaves a literal of the same magnitude, unless the literal had no integral digits and
      nothing but zeros behind the point: then what remains is no number any more. */
  lemma TrimmingKeepsMagnitude(l: Literal)
    requires WellFormed(l)
    ensures WellFormed(WithoutZeros(l)) <==> l.integral != [] || !AllZero(l.fraction)
    ensures Parse(Text(WithoutZeros(l))).Some? <==> l.integral != [] || !AllZero(l.fraction)
    ensures WellFormed(WithoutZeros(l)) ==>
      (Parse(Text(WithoutZeros(l))) == Some(WithoutZeros(l)) && Magnitude(WithoutZeros(l)) == Magnitude(l))
  {
    hide DecimalValue, Ten, DecimalAt, StripZeros, Parse, Text, Magnitude;
    var m := WithoutZeros(l);
    StrippedValue(l.fraction, 0);
    if l.integral != [] || !AllZero(l.fraction) {
      ParseText(m);
      SameDigitsStripped(l);
    } else {
      BareExponent(m);
    }
  }

  /** ".000" is a number, and its trimmed text is empty. */
  lemma BareZerosVanish()
    ensures Parse(".000").Some? && Magnitude(Parse(".000").value) == 0.0
    ensures Text(WithoutZeros(Parse(".000").value)) == [] && Parse([]).None?
  {
    hide DecimalAt, DecimalValue, Parse, Text, WithoutZeros, StripZeros;
    var l := Literal([], [], true, ['0', '0', '0'], None);
    ThreeZeros(DecimalExponent(l) - 3);
    assert l.integral + l.fraction == ['0', '0', '0'];
    ZerosWithPoint(l);
    ParseText(l);
    TrimmingKeepsMagnitude(l);
  }

  lemma ZerosWithPoint(l: Literal)
    requires l == Literal([], [], true, ['0', '0', '0'], None)
    ensures Text(l) == ".000" && Text(WithoutZeros(l)) == []
  {
  }

  lemma ThreeZeros(e: int)
    ensures AllZero(['0', '0', '0']) && DecimalAt(DecimalValue(['0', '0', '0']), e) == 0.0
  {
    hide Ten;
    assert AllZero(['0', '0', '0']);
    assert ['0', '0', '0'][..2] == ['0', '0'] && ['0', '0'][..1] == ['0'] && ['0'][..0] == [];
  }

  lemma SameDigitsStripped(l: Literal)
    requires WellFormed(l)
    ensures Magnitude(WithoutZeros(l)) == Magnitude(l)
  {
    hide DecimalValue, Ten, DecimalAt, StripZeros;
    var m := WithoutZeros(l);
    MagnitudeIs(l);
    MagnitudeIs(m);
    if l.dot {
      StrippedTail(l.integral, l.fraction, |l.integral| + DecimalExponent(l));
    }
  }

  lemma {:induction false} StrippedTail(s: seq<char>, t: seq<char>, point: int)
    ensures Denoted(s + StripZeros(t), point) == Denoted(s + t, point)
    decreases |t|
  {
    hide DecimalValue, Ten, DecimalAt;
    if t != [] && t[|t| - 1] == '0' {
      var u := t[..|t| - 1];
      StrippedTail(s, u, point);
      assert s + t == (s + u) + ['0'];
      TrailingZero(s + u, point);
    }
  }

  lemma BareExponent(l: Literal)
    requires IsSign(l.sign) && l.integral == [] && l.fraction == [] && !l.dot
    requires l.exponent.Some? ==> WellFormedExponent(l.exponent.value)
    ensures Parse(Text(l)).None?
  {
    hide Span, ParseExponent;
    var e := ExponentText(l.exponent);
    NoDigitOrDot(l.exponent);
    assert FractionText(l) + e == e && [] + e == e;
    assert Text(l) == l.sign + e;
    assert SignOf(Text(l)) == l.sign;
    assert Text(l)[|l.sign|..] == e;
    SpanIs(e, 0);
    assert e[0..] == e;
  }

  // ----- layouts -----

  /** d[.ddd]e[-]x, with no zero before x. */
  ghost predicate ExponentialForm(l: Literal) {
    && |l.integral| == 1 && (l.dot <==> l.fraction != []) && l.exponent.Some?
    && var e := l.exponent.value;
      && e.mark == 'e' && e.sign == (if DecimalExponent(l) < 0 then ['-'] else [])
      && (|e.digits| > 1 ==> e.digits[0] != '0')
  }

  /** ddd[.ddd] */
  ghost predicate PlainForm(l: Literal) {
    l.integral != [] && (l.dot <==> l.fraction != []) && l.exponent.None?
  }

  /** Trimming leaves the form, and no zero at the end of the fraction. */
  lemma TrimmedForm(l: Literal)
    requires WellFormed(l)
    ensures var m := WithoutZeros(l);
      && m.sign == l.sign && m.integral == l.integral && m.exponent == l.exponent
      && (m.fraction != [] ==> m.fraction[|m.fraction| - 1] != '0') && (m.dot <==> m.fraction != [])
      && (ExponentialForm(l) ==> ExponentialForm(m)) && (PlainForm(l) ==> PlainForm(m))
  {
    hide DecimalValue;
  }

  /** Sign, value, form and the number of integral digits leave one text without zeros at the end. */
  lemma OneLiteral(l: Literal, m: Literal)
    requires WellFormed(l) && WellFormed(m) && l.sign == m.sign && Magnitude(l) == Magnitude(m)
    requires |l.integral| == |m.integral| && DecimalExponent(l) == DecimalExponent(m)
    requires (PlainForm(l) && PlainForm(m)) || (ExponentialForm(l) && ExponentialForm(m))
    requires l.fraction != [] ==> l.fraction[|l.fraction| - 1] != '0'
    requires m.fraction != [] ==> m.fraction[|m.fraction| - 1] != '0'
    ensures l == m
  {
    hide DecimalValue, DecimalAt, Ten, Magnitude, IsDigit;
    SameFraction(l, m);
    if l.exponent.Some? {
      SameNumber(l.exponent.value.digits, m.exponent.value.digits);
    }
  }

  lemma SameFraction(l: Literal, m: Literal)
    requires WellFormed(l) && WellFormed(m) && Magnitude(l) == Magnitude(m)
    requires |l.integral| == |m.integral| && DecimalExponent(l) == DecimalExponent(m)
    requires l.fraction != [] ==> l.fraction[|l.fraction| - 1] != '0'
    requires m.fraction != [] ==> m.fraction[|m.fraction| - 1] != '0'
    ensures l.integral == m.integral && l.fraction == m.fraction
  {
    hide DecimalValue, DecimalAt, Ten, IsDigit, WellFormed, DecimalExponent;
    DigitsOfBoth(l);
    DigitsOfBoth(m);
    NoLonger(l, m);
    NoLonger(m, l);
    var e, s, t := DecimalExponent(l) - |l.fraction|, l.integral + l.fraction, m.integral + m.fraction;
    DecimalAtMono(DecimalValue(s), DecimalValue(t), e);
    DecimalAtMono(DecimalValue(t), DecimalValue(s), e);
    SameDigits(s, t);
    assert l.integral == s[..|l.integral|] && l.fraction == s[|l.integral|..];
    assert m.integral == t[..|m.integral|] && m.fraction == t[|m.integral|..];
  }

  lemma DigitsOfBoth(l: Literal)
    requires WellFormed(l)
    ensures AreDigits(l.integral + l.fraction)
  {
  }

  /** A longer fraction would end in a zero. */
  lemma NoLonger(l: Literal, m: Literal)
    requires AreDigits(l.integral + l.fraction) && Magnitude(l) == Magnitude(m) && DecimalExponent(l) == DecimalExponent(m)
    requires l.fraction != [] ==> l.fraction[|l.fraction| - 1] != '0'
    ensures |l.fraction| <= |m.fraction|
  {
    hide DecimalValue, DecimalAt, Ten, Pow, DecimalExponent;
    var n := |l.fraction| - |m.fraction|;
    if n > 0 {
      var s, t, e := l.integral + l.fraction, m.integral + m.fraction, DecimalExponent(l) - |l.fraction|;
      DecimalAtShift(DecimalValue(t), e, n);
      DecimalAtMono(DecimalValue(s), DecimalValue(t) * Pow(10, n), e);
      DecimalAtMono(DecimalValue(t) * Pow(10, n), DecimalValue(s), e);
      PowNext(10, n - 1);
      LastDigitIs(s);
      TenTimes(DecimalValue(t), Pow(10, n - 1));
    }
  }

  lemma TenTimes(x: int, y: int)
    ensures x * (10 * y) % 10 == 0
  {
    assert x * (10 * y) == 10 * (x * y);
  }

  lemma LastDigitIs(s: seq<char>)
    requires AreDigits(s) && s != []
    ensures DecimalValue(s) % 10 == s[|s| - 1] as int - '0' as int
  {
    assert IsDigit(s[|s| - 1]);
  }

  lemma SameNumber(s: seq<char>, t: seq<char>)
    requires AreDigits(s) && AreDigits(t) && s != [] && t != [] && DecimalValue(s) == DecimalValue(t)
    requires (|s| > 1 ==> s[0] != '0') && (|t| > 1 ==> t[0] != '0')
    ensures s == t
  {
    hide DecimalValue, Pow;
    NotLonger(s, t);
    NotLonger(t, s);
    SameDigits(s, t);
  }

  lemma NotLonger(s: seq<char>, t: seq<char>)
    requires AreDigits(s) && AreDigits(t) && s != [] && t != [] && DecimalValue(s) == DecimalValue(t) && (|s| > 1 ==> s[0] != '0')
    ensures |s| <= |t|
  {
    hide DecimalValue, Pow;
    if |s| > |t| {
      LeadingDigit(s);
      DecimalBounds(t);
      PowMono(10, |t|, |s| - 1);
    }
  }

  /** d.ddde[-]x, without a point for a single digit. */
  method CreateExponentialRepresentation(digits: seq<char>, exponentIn: int, builder: StringBuilder) returns (ghost l: Literal)
    requires digits != [] && AreDigits(digits) && -10000 < exponentIn < 10000
    requires builder.Valid() && builder.position + |digits| + 8 < builder.buffer.Length
    modifies builder, builder.buffer
    ensures builder.Valid() && builder.Contents() == old(builder.Contents()) + Text(l)
    ensures WellFormed(l) && l.sign == [] && |l.integral| == 1 && l.integral + l.fraction == digits
    ensures DecimalExponent(l) == exponentIn && Magnitude(l) == Denoted(digits, exponentIn + 1)
    ensures ExponentialForm(l) && (l.dot <==> |digits| != 1)
    ensures builder.position <= old(builder.position) + |digits| + 7
  {
    hide DecimalValue, Text, Magnitude, StringBuilder.Contents, Denoted, WellFormed, DecimalExponent;
    ghost var before := builder.Contents();
    var exponent := exponentIn;
    ghost var mantissa := AddMantissa(digits, builder);
    builder.AddCharacter('e');
    ghost var sign := [];
    if exponent < 0 {
      builder.AddCharacter('-');
      sign := ['-'];
      exponent := -exponent;
    }
    assert builder.Contents() == before + mantissa + ['e'] + sign;
    ghost var number := AddInteger(exponent, builder);
    l := Literal([], digits[..1], |digits| != 1, digits[1..], Some(ExponentPart('e', sign, number)));
    ExponentialText(l, before, mantissa, sign, number);
    ExponentialFacts(l, digits, exponentIn, sign, number);
  }

  lemma ExponentialFacts(l: Literal, digits: seq<char>, exponent: int, sign: seq<char>, number: seq<char>)
    requires digits != [] && AreDigits(digits) && AreDigits(number) && number != []
    requires l == Literal([], digits[..1], |digits| != 1, digits[1..], Some(ExponentPart('e', sign, number)))
    requires if exponent < 0 then sign == ['-'] && DecimalValue(number) == -exponent else sign == [] && DecimalValue(number) == exponent
    requires |number| > 1 ==> number[0] != '0'
    ensures WellFormed(l) && l.integral + l.fraction == digits
    ensures DecimalExponent(l) == exponent && Magnitude(l) == Denoted(digits, exponent + 1) && ExponentialForm(l)
  {
    hide DecimalValue, DecimalAt, Magnitude, Denoted;
    assert digits[..1] + digits[1..] == digits;
    MagnitudeIs(l);
  }

  method AddMantissa(digits: seq<char>, builder: StringBuilder) returns (ghost mantissa: seq<char>)
    requires digits != [] && builder.Valid() && builder.position + |digits| + 1 < builder.buffer.Length
    modifies builder, builder.buffer
    ensures builder.Valid() && builder.Contents() == old(builder.Contents()) + mantissa && |mantissa| <= |digits| + 1
    ensures mantissa == if |digits| != 1 then digits[..1] + (['.'] + digits[1..]) else digits[..1]
  {
    hide StringBuilder.Contents;
    ghost var before := builder.Contents();
    builder.AddCharacter(digits[0]);
    assert [digits[0]] == digits[..1];
    mantissa := digits[..1];
    if |digits| != 1 {
      builder.AddCharacter('.');
      builder.AddSubstring(digits[1..]);
      mantissa := digits[..1] + (['.'] + digits[1..]);
      assert before + digits[..1] + ['.'] + digits[1..] == before + mantissa;
    }
  }

  lemma ExponentialText(l: Literal, before: seq<char>, mantissa: seq<char>, sign: seq<char>, number: seq<char>)
    requires l.sign == [] && l.exponent == Some(ExponentPart('e', sign, number))
    requires mantissa == l.integral + FractionText(l)
    ensures before + mantissa + ['e'] + sign + number == before + Text(l)
  {
    assert ExponentText(l.exponent) == ['e'] + sign + number;
    Regroup([], l.integral, FractionText(l), ['e'] + sign + number);
    assert [] + l.integral == l.integral;
    assert before + mantissa + ['e'] + sign + number == before + (mantissa + (['e'] + sign + number));
  }

  /** A number below ten thousand, written from the last digit in a small buffer. */
  method AddInteger(exponentIn: int, builder: StringBuilder) returns (ghost number: seq<char>)
    requires 0 <= exponentIn < 10000 && builder.Valid() && builder.position + 5 < builder.buffer.Length
    modifies builder, builder.buffer
    ensures builder.Valid() && builder.Contents() == old(builder.Contents()) + number
    ensures AreDigits(number) && 0 < |number| <= 4 && DecimalValue(number) == exponentIn
    ensures |number| > 1 ==> number[0] != '0'
  {
    hide DecimalValue, Pow;
    if exponentIn == 0 {
      builder.AddCharacter('0');
      ZeroDigit();
      return ['0'];
    }
    var exponent := exponentIn;
    var buffer := new char[6];
    buffer[5] := '\0';
    var firstCharPos := 5;
    PowNone(10);
    TenThousand();
    DecimalNone(buffer[5..5]);
    while exponent > 0
      invariant 0 <= exponent < 10000 && 1 <= firstCharPos <= 5 && exponent < Pow(10, firstCharPos - 1)
      invariant AreDigits(buffer[firstCharPos..5]) && builder.Valid()
      invariant exponentIn == exponent * Pow(10, 5 - firstCharPos) + DecimalValue(buffer[firstCharPos..5])
      invariant exponent == 0 ==> firstCharPos < 5 && buffer[firstCharPos] != '0'
      modifies buffer
    {
      ghost var t := buffer[firstCharPos..5];
      OneDigitLess(exponent, firstCharPos);
      firstCharPos := firstCharPos - 1;
      buffer[firstCharPos] := DigitChar(exponent % 10);
      assert buffer[firstCharPos..5] == [buffer[firstCharPos]] + t;
      Prepend(buffer[firstCharPos], t);
      PowNext(10, |t|);
      MoveDigit(exponent, Pow(10, |t|));
      exponent := exponent / 10;
    }
    number := buffer[firstCharPos..5];
    builder.AddSubstring(buffer[firstCharPos..5]);
  }

  lemma ZeroDigit()
    ensures DecimalValue(['0']) == 0
  {
    assert DecimalValue(['0'][..0]) == 0;
  }

  lemma OneDigitLess(exponent: nat, pos: nat)
    requires 1 <= pos && 0 < exponent < Pow(10, pos - 1)
    ensures pos >= 2 && exponent / 10 < Pow(10, pos - 2)
  {
    if pos >= 2 {
      PowNext(10, pos - 2);
    }
  }

  lemma TenThousand()
    ensures Pow(10, 4) == 10000
  {
  }

  /** Digits with a decimal point and the wanted number of places, zeros filling up. */
  method CreateDecimalRepresentation(digits: seq<char>, decimalPoint: int, digitsAfterPoint: nat, builder: StringBuilder)
    returns (ghost l: Literal)
    requires AreDigits(digits) && |digits| - decimalPoint <= digitsAfterPoint
    requires builder.Valid() && builder.position + Max(decimalPoint, 1) + digitsAfterPoint + 1 < builder.buffer.Length
    modifies builder, builder.buffer
    ensures builder.Valid() && builder.Contents() == old(builder.Contents()) + Text(l)
    ensures WellFormed(l) && l.sign == [] && PlainForm(l) && |l.integral| == Max(decimalPoint, 1)
    ensures |l.fraction| == digitsAfterPoint && Magnitude(l) == Denoted(digits, decimalPoint)
    ensures builder.position <= old(builder.position) + Max(decimalPoint, 1) + digitsAfterPoint + 1
  {
    hide DecimalValue, DecimalAt, Text, Magnitude, StringBuilder.Contents, Repeated, Denoted;
    ghost var before := builder.Contents();
    ghost var integral, fraction, zeros, more;
    if decimalPoint <= 0 {
      builder.AddCharacter('0');
      integral, fraction, zeros, more := ['0'], [], 1, 0;
      if digitsAfterPoint > 0 {
        zeros, more := 1 - decimalPoint, digitsAfterPoint - (-decimalPoint) - |digits|;
        fraction := AddBelowOne(digits, -decimalPoint, digitsAfterPoint, builder);
      }
      BelowOneDigits(digits, fraction, zeros, more);
    } else if decimalPoint >= |digits| {
      fraction := AddIntegral(digits, decimalPoint, digitsAfterPoint, builder);
      integral := digits + Repeated('0', decimalPoint - |digits|);
      zeros, more := 0, decimalPoint - |digits| + digitsAfterPoint;
      IntegralDigits(digits, decimalPoint - |digits|, digitsAfterPoint);
    } else {
      fraction := AddSplit(digits, decimalPoint, digitsAfterPoint, builder);
      integral := digits[..decimalPoint];
      zeros, more := 0, digitsAfterPoint - (|digits| - decimalPoint);
      DigitsSplit(digits, decimalPoint, more);
    }
    l := Literal([], integral, digitsAfterPoint > 0, fraction, None);
    DecimalText(l, before);
    PaddedDenoted(digits, decimalPoint, zeros, more);
    MagnitudeIs(l);
  }

  lemma BelowOneDigits(digits: seq<char>, fraction: seq<char>, zeros: nat, more: nat)
    requires zeros > 0 && (fraction == Repeated('0', zeros - 1) + digits + Repeated('0', more) || (digits == [] && zeros == 1 && more == 0 && fraction == []))
    ensures ['0'] + fraction == Repeated('0', zeros) + digits + Repeated('0', more)
  {
  }

  lemma IntegralDigits(digits: seq<char>, inside: nat, after: nat)
    ensures digits + Repeated('0', inside) + Repeated('0', after) == Repeated('0', 0) + digits + Repeated('0', inside + after)
  {
  }

  lemma DigitsSplit(digits: seq<char>, k: nat, more: nat)
    requires k <= |digits|
    ensures digits[..k] + (digits[k..] + Repeated('0', more)) == Repeated('0', 0) + digits + Repeated('0', more)
  {
  }

  /** "ddd000" or "ddd000.000" */
  method AddIntegral(digits: seq<char>, decimalPoint: nat, digitsAfterPoint: nat, builder: StringBuilder) returns (ghost fraction: seq<char>)
    requires AreDigits(digits) && |digits| <= decimalPoint
    requires builder.Valid() && builder.position + decimalPoint + digitsAfterPoint + 1 < builder.buffer.Length
    modifies builder, builder.buffer
    ensures fraction == Repeated('0', digitsAfterPoint)
    ensures builder.Valid() && builder.Contents() == old(builder.Contents()) + (digits + Repeated('0', decimalPoint - |digits|))
      + (if digitsAfterPoint > 0 then ['.'] + fraction else [])
  {
    hide StringBuilder.Contents;
    ghost var before := builder.Contents();
    builder.AddSubstring(digits);
    builder.AddPadding('0', decimalPoint - |digits|);
    ghost var integral := digits + Repeated('0', decimalPoint - |digits|);
    assert builder.Contents() == before + integral;
    fraction := Repeated('0', digitsAfterPoint);
    if digitsAfterPoint > 0 {
      builder.AddCharacter('.');
      builder.AddPadding('0', digitsAfterPoint);
      assert before + integral + ['.'] + fraction == before + integral + (['.'] + fraction);
    }
  }

  /** ".000ddd000" */
  method AddBelowOne(digits: seq<char>, zeros: nat, digitsAfterPoint: nat, builder: StringBuilder) returns (ghost fraction: seq<char>)
    requires AreDigits(digits) && zeros + |digits| <= digitsAfterPoint
    requires builder.Valid() && builder.position + 1 + digitsAfterPoint < builder.buffer.Length
    modifies builder, builder.buffer
    ensures builder.Valid() && builder.Contents() == old(builder.Contents()) + (['.'] + fraction)
    ensures fraction == Repeated('0', zeros) + digits + Repeated('0', digitsAfterPoint - zeros - |digits|)
  {
    hide StringBuilder.Contents;
    ghost var before := builder.Contents();
    builder.AddCharacter('.');
    builder.AddPadding('0', zeros);
    builder.AddSubstring(digits);
    var remainingDigits := digitsAfterPoint - zeros - |digits|;
    builder.AddPadding('0', remainingDigits);
    fraction := Repeated('0', zeros) + digits + Repeated('0', remainingDigits);
    assert before + ['.'] + Repeated('0', zeros) + digits + Repeated('0', remainingDigits) == before + (['.'] + fraction);
  }

  /** "d.ddd000" */
  method AddSplit(digits: seq<char>, decimalPoint: nat, digitsAfterPoint: nat, builder: StringBuilder) returns (ghost fraction: seq<char>)
    requires AreDigits(digits) && 0 < decimalPoint < |digits| && |digits| - decimalPoint <= digitsAfterPoint
    requires builder.Valid() && builder.position + decimalPoint + digitsAfterPoint + 1 < builder.buffer.Length
    modifies builder, builder.buffer
    ensures builder.Valid() && builder.Contents() == old(builder.Contents()) + digits[..decimalPoint] + (['.'] + fraction)
    ensures fraction == digits[decimalPoint..] + Repeated('0', digitsAfterPoint - (|digits| - decimalPoint))
  {
    hide StringBuilder.Contents;
    ghost var before := builder.Contents();
    builder.AddSubstring(digits[..decimalPoint]);
    builder.AddCharacter('.');
    builder.AddSubstring(digits[decimalPoint..]);
    var remainingDigits := digitsAfterPoint - (|digits| - decimalPoint);
    builder.AddPadding('0', remainingDigits);
    fraction := digits[decimalPoint..] + Repeated('0', remainingDigits);
    assert before + digits[..decimalPoint] + ['.'] + digits[decimalPoint..] + Repeated('0', remainingDigits)
      == before + digits[..decimalPoint] + (['.'] + fraction);
  }

  lemma DecimalText(l: Literal, before: seq<char>)
    requires l.sign == [] && l.exponent.None?
    ensures before + l.integral + (if l.dot then ['.'] + l.fraction else []) == before + Text(l)
  {
    assert [] + (l.integral + (FractionText(l) + [])) == l.integral + FractionText(l);
    assert before + l.integral + FractionText(l) == before + (l.integral + FractionText(l));
  }

  /** Zeros on both sides of the digits do not change the number. */
  lemma {:induction false} PaddedDenoted(s: seq<char>, point: int, zeros: nat, more: nat)
    ensures Denoted(Repeated('0', zeros) + s + Repeated('0', more), zeros + point) == Denoted(s, point)
    decreases zeros + more
  {
    hide DecimalValue, Ten, DecimalAt, Pow;
    if more > 0 {
      var t := Repeated('0', zeros) + s + Repeated('0', more - 1);
      assert Repeated('0', zeros) + s + Repeated('0', more) == t + ['0'];
      TrailingZero(t, zeros + point);
      PaddedDenoted(s, point, zeros, more - 1);
    } else if zeros > 0 {
      var t := Repeated('0', zeros - 1) + s;
      assert Repeated('0', zeros) + s + Repeated('0', 0) == ['0'] + t;
      assert Repeated('0', zeros - 1) + s + Repeated('0', 0) == t;
      Prepend('0', t);
      PaddedDenoted(s, point, zeros - 1, 0);
    } else {
      assert Repeated('0', 0) + s + Repeated('0', 0) == s;
    }
  }
}
