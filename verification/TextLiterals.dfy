// Numbers as text: the literals the scanner accepts, what they denote, and their parsing.
module TextLiterals {
  import opened Options
  import opened Decimals
  import opened DecimalRounding

  datatype ExponentPart = ExponentPart(mark: char, sign: seq<char>, digits: seq<char>)

  /** [sign] digits [. digits] [e [sign] digits] */
  datatype Literal = Literal(sign: seq<char>, integral: seq<char>, dot: bool, fraction: seq<char>, exponent: Option<ExponentPart>)

  predicate IsSign(s: seq<char>) { s == [] || s == ['+'] || s == ['-'] }

  ghost predicate WellFormedExponent(e: ExponentPart) {
    (e.mark == 'e' || e.mark == 'E') && IsSign(e.sign) && AreDigits(e.digits) && e.digits != []
  }

  /** At least one digit before the exponent. */
  ghost predicate WellFormed(l: Literal) {
    && IsSign(l.sign) && AreDigits(l.integral) && AreDigits(l.fraction)
    && (!l.dot ==> l.fraction == [])
    && (l.integral != [] || l.fraction != [])
    && (l.exponent.Some? ==> WellFormedExponent(l.exponent.value))
  }

  function ExponentText(e: Option<ExponentPart>): seq<char> {
    if e.None? then [] else [e.value.mark] + e.value.sign + e.value.digits
  }

  function FractionText(l: Literal): seq<char> {
    if l.dot then ['.'] + l.fraction else []
  }

  function Text(l: Literal): seq<char> {
    l.sign + (l.integral + (FractionText(l) + ExponentText(l.exponent)))
  }

  function DecimalExponent(l: Literal): int {
    if l.exponent.None? then 0
    else if l.exponent.value.sign == ['-'] then 0 - DecimalValue(l.exponent.value.digits)
    else DecimalValue(l.exponent.value.digits)
  }

  /** The absolute value of the number denoted. */
  function Magnitude(l: Literal): real {
    DecimalAt(DecimalValue(l.integral + l.fraction), DecimalExponent(l) - |l.fraction|)
  }

  predicate IsNegative(l: Literal) { l.sign == ['-'] }

  // ----- parsing -----

  /** How many digits come first. */
  function Span(t: seq<char>): (n: nat)
    ensures n <= |t| && AreDigits(t[..n]) && (n < |t| ==> !IsDigit(t[n]))
  {
    if t == [] || !IsDigit(t[0]) then 0
    else
      var n := 1 + Span(t[1..]);
      assert forall i :: 1 <= i < n ==> t[i] == t[1..][i - 1];
      n
  }

  lemma SpanIs(t: seq<char>, n: nat)
    requires n <= |t| && AreDigits(t[..n]) && (n < |t| ==> !IsDigit(t[n]))
    ensures Span(t) == n
  {
    hide Span;
    var m := Span(t);
    assert forall i :: 0 <= i < n ==> t[..n][i] == t[i];
    assert forall i :: 0 <= i < m ==> t[..m][i] == t[i];
  }

  predicate StartsWithSign(t: seq<char>) { t != [] && (t[0] == '+' || t[0] == '-') }

  function SignOf(t: seq<char>): seq<char> { if StartsWithSign(t) then t[..1] else [] }

  function ParseExponent(t: seq<char>): Option<Option<ExponentPart>> {
    if t == [] then Some(None)
    else if t[0] != 'e' && t[0] != 'E' then None
    else
      var sign := SignOf(t[1..]);
      var digits := t[1 + |sign|..];
      if digits != [] && Span(digits) == |digits| then Some(Some(ExponentPart(t[0], sign, digits))) else None
  }

  function ParseFraction(sign: seq<char>, integral: seq<char>, t: seq<char>): Option<Literal> {
    var dot := t != [] && t[0] == '.';
    var u := if dot then t[1..] else t;
    var m := if dot then Span(u) else 0;
    if integral == [] && m == 0 then None
    else
      var exponent := ParseExponent(u[m..]);
      if exponent.None? then None else Some(Literal(sign, integral, dot, u[..m], exponent.value))
  }

  function Parse(t: seq<char>): Option<Literal> {
    var sign := SignOf(t);
    var u := t[|sign|..];
    var n := Span(u);
    ParseFraction(sign, u[..n], u[n..])
  }

  /** Parsing accepts the texts of well-formed literals and finds the literal. */
  lemma ParseText(l: Literal)
    requires WellFormed(l)
    ensures Parse(Text(l)) == Some(l)
  {
    var t, rest := Text(l), FractionText(l) + ExponentText(l.exponent);
    assert SignOf(t) == l.sign;
    assert t[|l.sign|..] == l.integral + rest;
    assert (l.integral + rest)[..|l.integral|] == l.integral;
    SpanIs(l.integral + rest, |l.integral|);
    assert (l.integral + rest)[|l.integral|..] == rest;
    ParseFractionText(l);
  }

  lemma ParseFractionText(l: Literal)
    requires WellFormed(l)
    ensures ParseFraction(l.sign, l.integral, FractionText(l) + ExponentText(l.exponent)) == Some(l)
  {
    hide Span, ParseExponent, ExponentText, AreDigits, WellFormedExponent;
    var e := ExponentText(l.exponent);
    var t := FractionText(l) + e;
    ParseExponentText(l.exponent);
    NoDigitOrDot(l.exponent);
    if l.dot {
      assert t[0] == '.' && t[1..] == l.fraction + e;
      SplitDigits(l.fraction, e);
    } else {
      assert t == e && t[0..] == e && t[..0] == l.fraction;
    }
  }

  lemma SplitDigits(s: seq<char>, e: seq<char>)
    requires AreDigits(s) && (e != [] ==> !IsDigit(e[0]))
    ensures Span(s + e) == |s| && (s + e)[..|s|] == s && (s + e)[|s|..] == e
  {
    hide Span;
    assert (s + e)[..|s|] == s;
    SpanIs(s + e, |s|);
  }

  lemma NoDigitOrDot(e: Option<ExponentPart>)
    requires e.Some? ==> WellFormedExponent(e.value)
    ensures ExponentText(e) != [] ==> !IsDigit(ExponentText(e)[0]) && ExponentText(e)[0] != '.'
  {
  }

  lemma ParseExponentText(e: Option<ExponentPart>)
    requires e.Some? ==> WellFormedExponent(e.value)
    ensures ParseExponent(ExponentText(e)) == Some(e)
  {
    hide Span;
    if e.Some? {
      var t, v := ExponentText(e), e.value;
      assert t[1..] == v.sign + v.digits;
      SignThenDigits(v.sign, v.digits);
      assert t[1 + |v.sign|..] == v.digits;
    }
  }

  lemma SignThenDigits(sign: seq<char>, digits: seq<char>)
    requires IsSign(sign) && AreDigits(digits) && digits != []
    ensures SignOf(sign + digits) == sign && Span(digits) == |digits|
  {
    hide Span;
    if sign == [] {
      assert IsDigit(digits[0]) && (sign + digits)[0] == digits[0];
    }
    assert digits + [] == digits;
    SplitDigits(digits, []);
  }

  /** Whatever is accepted is the text of the literal found. */
  lemma ParsedText(t: seq<char>)
    requires Parse(t).Some?
    ensures WellFormed(Parse(t).value) && Text(Parse(t).value) == t
  {
    hide Span, ParseFraction, ExponentText, WellFormedExponent;
    var sign := SignOf(t);
    var u := t[|sign|..];
    var n := Span(u);
    var integral, rest := u[..n], u[n..];
    ParsedFraction(sign, integral, rest);
    assert t == sign + (integral + rest);
    assert Parse(t) == ParseFraction(sign, integral, rest);
  }

  lemma ParsedFraction(sign: seq<char>, integral: seq<char>, t: seq<char>)
    requires IsSign(sign) && AreDigits(integral) && ParseFraction(sign, integral, t).Some?
    ensures var l := ParseFraction(sign, integral, t).value;
      WellFormed(l) && l.sign == sign && l.integral == integral && FractionText(l) + ExponentText(l.exponent) == t
  {
    hide Span, ParseExponent, ExponentText, WellFormedExponent;
    var l := ParseFraction(sign, integral, t).value;
    if l.dot {
      ParsedExponent(t[1..][Span(t[1..])..]);
      PointAndRest(t, Span(t[1..]), ExponentText(l.exponent));
    } else {
      assert t[0..] == t && t[..0] == [];
      ParsedExponent(t[0..]);
      assert [] + t == t;
    }
  }

  lemma PointAndRest(t: seq<char>, m: nat, rest: seq<char>)
    requires t != [] && t[0] == '.' && m < |t| && t[1..][m..] == rest
    ensures ['.'] + t[1..][..m] + rest == t
  {
  }

  lemma ParsedExponent(t: seq<char>)
    requires ParseExponent(t).Some?
    ensures var e := ParseExponent(t).value; ExponentText(e) == t && (e.Some? ==> WellFormedExponent(e.value))
  {
    hide Span;
    if t != [] {
      var e, u := ParseExponent(t).value.value, t[1..];
      assert t == [t[0]] + u;
      assert t[1 + |e.sign|..] == u[|e.sign|..];
      assert u == e.sign + u[|e.sign|..];
      assert e.digits[..|e.digits|] == e.digits;
    }
  }

  // ----- the characters of a number -----

  /** Digits with a point among or beside them or with none, a sign or none before them, and with or without
      'e' or 'E', a sign or none, and an exponent: that is a number, and this is its value. */
  lemma CharactersParse(sign: seq<char>, a: seq<char>, point: bool, b: seq<char>, exponent: bool, mark: char, esign: seq<char>, c: seq<char>)
    requires AreDigits(a) && AreDigits(b) && AreDigits(c) && (a != [] || b != []) && c != [] && (!point ==> b == [])
    requires (sign == [] || sign == ['+'] || sign == ['-']) && (esign == [] || esign == ['+'] || esign == ['-'])
    requires mark == 'e' || mark == 'E'
    ensures var t, power := sign + a + (if point then ['.'] + b else []) + (if exponent then [mark] + esign + c else []),
        if !exponent then 0 else if esign == ['-'] then 0 - DecimalValue(c) else DecimalValue(c);
      && Parse(t).Some? && Magnitude(Parse(t).value) == DecimalAt(DecimalValue(a + b), power - |b|)
      && (IsNegative(Parse(t).value) <==> sign == ['-'])
  {
    hide Parse, DecimalValue, DecimalAt;
    var l := Literal(sign, a, point, b, if exponent then Some(ExponentPart(mark, esign, c)) else None);
    Regrouped(sign, a, FractionText(l), ExponentText(l.exponent));
    ParseText(l);
  }

  lemma Regrouped(a: seq<char>, b: seq<char>, c: seq<char>, d: seq<char>)
    ensures a + b + c + d == a + (b + (c + d))
  {
  }

  /** And nothing else is a number. */
  lemma ParsedCharacters(t: seq<char>) returns (sign: seq<char>, a: seq<char>, point: bool, b: seq<char>, exponent: bool, mark: char,
      esign: seq<char>, c: seq<char>)
    requires Parse(t).Some?
    ensures AreDigits(a) && AreDigits(b) && AreDigits(c) && (a != [] || b != []) && c != [] && (!point ==> b == [])
    ensures (sign == [] || sign == ['+'] || sign == ['-']) && (esign == [] || esign == ['+'] || esign == ['-'])
    ensures mark == 'e' || mark == 'E'
    ensures t == sign + a + (if point then ['.'] + b else []) + (if exponent then [mark] + esign + c else [])
  {
    hide Parse;
    ParsedText(t);
    var l := Parse(t).value;
    Regrouped(l.sign, l.integral, FractionText(l), ExponentText(l.exponent));
    sign, a, point, b, exponent := l.sign, l.integral, l.dot, l.fraction, l.exponent.Some?;
    mark, esign, c := 'e', [], ['0'];
    if exponent {
      mark, esign, c := l.exponent.value.mark, l.exponent.value.sign, l.exponent.value.digits;
    }
  }

  /** "1E5" is a hundred thousand, "-.5" half below zero, and "1e" no number. */
  lemma SomeNumbers()
    ensures Parse("1E5").Some? && Magnitude(Parse("1E5").value) == 100000.0 && !IsNegative(Parse("1E5").value)
    ensures Parse("-.5").Some? && Magnitude(Parse("-.5").value) == 0.5 && IsNegative(Parse("-.5").value)
    ensures Parse("1e").None?
  {
    hide Parse, Magnitude, DecimalValue, DecimalAt;
    SingleDigitIs('1');
    SingleDigitIs('5');
    TenFifths();
    assert [] + "1" + [] + (['E'] + [] + "5") == "1E5" && "1" + [] == "1";
    CharactersParse([], "1", false, [], true, 'E', [], "5");
    assert "-" + [] + (['.'] + "5") + [] == "-.5" && [] + "5" == "5";
    CharactersParse("-", [], true, "5", false, 'e', [], "0");
    NoExponentDigits();
  }

  lemma SingleDigitIs(c: char)
    requires IsDigit(c)
    ensures AreDigits([c]) && DecimalValue([c]) == c as int - '0' as int
  {
    assert [c][..0] == [];
  }

  lemma TenFifths()
    ensures DecimalAt(1, 5) == 100000.0 && DecimalAt(5, -1) == 0.5
  {
  }

  lemma NoExponentDigits()
    ensures Parse("1e").None?
  {
    hide Span;
    SpanIs("1e", 1);
    assert "1e"[1..] == "e" && "1e"[0..] == "1e" && "e"[0..] == "e" && "e"[1..] == [];
  }
}
