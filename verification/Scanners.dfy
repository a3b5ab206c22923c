// StringToIeee: the scanner for decimal numbers, with the flags this library uses: none
// (double-conversion.cc, s4convertors.cpp).
module Scanners {
  import opened Options
  import opened MachineInts
  import opened Powers
  import opened RealPowers
  import opened Decimals
  import opened DecimalRounding
  import opened CachedPowers
  import opened StrtodBuffers
  import opened DigitCutting
  import opened LeastDouble
  import opened Strtods
  import opened StrtodRounding
  import opened DtoaBounds
  import opened TextLiterals
  import opened Ieee

  // ----- significant digits -----

  /** What the scanner remembers of the digits seen, leading zeros apart: the first 772 of them,
      whether one of the others was not zero, and the exponent of the last one kept. */
  ghost predicate Remembered(seen: seq<char>, kept: seq<char>, dropped: bool) {
    && AreDigits(seen) && (seen != [] ==> seen[0] != '0')
    && kept == seen[..Min(|seen|, 772)]
    && (dropped <==> exists i :: |kept| <= i < |seen| && seen[i] != '0')
  }

  lemma RememberKept(seen: seq<char>, kept: seq<char>, dropped: bool, c: char)
    requires Remembered(seen, kept, dropped) && |kept| < 772 && IsDigit(c) && (seen == [] ==> c != '0')
    ensures Remembered(seen + [c], kept + [c], dropped)
  {
  }

  lemma RememberDropped(seen: seq<char>, kept: seq<char>, dropped: bool, c: char)
    requires Remembered(seen, kept, dropped) && |kept| >= 772 && IsDigit(c)
    ensures Remembered(seen + [c], kept, dropped || c != '0')
  {
    var t := seen + [c];
    assert t[..772] == kept;
    assert c != '0' ==> t[|seen|] != '0';
    if dropped {
      var i :| |kept| <= i < |seen| && seen[i] != '0';
      assert t[i] != '0';
    }
  }

  lemma SeenSize(seen: seq<char>, kept: seq<char>, dropped: bool)
    requires Remembered(seen, kept, dropped)
    ensures |kept| == Min(|seen|, 772)
  {
  }

  /** Digits of the integral part: kept ones go to the buffer, the others into the exponent. */
  method ScanIntegral(input: seq<char>, start: nat, buffer: array<char>)
    returns (current: nat, pos: nat, insignificant: nat, dropped: bool)
    requires start <= |input| && buffer.Length == 782 && (start < |input| ==> input[start] != '0')
    modifies buffer
    ensures start <= current <= |input| && pos <= 772
    ensures AreDigits(input[start..current]) && (current < |input| ==> !IsDigit(input[current]))
    ensures Remembered(input[start..current], buffer[..pos], dropped) && pos + insignificant == current - start
  {
    current, pos, insignificant, dropped := start, 0, 0, false;
    while current < |input| && IsDigit(input[current])
      invariant start <= current <= |input| && pos <= 772
      invariant Remembered(input[start..current], buffer[..pos], dropped) && pos + insignificant == current - start
    {
      ghost var seen, kept := input[start..current], buffer[..pos];
      if pos < 772 {
        buffer[pos] := input[current];
        pos := pos + 1;
        assert buffer[..pos] == kept + [input[current]];
        RememberKept(seen, kept, dropped, input[current]);
      } else {
        insignificant := insignificant + 1;
        RememberDropped(seen, kept, dropped, input[current]);
        dropped := dropped || input[current] != '0';
      }
      assert input[start..current + 1] == seen + [input[current]];
      current := current + 1;
    }
  }

  /** Digits of the fraction: only kept ones lower the exponent. */
  method ScanFraction(input: seq<char>, start: nat, buffer: array<char>, posIn: nat, droppedIn: bool, exponentIn: int,
      ghost seenIn: seq<char>) returns (current: nat, pos: nat, dropped: bool, exponent: int)
    requires start <= |input| && buffer.Length == 782 && posIn <= 772 && Remembered(seenIn, buffer[..posIn], droppedIn)
    requires seenIn == [] && start < |input| ==> input[start] != '0'
    modifies buffer
    ensures start <= current <= |input| && posIn <= pos <= 772
    ensures AreDigits(input[start..current]) && (current < |input| ==> !IsDigit(input[current]))
    ensures Remembered(seenIn + input[start..current], buffer[..pos], dropped) && exponent == exponentIn - (pos - posIn)
  {
    hide Remembered;
    current, pos, dropped, exponent := start, posIn, droppedIn, exponentIn;
    assert seenIn + input[start..current] == seenIn;
    while current < |input| && IsDigit(input[current])
      invariant start <= current <= |input| && posIn <= pos <= 772 && AreDigits(input[start..current])
      invariant Remembered(seenIn + input[start..current], buffer[..pos], dropped) && exponent == exponentIn - (pos - posIn)
    {
      ghost var seen, kept := seenIn + input[start..current], buffer[..pos];
      assert input[start..current + 1] == input[start..current] + [input[current]];
      if pos < 772 {
        buffer[pos] := input[current];
        pos := pos + 1;
        exponent := exponent - 1;
        assert buffer[..pos] == kept + [input[current]];
        RememberKept(seen, kept, dropped, input[current]);
      } else {
        RememberDropped(seen, kept, dropped, input[current]);
        dropped := dropped || input[current] != '0';
      }
      assert seenIn + input[start..current + 1] == seen + [input[current]];
      current := current + 1;
    }
  }

  method SkipZeros(input: seq<char>, start: nat) returns (current: nat)
    requires start <= |input|
    ensures start <= current <= |input| && (current < |input| ==> input[current] != '0')
    ensures forall i :: start <= i < current ==> input[i] == '0'
  {
    current := start;
    while current < |input| && input[current] == '0'
      invariant start <= current <= |input|
      invariant forall i :: start <= i < current ==> input[i] == '0'
    {
      current := current + 1;
    }
  }

  // ----- the exponent -----

  /** The digits of the exponent; numbers beyond half of INT_MAX stick there. */
  method ScanExponentDigits(input: seq<char>, start: nat) returns (num: nat, current: nat)
    requires start < |input| && IsDigit(input[start])
    ensures start < current <= |input| && AreDigits(input[start..current]) && (current < |input| ==> !IsDigit(input[current]))
    ensures num == Min(DecimalValue(input[start..current]), 1073741823)
  {
    hide DecimalValue;
    num, current := 0, start;
    DecimalNone(input[start..current]);
    while current < |input| && IsDigit(input[current])
      invariant start <= current <= |input| && AreDigits(input[start..current])
      invariant num == Min(DecimalValue(input[start..current]), 1073741823)
    {
      ghost var s := input[start..current];
      DecimalBounds(s);
      DecimalAppend(s, input[current]);
      assert input[start..current + 1] == s + [input[current]];
      var digit := Digit(input[current]);
      if num >= 107374182 && !(num == 107374182 && digit <= 3) {
        num := 1073741823;
      } else {
        num := num * 10 + digit;
      }
      current := current + 1;
    }
  }

  // ----- from the digits to the double -----

  /** The kept digits, with a one for what was dropped, read to the double the whole number rounds to. */
  method ReadKept(buffer: array<char>, posIn: nat, dropped: bool, exponentIn: int, table: seq<CachedPower>,
      hardware: (seq<char>, int) -> Option<uint64>, ghost seen: seq<char>) returns (d: uint64)
    requires buffer.Length == 782 && posIn <= 772 && Remembered(seen, buffer[..posIn], dropped)
    requires IsPowerTable(table) && StartsAtLeastPower(table) && IsCorrectHardware(hardware)
    modifies buffer
    ensures RoundsTo(Read(seen, exponentIn - (|seen| - posIn)), d)
  {
    hide DecimalValue, Ten, RoundsTo, IsPowerTable, StartsAtLeastPower, IsCorrectHardware, Read;
    var pos, exponent := posIn, exponentIn;
    ghost var kept := buffer[..posIn];
    if dropped {
      buffer[pos] := '1';
      pos := pos + 1;
      exponent := exponent - 1;
      assert buffer[..pos] == kept + ['1'];
    }
    buffer[pos] := '\0';
    ghost var s := if dropped then kept + ['1'] else kept;
    assert buffer[..pos] == s;
    d := Strtod(buffer[..pos], exponent, table, hardware);
    if dropped {
      DroppedRounds(seen, kept, exponentIn, d);
    } else {
      NothingDropped(seen, kept, exponentIn);
    }
  }

  lemma NothingDropped(seen: seq<char>, kept: seq<char>, exponent: int)
    requires Remembered(seen, kept, false)
    ensures Read(seen, exponent - (|seen| - |kept|)) == Read(kept, exponent)
  {
    hide DecimalValue, Ten, Pow, DecimalAt;
    var rest := seen[|kept|..];
    assert seen == kept + rest;
    DecimalConcat(kept, rest);
    DecimalZeros(rest);
    DecimalAtShift(DecimalValue(kept), exponent - |rest|, |rest|);
  }

  lemma DroppedRounds(seen: seq<char>, kept: seq<char>, exponent: int, d: uint64)
    requires Remembered(seen, kept, true) && RoundsTo(Read(kept + ['1'], exponent - 1), d)
    ensures RoundsTo(Read(seen, exponent - (|seen| - |kept|)), d)
  {
    hide DecimalValue, Ten, Pow, RoundsTo, StrictlyWithin, Read;
    var rest := seen[|kept|..];
    assert seen == kept + rest;
    LeadingDigit(kept);
    TailIsWithin(kept, ['1'], exponent - 1);
    NonzeroTail(kept, rest, exponent - |rest|);
    RoundedIsPattern(Read(kept + ['1'], exponent - 1), d);
    CutIsHarmless(Read(seen, exponent - |rest|), Read(kept + ['1'], exponent - 1), DecimalValue(kept), 772, exponent, d);
  }

  /** Digits that are not all zero stay strictly between two neighbours, trailing zeros or not. */
  lemma {:induction false} NonzeroTail(head: seq<char>, tail: seq<char>, exponent: int)
    requires AreDigits(head) && AreDigits(tail) && exists i :: 0 <= i < |tail| && tail[i] != '0'
    ensures StrictlyWithin(Read(head + tail, exponent), DecimalValue(head), exponent + |tail|)
    decreases |tail|
  {
    hide DecimalValue, Ten, Pow, StrictlyWithin, Read;
    var n := |tail| - 1;
    if tail[n] != '0' {
      TailIsWithin(head, tail, exponent);
    } else {
      var i :| 0 <= i < |tail| && tail[i] != '0';
      assert tail[..n][i] != '0';
      NonzeroTail(head, tail[..n], exponent + 1);
      assert head + tail == (head + tail[..n]) + ['0'];
      DropZero(head + tail[..n], exponent);
    }
  }

  lemma DropZero(s: seq<char>, exponent: int)
    ensures Read(s + ['0'], exponent) == Read(s, exponent + 1)
  {
    hide DecimalValue, Ten, Pow, DecimalAt;
    DecimalAppend(s, '0');
    DecimalAtShift(DecimalValue(s), exponent, 1);
    PowNext(10, 0);
    PowNone(10);
  }

  // ----- the mantissa -----

  /** Where scanning the digits before the exponent has led. */
  datatype Stage = JunkFound | ZeroFound | AtEnd | GoOn

  /** The digits found so far and what is left to parse decide the parse. */
  ghost predicate ParsesFrom(input: seq<char>, sign: seq<char>, integral: seq<char>, dot: bool, fraction: seq<char>, current: nat) {
    && current <= |input| && AreDigits(integral) && AreDigits(fraction)
    && Parse(input) == if integral == [] && fraction == [] then None
      else var e := ParseExponent(input[current..]);
        if e.None? then None else Some(Literal(sign, integral, dot, fraction, e.value))
  }

  /** The numbers the scanner keeps stand for the digits found so far. */
  ghost predicate Stands(integral: seq<char>, fraction: seq<char>, seen: seq<char>, kept: seq<char>, dropped: bool, exponent: int) {
    && Remembered(seen, kept, dropped)
    && DecimalValue(seen) == DecimalValue(integral + fraction)
    && exponent == (|seen| - |kept|) - |fraction|
  }

  lemma SplitIntegral(input: seq<char>, start: nat, current: nat)
    requires start == |SignOf(input)| <= current <= |input|
    requires AreDigits(input[start..current]) && (current < |input| ==> !IsDigit(input[current]))
    ensures Parse(input) == ParseFraction(SignOf(input), input[start..current], input[current..])
  {
    hide Span, ParseFraction;
    var u := input[start..];
    assert u[..current - start] == input[start..current];
    SpanIs(u, current - start);
    assert u[current - start..] == input[current..];
  }

  lemma SplitNoDot(input: seq<char>, sign: seq<char>, integral: seq<char>, current: nat)
    requires current <= |input| && (current < |input| ==> input[current] != '.') && AreDigits(integral)
    requires Parse(input) == ParseFraction(sign, integral, input[current..])
    ensures ParsesFrom(input, sign, integral, false, [], current)
  {
    hide Span, ParseExponent, Parse;
    var t := input[current..];
    assert t[0..] == t;
  }

  lemma SplitDot(input: seq<char>, sign: seq<char>, integral: seq<char>, dotAt: nat, current: nat)
    requires dotAt < current <= |input| && input[dotAt] == '.' && AreDigits(integral)
    requires Parse(input) == ParseFraction(sign, integral, input[dotAt..])
    requires AreDigits(input[dotAt + 1..current]) && (current < |input| ==> !IsDigit(input[current]))
    ensures ParsesFrom(input, sign, integral, true, input[dotAt + 1..current], current)
  {
    hide Span, ParseExponent, Parse;
    var t := input[dotAt..];
    var u := input[dotAt + 1..];
    assert t[1..] == u;
    assert u[..current - dotAt - 1] == input[dotAt + 1..current];
    SpanIs(u, current - dotAt - 1);
    assert u[current - dotAt - 1..] == input[current..];
  }

  lemma LeadingZerosValue(zeros: seq<char>, s: seq<char>)
    requires forall i :: 0 <= i < |zeros| ==> zeros[i] == '0'
    ensures DecimalValue(zeros + s) == DecimalValue(s)
  {
    hide DecimalValue, Pow;
    DecimalConcat(zeros, s);
    DecimalZeros(zeros);
  }

  /** The integral digits, leading zeros skipped, and the fraction if there is a point. */
  method ScanMantissa(input: seq<char>, start: nat, buffer: array<char>)
    returns (stage: Stage, current: nat, pos: nat, insignificant: nat, dropped: bool, exponent: int,
      ghost integral: seq<char>, ghost dot: bool, ghost fraction: seq<char>, ghost seen: seq<char>)
    requires start == |SignOf(input)| < |input| && buffer.Length == 782
    modifies buffer
    ensures current <= |input| && pos <= 772
    ensures ParsesFrom(input, SignOf(input), integral, dot, fraction, current)
    ensures stage.JunkFound? <==> integral == [] && fraction == []
    ensures stage.ZeroFound? ==> current == |input| && DecimalValue(integral + fraction) == 0
    ensures stage.AtEnd? ==> current == |input|
    ensures stage.GoOn? ==> current < |input|
    ensures stage.AtEnd? || stage.GoOn? ==> Stands(integral, fraction, seen, buffer[..pos], dropped, exponent + insignificant)
  {
    hide DecimalValue, Span, ParseExponent, Parse, ParseFraction, Remembered, ParsesFrom, Stands;
    current, pos, insignificant, dropped, exponent := start, 0, 0, false, 0;
    seen, dot, fraction := [], false, [];
    var leadingZero := input[current] == '0';
    if leadingZero {
      current := SkipZeros(input, current);
      if current == |input| {
        integral := input[start..current];
        AllZeros(input, start);
        stage := ZeroFound;
        return;
      }
    }
    ghost var first := current;
    current, pos, insignificant, dropped := ScanIntegral(input, current, buffer);
    integral, seen := input[start..current], input[first..current];
    assert integral == input[start..first] + seen;
    SeenSize(seen, buffer[..pos], dropped);
    LeadingZerosValue(input[start..first], seen);
    SplitIntegral(input, start, current);
    if current == |input| {
      SplitNoDot(input, SignOf(input), integral, current);
      IntegralStands(integral, seen, buffer[..pos], dropped, insignificant);
      stage := AtEnd;
      return;
    }
    if input[current] == '.' {
      stage, current, pos, dropped, exponent, fraction, seen := ScanPoint(input, current, buffer, pos, insignificant, dropped,
        leadingZero, SignOf(input), integral, seen);
      dot := true;
    } else {
      SplitNoDot(input, SignOf(input), integral, current);
      IntegralStands(integral, seen, buffer[..pos], dropped, insignificant);
      stage := if !leadingZero && exponent == 0 && pos == 0 then JunkFound else GoOn;
    }
  }

  lemma AllZeros(input: seq<char>, start: nat)
    requires start == |SignOf(input)| <= |input| && forall i :: start <= i < |input| ==> input[i] == '0'
    ensures ParsesFrom(input, SignOf(input), input[start..|input|], false, [], |input|)
    ensures DecimalValue(input[start..|input|] + []) == 0
  {
    hide DecimalValue, Parse, ParseFraction, ParsesFrom;
    var zeros := input[start..|input|];
    assert forall i :: 0 <= i < |zeros| ==> zeros[i] == '0';
    assert zeros + [] == zeros;
    SplitIntegral(input, start, |input|);
    SplitNoDot(input, SignOf(input), input[start..|input|], |input|);
    DecimalZeros(input[start..|input|] + []);
  }

  lemma IntegralStands(integral: seq<char>, seen: seq<char>, kept: seq<char>, dropped: bool, insignificant: nat)
    requires Remembered(seen, kept, dropped) && DecimalValue(integral) == DecimalValue(seen) && |kept| + insignificant == |seen|
    ensures Stands(integral, [], seen, kept, dropped, insignificant)
  {
    assert integral + [] == integral;
  }

  /** The part after the decimal point. */
  method ScanPoint(input: seq<char>, dotAt: nat, buffer: array<char>, posIn: nat, insignificant: nat, droppedIn: bool,
      leadingZero: bool, ghost sign: seq<char>, ghost integral: seq<char>, ghost seenIn: seq<char>)
    returns (stage: Stage, current: nat, pos: nat, dropped: bool, exponent: int, ghost fraction: seq<char>, ghost seen: seq<char>)
    requires dotAt < |input| && input[dotAt] == '.' && buffer.Length == 782 && posIn <= 772 && AreDigits(integral)
    requires Parse(input) == ParseFraction(sign, integral, input[dotAt..])
    requires Remembered(seenIn, buffer[..posIn], droppedIn) && DecimalValue(integral) == DecimalValue(seenIn)
    requires posIn + insignificant == |seenIn| && (integral == [] <==> !leadingZero && posIn == 0)
    modifies buffer
    ensures current <= |input| && pos <= 772
    ensures ParsesFrom(input, sign, integral, true, fraction, current)
    ensures stage.JunkFound? <==> integral == [] && fraction == []
    ensures stage.ZeroFound? ==> current == |input| && DecimalValue(integral + fraction) == 0
    ensures stage.AtEnd? ==> current == |input|
    ensures stage.GoOn? ==> current < |input|
    ensures stage.AtEnd? || stage.GoOn? ==> Stands(integral, fraction, seen, buffer[..pos], dropped, exponent + insignificant)
  {
    hide DecimalValue, Span, ParseExponent, Parse, ParseFraction, Remembered, ParsesFrom, Stands;
    pos, dropped, exponent, seen := posIn, droppedIn, 0, seenIn;
    SeenSize(seen, buffer[..pos], dropped);
    current := dotAt + 1;
    if current == |input| {
      fraction := input[dotAt + 1..current];
      assert fraction == [];
      SplitDot(input, sign, integral, dotAt, current);
      IntegralStands(integral, seen, buffer[..pos], dropped, insignificant);
      stage := if pos == 0 && !leadingZero then JunkFound else AtEnd;
      return;
    }
    ghost var first := current;
    if pos == 0 {
      current := SkipZeros(input, current);
      if current == |input| {
        fraction := input[dotAt + 1..current];
        SplitDot(input, sign, integral, dotAt, current);
        NothingSeen(seenIn, buffer[..pos], droppedIn, insignificant);
        ZeroFraction(integral, fraction);
        stage := ZeroFound;
        return;
      }
      exponent := exponent - (current - (dotAt + 1));
      NothingSeen(seenIn, buffer[..pos], droppedIn, insignificant);
    }
    first := current;
    current, pos, dropped, exponent := ScanFraction(input, current, buffer, pos, dropped, exponent, seenIn);
    fraction, seen := input[dotAt + 1..current], seenIn + input[first..current];
    SplitDot(input, sign, integral, dotAt, current);
    FractionStands(integral, seenIn, input[dotAt + 1..first], input[first..current], buffer[..pos], dropped, exponent + insignificant);
    assert fraction == input[dotAt + 1..first] + input[first..current];
    SeenSize(seen, buffer[..pos], dropped);
    if current == |input| {
      stage := AtEnd;
    } else {
      stage := if !leadingZero && exponent == 0 && pos == 0 then JunkFound else GoOn;
    }
  }

  lemma NothingSeen(seen: seq<char>, kept: seq<char>, dropped: bool, insignificant: nat)
    requires Remembered(seen, kept, dropped) && kept == [] && |kept| + insignificant == |seen|
    ensures seen == [] && insignificant == 0
  {
  }

  lemma ZeroFraction(integral: seq<char>, fraction: seq<char>)
    requires DecimalValue(integral) == DecimalValue([]) && forall i :: 0 <= i < |fraction| ==> fraction[i] == '0'
    ensures DecimalValue(integral + fraction) == 0
  {
    hide DecimalValue, Pow;
    DecimalConcat(integral, fraction);
    DecimalZeros(fraction);
    DecimalNone([]);
  }

  lemma FractionStands(integral: seq<char>, seenIn: seq<char>, zeros: seq<char>, digits: seq<char>, kept: seq<char>,
      dropped: bool, exponent: int)
    requires Remembered(seenIn + digits, kept, dropped) && DecimalValue(integral) == DecimalValue(seenIn)
    requires forall i :: 0 <= i < |zeros| ==> zeros[i] == '0'
    requires zeros != [] ==> seenIn == []
    requires exponent == |seenIn| - |kept| - |zeros|
    ensures Stands(integral, zeros + digits, seenIn + digits, kept, dropped, exponent)
  {
    hide DecimalValue, Pow, Remembered;
    assert integral + (zeros + digits) == integral + zeros + digits;
    DecimalConcat(integral, zeros);
    DecimalConcat(integral + zeros, digits);
    DecimalConcat(seenIn, digits);
    DecimalZeros(zeros);
    if zeros == [] {
      PowNone(10);
    } else {
      DecimalNone(seenIn);
    }
  }

  // ----- the exponent part -----

  lemma SliceOfRest(t: seq<char>, from: nat, to: nat)
    requires from <= to <= |t|
    ensures t[from..][..to - from] == t[from..to] && (to < |t| ==> t[from..][to - from] == t[to])
  {
  }

  lemma NoSpan(t: seq<char>)
    requires t != [] && !IsDigit(t[0])
    ensures Span(t) == 0
  {
  }

  method ScanExponentPart(input: seq<char>, start: nat) returns (ok: bool, num: nat, negative: bool)
    requires start < |input|
    ensures ok <==> ParseExponent(input[start..]).Some?
    ensures ok ==> var e := ParseExponent(input[start..]).value;
      e.Some? && num == Min(DecimalValue(e.value.digits), 1073741823) && negative == (e.value.sign == ['-'])
  {
    hide DecimalValue, Span, AreDigits;
    num, negative := 0, false;
    ghost var t := input[start..];
    if input[start] != 'e' && input[start] != 'E' {
      // Trailing junk is not allowed.
      return false, num, negative;
    }
    var current := start + 1;
    assert t[1..] == input[current..];
    if current == |input| {
      return false, num, negative;
    }
    if input[current] == '+' || input[current] == '-' {
      negative := input[current] == '-';
      current := current + 1;
      if current == |input| {
        return false, num, negative;
      }
    }
    ghost var digits := t[1 + |SignOf(t[1..])|..];
    assert digits == input[current..];
    if !IsDigit(input[current]) {
      NoSpan(digits);
      return false, num, negative;
    }
    var from := current;
    num, current := ScanExponentDigits(input, current);
    SliceOfRest(input, from, current);
    SpanIs(digits, current - from);
    ok := current == |input|;
    if ok {
      assert digits == input[from..current];
    }
  }

  /** A saturated exponent reads the same: the number is infinite or zero either way. */
  lemma SaturatedRounds(v: int, length: nat, e: int, f: int, d: uint64)
    requires 0 <= v < Pow(10, length) && RoundsTo(DecimalAt(v, e), d)
    requires e == f || (400 <= e <= f) || (f <= e <= 0 - length - 400)
    ensures RoundsTo(DecimalAt(v, f), d)
  {
    hide Pow, RPow, Ten, Two, DecimalAt, RoundsTo;
    if v == 0 {
      ZeroAt(e);
      ZeroAt(f);
    } else if 400 <= e <= f {
      HugeRounds(v, e);
      HugeRounds(v, f);
      RoundsToUnique(DecimalAt(v, e), d, INFINITY);
    } else if e != f {
      TinyRounds(v, length, e);
      TinyRounds(v, length, f);
      RoundsToUnique(DecimalAt(v, e), d, 0);
    }
  }

  lemma HugeRounds(v: int, e: int)
    requires v >= 1 && e >= 400
    ensures RoundsTo(DecimalAt(v, e), INFINITY)
  {
    hide Pow, RPow, Ten, Two, DecimalAt, Midpoint;
    PowersApart();
    LargestMidpoint();
    TenMono(400, e);
    DecimalAtMono(1, v, e);
    PowNone(10);
    DecimalAtPower(0, e);
  }

  lemma TinyRounds(v: int, length: nat, e: int)
    requires 0 <= v < Pow(10, length) && e <= 0 - length - 400
    ensures RoundsTo(DecimalAt(v, e), 0)
  {
    hide Pow, RPow, Ten, Two, DecimalAt, Midpoint;
    PowersApart();
    LeastMidpoint();
    DecimalAtPower(length, e);
    DecimalAtMono(v, Pow(10, length), e);
    DecimalAtMono(0, v, e);
    ZeroAt(e);
    TenMono(e + length, -324);
    DecimalRange();
    TwoMono(-1076, -1075);
  }

  // ----- the whole scanner -----

  datatype Reading = Junk | NotANumber(negative: bool) | Number(negative: bool, bits: uint64)

  predicate IsWhitespace(c: char) {
    var x := c as int;
    if x < 128 then x in {32, 13, 10, 9, 11, 12}
    else x in {160, 8232, 8233, 5760, 6158, 8192, 8193, 8194, 8195, 8196, 8197, 8198, 8199, 8200, 8201, 8202, 8239, 8287,
      12288, 65279}
  }

  method AdvanceToNonspace(input: seq<char>, start: nat) returns (current: nat, found: bool)
    requires start <= |input|
    ensures start <= current <= |input| && (found <==> current < |input|)
    ensures start < current ==> IsWhitespace(input[start])
    ensures found ==> !IsWhitespace(input[current])
  {
    current := start;
    while current < |input|
      invariant start <= current <= |input| && (start < current ==> IsWhitespace(input[start]))
    {
      if !IsWhitespace(input[current]) {
        return current, true;
      }
      current := current + 1;
    }
    found := false;
  }

  /** The rest of the input is exactly the name. */
  method ConsumeName(input: seq<char>, start: nat, name: seq<char>) returns (ok: bool)
    requires start < |input| && name != [] && input[start] == name[0]
    ensures ok <==> input[start..] == name
  {
    var i := 1;
    while i < |name|
      invariant 1 <= i <= |name| && start + i <= |input| && input[start..start + i] == name[..i]
    {
      if start + i == |input| {
        return false;
      }
      if input[start + i] != name[i] {
        assert input[start..][i] == input[start + i];
        return false;
      }
      i := i + 1;
    }
    ok := start + i == |input|;
    assert input[start..start + i] == name;
  }

  /** After the sign the text is this name. */
  predicate Names(t: seq<char>, name: seq<char>) { t[|SignOf(t)|..] == name }

  /** Reads exactly the literals of the grammar, and the names of infinity and of what is not a
      number, all of the input or nothing; a literal is read to the nearest double. */
  method StringToIeee(input: seq<char>, table: seq<CachedPower>, hardware: (seq<char>, int) -> Option<uint64>)
    returns (r: Reading, processed: nat)
    requires |input| < 0x3FFF_F000
    requires IsPowerTable(table) && StartsAtLeastPower(table) && IsCorrectHardware(hardware)
    ensures r.Junk? <==> !Names(input, "INF") && !Names(input, "NAN") && Parse(input).None?
    ensures r.NotANumber? <==> Names(input, "NAN")
    ensures !r.Junk? ==> input != [] && (r.negative <==> input[0] == '-')
    ensures input == "INF" || input == "+INF" ==> r == Number(false, INFINITY)
    ensures input == "-INF" ==> r == Number(true, INFINITY)
    ensures input == "NAN" || input == "+NAN" ==> r == NotANumber(false)
    ensures input == "-NAN" ==> r == NotANumber(true)
    ensures r.Number? ==> if Names(input, "INF") then r.bits == INFINITY
      else Parse(input).Some? && RoundsTo(Magnitude(Parse(input).value), r.bits)
    ensures processed == if r.Junk? then 0 else |input|
  {
    hide DecimalValue, Span, ParseExponent, ParseFraction, Parse, ParsesFrom, RoundsTo, IsPowerTable, StartsAtLeastPower,
      IsCorrectHardware, Magnitude;
    var current := 0;
    if |input| == 0 {
      EmptyIsJunk(input);
      return Junk, 0;
    }
    var sign := false;
    if input[current] == '+' || input[current] == '-' {
      sign := input[current] == '-';
      current := current + 1;
      var nextNonSpace, found := AdvanceToNonspace(input, current);
      if !found || current != nextNonSpace {
        NoDigitIsJunk(input);
        return Junk, 0;
      }
    }
    assert current == |SignOf(input)|;
    SignedNames(input);
    if input[current] == 'I' || input[current] == 'N' {
      NoDigitIsJunk(input);
      var named := ConsumeName(input, current, if input[current] == 'I' then "INF" else "NAN");
      if !named {
        return Junk, 0;
      }
      return if input[current] == 'I' then Number(sign, INFINITY) else NotANumber(sign), |input|;
    }
    r, processed := ScanNumber(input, current, sign, table, hardware);
  }

  /** A name stands alone or behind a sign. */
  lemma SignedNames(t: seq<char>)
    ensures Names(t, "INF") <==> t == "INF" || t == "+INF" || t == "-INF"
    ensures Names(t, "NAN") <==> t == "NAN" || t == "+NAN" || t == "-NAN"
  {
    hide Names;
    SignedName(t, "INF");
    SignedName(t, "NAN");
    assert ['+'] + "INF" == "+INF" && ['-'] + "INF" == "-INF";
    assert ['+'] + "NAN" == "+NAN" && ['-'] + "NAN" == "-NAN";
  }

  lemma SignedName(t: seq<char>, name: seq<char>)
    requires name != [] && !StartsWithSign(name)
    ensures Names(t, name) <==> t == name || t == ['+'] + name || t == ['-'] + name
  {
    if StartsWithSign(t) {
      assert t == [t[0]] + t[1..];
    } else {
      assert t[0..] == t;
    }
  }

  lemma EmptyIsJunk(t: seq<char>)
    requires t == []
    ensures Parse(t).None? && !Names(t, "INF") && !Names(t, "NAN")
  {
  }

  /** Without a digit or a point after the sign there is no literal. */
  lemma NoDigitIsJunk(t: seq<char>)
    requires var u := t[|SignOf(t)|..]; u == [] || (!IsDigit(u[0]) && u[0] != '.')
    ensures Parse(t).None?
  {
    var u := t[|SignOf(t)|..];
    SpanIs(u, 0);
    assert u[0..] == u;
  }

  method ScanNumber(input: seq<char>, start: nat, sign: bool, table: seq<CachedPower>,
      hardware: (seq<char>, int) -> Option<uint64>) returns (r: Reading, processed: nat)
    requires start == |SignOf(input)| < |input| < 0x3FFF_F000 && (sign <==> SignOf(input) == ['-'])
    requires IsPowerTable(table) && StartsAtLeastPower(table) && IsCorrectHardware(hardware)
    ensures !r.NotANumber? && (r.Junk? <==> Parse(input).None?)
    ensures r.Number? ==> r.negative == sign && Parse(input).Some? && RoundsTo(Magnitude(Parse(input).value), r.bits)
    ensures processed == if r.Junk? then 0 else |input|
  {
    hide DecimalValue, Span, ParseExponent, ParseFraction, Parse, Remembered, RoundsTo, IsPowerTable, StartsAtLeastPower,
      IsCorrectHardware, Magnitude, Stands;
    var buffer := new char[782];
    var stage, current, pos, insignificant, dropped, exponent;
    ghost var integral, dot, fraction, seen;
    stage, current, pos, insignificant, dropped, exponent, integral, dot, fraction, seen := ScanMantissa(input, start, buffer);
    MantissaLiteral(input, SignOf(input), integral, dot, fraction, current);
    if stage.JunkFound? {
      return Junk, 0;
    }
    if stage.ZeroFound? {
      ZeroLiteral(Parse(input).value);
      return Number(sign, 0), |input|;
    }
    ghost var kept, place := buffer[..pos], exponent + insignificant;
    var num, negative := 0, false;
    if stage.GoOn? {
      var ok;
      ok, num, negative := ScanExponentPart(input, current);
      if !ok {
        return Junk, 0;
      }
      exponent := exponent + if negative then 0 - num else num;
    }
    exponent := exponent + insignificant;
    RememberedOf(integral, fraction, seen, kept, dropped, place);
    var d := ReadKept(buffer, pos, dropped, exponent, table, hardware, seen);
    ParsedText(input);
    LiteralRounds(Parse(input).value, seen, kept, dropped, place, num, negative, d);
    return Number(sign, d), |input|;
  }

  lemma RememberedOf(integral: seq<char>, fraction: seq<char>, seen: seq<char>, kept: seq<char>, dropped: bool, place: int)
    requires Stands(integral, fraction, seen, kept, dropped, place)
    ensures Remembered(seen, kept, dropped)
  {
  }

  /** How the digits found and the rest of the input make up the parse. */
  lemma MantissaLiteral(input: seq<char>, sign: seq<char>, integral: seq<char>, dot: bool, fraction: seq<char>, current: nat)
    requires ParsesFrom(input, sign, integral, dot, fraction, current)
    ensures integral == [] && fraction == [] ==> Parse(input).None?
    ensures integral != [] || fraction != [] ==> (
      var e := ParseExponent(input[current..]);
      Parse(input) == if e.None? then None else Some(Literal(sign, integral, dot, fraction, e.value)))
    ensures current == |input| ==> ParseExponent(input[current..]) == Some(None)
  {
    hide Parse, Span;
  }

  lemma ZeroLiteral(l: Literal)
    requires DecimalValue(l.integral + l.fraction) == 0
    ensures RoundsTo(Magnitude(l), 0)
  {
    hide DecimalValue, RPow, Ten, Two;
    ZeroAt(DecimalExponent(l) - |l.fraction|);
    LeastMidpoint();
  }

  /** The double read is the one the literal denotes. */
  lemma LiteralRounds(l: Literal, seen: seq<char>, kept: seq<char>, dropped: bool, place: int, num: nat, negative: bool, d: uint64)
    requires WellFormed(l) && |Text(l)| < 0x3FFF_F000
    requires Stands(l.integral, l.fraction, seen, kept, dropped, place)
    requires l.exponent.None? ==> num == 0 && !negative
    requires l.exponent.Some? ==>
      num == Min(DecimalValue(l.exponent.value.digits), 1073741823) && negative == (l.exponent.value.sign == ['-'])
    requires RoundsTo(Read(seen, place + (if negative then 0 - num else num) - (|seen| - |kept|)), d)
    ensures RoundsTo(Magnitude(l), d)
  {
    hide DecimalValue, Pow, Ten, Two, DecimalAt, RoundsTo, Remembered;
    var digits := l.integral + l.fraction;
    DecimalBounds(digits);
    assert |Text(l)| >= |digits|;
    var e := (if negative then 0 - num else num) - |l.fraction|;
    if l.exponent.Some? {
      DecimalBounds(l.exponent.value.digits);
    }
    SaturatedRounds(DecimalValue(digits), |digits|, e, DecimalExponent(l) - |l.fraction|, d);
  }
}
