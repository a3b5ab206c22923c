// Preparing a digit buffer for reading: trimming, cutting to 780 digits, and the first digits as a
// 64-bit integer (strtod.cc).
module StrtodBuffers {
  import opened MachineInts
  import opened Powers
  import opened RealPowers
  import opened Decimals
  import opened DecimalRounding
  import opened DigitFilling
  import opened DiyFps

  /** The number that digits and a decimal exponent stand for. */
  function Read(s: seq<char>, exponent: int): real { DecimalAt(DecimalValue(s), exponent) }

  /** The digits start and end with something else than zero. */
  ghost predicate Trimmed(s: seq<char>) {
    AreDigits(s) && (s != [] ==> s[0] != '0' && s[|s| - 1] != '0')
  }

  method TrimLeadingZeros(buffer: seq<char>) returns (trimmed: seq<char>)
    requires AreDigits(buffer)
    ensures AreDigits(trimmed) && (trimmed != [] ==> trimmed[0] != '0')
    ensures DecimalValue(trimmed) == DecimalValue(buffer) && |trimmed| <= |buffer|
  {
    hide DecimalValue;
    for i := 0 to |buffer|
      invariant DecimalValue(buffer[i..]) == DecimalValue(buffer)
    {
      if buffer[i] != '0' {
        return buffer[i..];
      }
      assert buffer[i..] == ['0'] + buffer[i + 1..];
      Prepend('0', buffer[i + 1..]);
    }
    DecimalNone(buffer[|buffer|..]);
    DecimalNone(buffer[..0]);
    return buffer[..0];
  }

  method TrimTrailingZeros(buffer: seq<char>, ghost exponent: int) returns (trimmed: seq<char>)
    requires AreDigits(buffer)
    ensures trimmed <= buffer && AreDigits(trimmed) && (trimmed != [] ==> trimmed[|trimmed| - 1] != '0')
    ensures Read(trimmed, exponent + |buffer| - |trimmed|) == Read(buffer, exponent)
  {
    hide DecimalValue, Ten;
    var i := |buffer| - 1;
    assert buffer[..i + 1] == buffer;
    while i >= 0
      invariant -1 <= i < |buffer| && Read(buffer[..i + 1], exponent + |buffer| - (i + 1)) == Read(buffer, exponent)
      decreases i
    {
      if buffer[i] != '0' {
        return buffer[..i + 1];
      }
      assert buffer[..i + 1] == buffer[..i] + ['0'];
      TrailingZero(buffer[..i], exponent + |buffer|);
      i := i - 1;
    }
    return buffer[..0];
  }

  /** X lies strictly between the n digits kept and the next number of as many digits. */
  ghost predicate StrictlyWithin(x: real, digits: int, place: int) {
    DecimalAt(digits, place) < x < DecimalAt(digits + 1, place)
  }

  /** The first 779 digits and a '1' instead of all the rest. */
  method CutToMaxSignificantDigits(buffer: seq<char>, exponent: int, space: array<char>) returns (significantExponent: int)
    requires |buffer| > 780 && Trimmed(buffer) && space.Length == 780
    modifies space
    ensures Trimmed(space[..]) && significantExponent + 780 == exponent + |buffer|
    ensures space[..779] == buffer[..779]
    ensures StrictlyWithin(Read(buffer, exponent), DecimalValue(buffer[..779]), significantExponent + 1)
    ensures StrictlyWithin(Read(space[..], significantExponent), DecimalValue(buffer[..779]), significantExponent + 1)
  {
    hide DecimalValue, Ten;
    for i := 0 to 779
      invariant space[..i] == buffer[..i]
    {
      space[i] := buffer[i];
    }
    space[779] := '1';
    significantExponent := exponent + (|buffer| - 780);
    assert space[..] == buffer[..779] + ['1'];
    assert space[..779] == buffer[..779];
    assert buffer == buffer[..779] + buffer[779..];
    TailIsWithin(buffer[..779], ['1'], significantExponent);
    TailIsWithin(buffer[..779], buffer[779..], exponent);
  }

  /** Digits after a cut, unless they are all zero, stay within one unit of the last place kept. */
  lemma TailIsWithin(head: seq<char>, tail: seq<char>, exponent: int)
    requires AreDigits(head) && AreDigits(tail) && tail != [] && tail[|tail| - 1] != '0'
    ensures StrictlyWithin(Read(head + tail, exponent), DecimalValue(head), exponent + |tail|)
  {
    hide DecimalValue, Pow, DecimalAt, Ten;
    DecimalConcat(head, tail);
    TailPositive(tail);
    DecimalBounds(tail);
    var h, p := DecimalValue(head), Pow(10, |tail|);
    DecimalAtShift(h, exponent, |tail|);
    DecimalAtShift(h + 1, exponent, |tail|);
    Distribute(p, h, 1);
    DecimalAtMono(h * p, DecimalValue(head + tail), exponent);
    DecimalAtMono(DecimalValue(head + tail), (h + 1) * p, exponent);
  }

  lemma TailPositive(s: seq<char>)
    requires s != [] && AreDigits(s) && s[|s| - 1] != '0'
    ensures DecimalValue(s) > 0
  {
    DecimalBounds(s[..|s| - 1]);
  }

  /** What trimming and cutting may do to the number: nothing, or move it between two neighbours of
      779 digits. */
  ghost predicate SameUpTo779Digits(s: seq<char>, e: int, t: seq<char>, f: int) {
    || Read(s, e) == Read(t, f)
    || (|t| == 780 && StrictlyWithin(Read(s, e), DecimalValue(t[..779]), f + 1)
        && StrictlyWithin(Read(t, f), DecimalValue(t[..779]), f + 1))
  }

  method TrimAndCut(buffer: seq<char>, exponent: int, space: array<char>) returns (trimmed: seq<char>, updatedExponent: int)
    requires AreDigits(buffer) && space.Length == 780
    modifies space
    ensures Trimmed(trimmed) && |trimmed| <= 780 && SameUpTo779Digits(buffer, exponent, trimmed, updatedExponent)
  {
    hide DecimalValue, Ten, DecimalAt;
    var leftTrimmed := TrimLeadingZeros(buffer);
    var rightTrimmed := TrimTrailingZeros(leftTrimmed, exponent);
    var e := exponent + |leftTrimmed| - |rightTrimmed|;
    if |rightTrimmed| > 780 {
      updatedExponent := CutToMaxSignificantDigits(rightTrimmed, e, space);
      trimmed := space[..];
      assert trimmed[..779] == space[..779];
    } else {
      trimmed := rightTrimmed;
      updatedExponent := e;
    }
  }

  // ----- the first digits -----

  /** Reads digits until the next one might not fit. */
  method ReadUint64(buffer: seq<char>) returns (result: uint64, numberOfReadDigits: nat)
    requires AreDigits(buffer)
    ensures numberOfReadDigits <= |buffer| && result == DecimalValue(buffer[..numberOfReadDigits])
    ensures numberOfReadDigits < |buffer| ==> result > 1844674407370955160
    ensures result <= 18446744073709551609
  {
    hide DecimalValue;
    result := 0;
    var i := 0;
    DecimalNone(buffer[..0]);
    while i < |buffer| && result <= 1844674407370955160
      invariant 0 <= i <= |buffer| && result == DecimalValue(buffer[..i]) && result <= 18446744073709551609
    {
      DecimalPush(buffer, i);
      result := 10 * result + Digit(buffer[i]);
      i := i + 1;
    }
    numberOfReadDigits := i;
  }

  /** The digits as a DiyFp: exact if all could be read, otherwise rounded to nearest. */
  method ReadDiyFp(buffer: seq<char>) returns (result: DiyFp, remainingDecimals: nat)
    requires AreDigits(buffer)
    ensures fresh(result) && result.e == 0 && remainingDecimals <= |buffer|
    ensures remainingDecimals == 0 ==> result.f == DecimalValue(buffer)
    ensures remainingDecimals > 0 ==> result.f > 1844674407370955160
    ensures var p := Pow(10, remainingDecimals);
      (2 * (result.f as int) - 1) * p <= 2 * DecimalValue(buffer) && 2 * DecimalValue(buffer) < (2 * result.f + 1) * p
  {
    hide DecimalValue, Pow;
    var significand: uint64, readDigits := ReadUint64(buffer);
    PowNone(10);
    if |buffer| == readDigits {
      assert buffer[..readDigits] == buffer;
      result := new DiyFp(significand, 0);
      remainingDecimals := 0;
    } else {
      CutAfter(buffer, readDigits);
      if buffer[readDigits] >= '5' {
        significand := significand + 1;
      }
      result := new DiyFp(significand, 0);
      remainingDecimals := |buffer| - readDigits;
    }
  }

  /** The first digit dropped tells on which side of the middle the rest lies. */
  lemma CutAfter(s: seq<char>, i: nat)
    requires AreDigits(s) && i < |s|
    ensures var h, p, x := DecimalValue(s[..i]), Pow(10, |s| - i), DecimalValue(s);
      if s[i] >= '5' then (2 * (h + 1) - 1) * p <= 2 * x && 2 * x < (2 * (h + 1) + 1) * p
      else (2 * h - 1) * p <= 2 * x && 2 * x < (2 * h + 1) * p
  {
    hide DecimalValue, Pow;
    var h, q := DecimalValue(s[..i]), Pow(10, |s| - i - 1);
    var t := s[i + 1..];
    assert s == s[..i + 1] + t;
    DecimalConcat(s[..i + 1], t);
    DecimalPush(s, i);
    DecimalBounds(t);
    PowNext(10, |s| - i - 1);
    SidesOfMiddle(h, Digit(s[i]), q, DecimalValue(t));
  }

  lemma SidesOfMiddle(h: int, digit: int, q: nat, rest: int)
    requires 0 <= digit <= 9 && 0 <= rest < q
    ensures var p, x := 10 * q, (10 * h + digit) * q + rest;
      if digit >= 5 then (2 * (h + 1) - 1) * p <= 2 * x && 2 * x < (2 * (h + 1) + 1) * p
      else (2 * h - 1) * p <= 2 * x && 2 * x < (2 * h + 1) * p
  {
    SidesProducts(h, digit, q, h * q, digit * q);
    MulMono(digit, 9, q);
    MulMono(0, digit, q);
    if digit >= 5 {
      MulMono(5, digit, q);
    } else {
      MulMono(digit, 4, q);
    }
  }

  lemma SidesProducts(h: int, digit: int, q: nat, z: int, w: int)
    requires z == h * q && w == digit * q
    ensures (10 * h + digit) * q == 10 * z + w
    ensures (2 * h + 1) * (10 * q) == 20 * z + 10 * q && (2 * (h + 1) - 1) * (10 * q) == 20 * z + 10 * q
    ensures (2 * h - 1) * (10 * q) == 20 * z - 10 * q && (2 * (h + 1) + 1) * (10 * q) == 20 * z + 30 * q
  {
  }
}
