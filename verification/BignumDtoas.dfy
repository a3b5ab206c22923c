// Digit generation with exact big integers: bignum-dtoa.cc.
module BignumDtoas {
  import opened MachineInts
  import opened Powers
  import opened Bigits
  import opened Decimals
  import opened DigitBuffers
  import opened DigitRatios
  import opened Bignums

  ghost predicate Apart(a: Bignum, b: Bignum) {
    a != b && a.bigits != b.bigits
  }

  /** Room in the 128 digits for anything the digit loops do to a number of this size. */
  ghost predicate Small(v: int) { 10 * v < Weight(120) }

  lemma SmallFits(a: Bignum)
    requires a.Valid() && Small(a.Value())
    ensures a.BigitLength() <= 120
    ensures 10 * a.Value() < Weight(a.exponent + 128)
  {
    hide Weight;
    a.LengthIs(120);
    WeightMono(120, a.exponent + 128);
  }

  /** One decimal digit: the quotient, which is at most nine, with the remainder left behind. */
  method NextDigit(numerator: Bignum, denominator: Bignum) returns (digit: uint16)
    requires numerator.Valid() && denominator.Valid() && Apart(numerator, denominator)
    requires 0 < denominator.Value() && numerator.Value() < 10 * denominator.Value()
    requires Small(denominator.Value())
    modifies numerator, numerator.bigits
    ensures numerator.Valid() && digit <= 9
    ensures old(numerator.Value()) == digit * denominator.Value() + numerator.Value()
    ensures numerator.Value() < denominator.Value()
  {
    hide Weight;
    numerator.LengthIs(120);
    denominator.NonzeroUsed();
    digit := numerator.DivideModuloIntBignum(denominator);
    DigitAtMostNine(old(numerator.Value()), denominator.Value(), digit, numerator.Value());
  }

  /** Whether rounding down, or up, in the last place stays inside the interval. */
  method InDeltaRoom(numerator: Bignum, denominator: Bignum, deltaMinus: Bignum, deltaPlus: Bignum, isEven: bool)
    returns (minus: bool, plus: bool)
    requires numerator.Valid() && denominator.Valid() && deltaMinus.Valid() && deltaPlus.Valid()
    ensures minus <==> if isEven then numerator.Value() <= deltaMinus.Value() else numerator.Value() < deltaMinus.Value()
    ensures plus <==> if isEven then numerator.Value() + deltaPlus.Value() >= denominator.Value()
      else numerator.Value() + deltaPlus.Value() > denominator.Value()
  {
    if isEven {
      minus := Bignum.LessEqual(numerator, deltaMinus);
    } else {
      minus := Bignum.Less(numerator, deltaMinus);
    }
    var compare := Bignum.PlusCompare(numerator, deltaPlus, denominator);
    plus := if isEven then compare >= 0 else compare > 0;
  }

  /** Everything times ten for the next digit; a shared delta is multiplied once. */
  method PrepareNextDigit(numerator: Bignum, deltaMinus: Bignum, deltaPlus: Bignum)
    requires numerator.Valid() && deltaMinus.Valid() && deltaPlus.Valid()
    requires Apart(numerator, deltaMinus) && Apart(numerator, deltaPlus)
    requires deltaMinus == deltaPlus || Apart(deltaMinus, deltaPlus)
    requires Small(numerator.Value()) && Small(deltaMinus.Value()) && Small(deltaPlus.Value())
    modifies numerator, numerator.bigits, deltaMinus, deltaMinus.bigits, deltaPlus, deltaPlus.bigits
    ensures numerator.Valid() && deltaMinus.Valid() && deltaPlus.Valid()
    ensures numerator.Value() == 10 * old(numerator.Value())
    ensures deltaMinus.Value() == 10 * old(deltaMinus.Value())
    ensures deltaPlus.Value() == 10 * old(deltaPlus.Value())
  {
    hide Weight;
    SmallFits(numerator);
    SmallFits(deltaMinus);
    SmallFits(deltaPlus);
    numerator.Times10();
    deltaMinus.Times10();
    if deltaMinus != deltaPlus {
      deltaPlus.Times10();
    }
  }

  /** The last digit stays or goes up by one; it is never a nine that goes up. */
  method RoundLastDigit(numerator: Bignum, denominator: Bignum, minus: bool, plus: bool,
      buffer: array<char>, length: nat, ghost q: Ratio, ghost scale: nat)
    requires numerator.Valid() && denominator.Valid()
    requires q.Valid() && q.d == denominator.Value() && scale > 0
    requires 1 <= length <= buffer.Length && AreDigits(buffer[..length])
    requires q.n * scale == DecimalValue(buffer[..length]) * q.d + numerator.Value() && numerator.Value() < q.d
    requires minus == RoomBelow(q, numerator.Value(), scale) && plus == RoomAbove(q, numerator.Value(), scale)
    requires minus || plus
    requires plus ==> buffer[length - 1] != '9'
    requires buffer[0] == '0' ==> length == 1 && plus && !minus
    modifies buffer
    ensures AreDigits(buffer[..length]) && buffer[0] != '0'
    ensures ClosestInside(q, scale, DecimalValue(buffer[..length]))
  {
    hide ClosestInside, RoomBelow, RoomAbove;
    ghost var digits, rest := DecimalValue(buffer[..length]), numerator.Value();
    var up := plus;
    if minus && plus {
      var compare := Bignum.PlusCompare(numerator, numerator, denominator);
      if compare < 0 {
        up := false;
      } else if compare > 0 {
        up := true;
      } else {
        // Half way: the even digit.
        up := Digit(buffer[length - 1]) % 2 != 0;
      }
    }
    LastDigitParity(buffer[..length]);
    ChoiceIsClosest(q, scale, digits, rest, up);
    if up {
      IncrementLast(buffer, length);
    }
  }

  lemma LastDigitParity(s: seq<char>)
    requires s != []
    ensures DecimalValue(s) % 2 == Digit(s[|s| - 1]) % 2
  {
  }

  lemma NoNineGoesUp(q: Ratio, num: int, digit: int, rest: int, top: int)
    requires q.Valid() && q.BelowTen(num, top) && num == digit * q.d + rest
    ensures digit == 9 ==> !(if q.even then rest + top >= q.d else rest + top > q.d)
  {
  }

  /** What holds before each digit of the shortest loop: the digits and the remainder still denote
      the ratio, the deltas have grown with the remainder, and no prefix could have stopped it. */
  ghost predicate ShortestState(q: Ratio, numerator: Bignum, deltaMinus: Bignum, deltaPlus: Bignum, s: seq<char>)
    reads numerator, numerator.bigits, deltaMinus, deltaMinus.bigits, deltaPlus, deltaPlus.bigits
  {
    && numerator.Valid() && deltaMinus.Valid() && deltaPlus.Valid()
    && AreDigits(s)
    && q.n * Pow(10, |s|) == 10 * DecimalValue(s) * q.d + numerator.Value()
    && deltaMinus.Value() == q.below * Pow(10, |s|)
    && deltaPlus.Value() == q.above * Pow(10, |s|)
    && q.BelowTen(numerator.Value(), deltaPlus.Value())
    && (s == [] ==> numerator.Value() == q.n)
    && (s != [] ==> s[0] != '0' && NoneInside(q, Pow(10, |s| - 1)))
  }

  /** Generates digits until they denote the ratio. Sharing one object for two equal deltas does
      not show in the result. */
  method GenerateShortestDigits(numerator: Bignum, denominator: Bignum, deltaMinus: Bignum, deltaPlus: Bignum,
      isEven: bool, buffer: array<char>, ghost q: Ratio, ghost maxDigits: nat) returns (length: nat)
    requires numerator.Valid() && denominator.Valid() && deltaMinus.Valid() && deltaPlus.Valid()
    requires Apart(numerator, denominator) && Apart(numerator, deltaMinus) && Apart(numerator, deltaPlus)
    requires Apart(denominator, deltaMinus) && Apart(denominator, deltaPlus) && Apart(deltaMinus, deltaPlus)
    requires q == Ratio(numerator.Value(), denominator.Value(), deltaMinus.Value(), deltaPlus.Value(), isEven)
    requires q.Valid() && q.BelowTen(q.n, q.above) && q.ReachesOne() && Small(q.d)
    requires 1 <= maxDigits <= buffer.Length
    requires q.d < (q.below + q.above) * Pow(10, maxDigits - 1)
    modifies numerator, numerator.bigits, deltaMinus, deltaMinus.bigits, deltaPlus, deltaPlus.bigits, buffer
    ensures length <= maxDigits && ShortestResult(q, buffer[..length])
  {
    hide Weight, Pow, Ratio.Inside;
    var plus := deltaPlus;
    var same := Bignum.Equal(deltaMinus, deltaPlus);
    if same {
      plus := deltaMinus;
    }
    length := 0;
    PowNone(10);
    DecimalNone(buffer[..0]);
    var done := false;
    while !done
      invariant 0 <= length <= maxDigits
      invariant done ==> ShortestResult(q, buffer[..length])
      invariant !done ==> length < maxDigits && ShortestState(q, numerator, deltaMinus, plus, buffer[..length])
      decreases !done, maxDigits - length
    {
      done := ShortestStep(numerator, denominator, deltaMinus, plus, isEven, buffer, length, q, maxDigits);
      length := length + 1;
    }
  }

  method ShortestStep(numerator: Bignum, denominator: Bignum, deltaMinus: Bignum, deltaPlus: Bignum,
      isEven: bool, buffer: array<char>, length: nat, ghost q: Ratio, ghost maxDigits: nat) returns (done: bool)
    requires length < maxDigits <= buffer.Length && denominator.Valid()
    requires Apart(numerator, denominator) && Apart(numerator, deltaMinus) && Apart(numerator, deltaPlus)
    requires Apart(denominator, deltaMinus) && Apart(denominator, deltaPlus)
    requires deltaMinus == deltaPlus || Apart(deltaMinus, deltaPlus)
    requires q.Valid() && q.ReachesOne() && Small(q.d) && q.d == denominator.Value() && q.even == isEven
    requires q.d < (q.below + q.above) * Pow(10, maxDigits - 1)
    requires ShortestState(q, numerator, deltaMinus, deltaPlus, buffer[..length])
    modifies numerator, numerator.bigits, deltaMinus, deltaMinus.bigits, deltaPlus, deltaPlus.bigits, buffer
    ensures done ==> ShortestResult(q, buffer[..length + 1])
    ensures !done ==> length + 1 < maxDigits && ShortestState(q, numerator, deltaMinus, deltaPlus, buffer[..length + 1])
  {
    hide Weight, Pow, Ratio.Inside, DecimalValue, NoneInside, ClosestInside;
    ghost var scale, num, s := Pow(10, length), numerator.Value(), buffer[..length];
    var digit := NextDigit(numerator, denominator);
    buffer[length] := DigitChar(digit);
    ghost var rest, t := numerator.Value(), buffer[..length + 1];
    assert t == s + [DigitChar(digit)];
    FirstDigit(q, s, num, digit, rest, scale);
    ShortestArith(q, s, num, digit, rest, scale, deltaPlus.Value());
    done := StopOrGoOn(numerator, denominator, deltaMinus, deltaPlus, isEven, buffer, length + 1, q, scale, maxDigits);
  }

  /** What a new digit leaves to decide about. */
  ghost predicate AfterDigit(q: Ratio, rest: int, scale: nat, s: seq<char>) {
    && s != [] && AreDigits(s) && scale == Pow(10, |s| - 1) && Pow(10, |s|) == 10 * scale
    && q.n * scale == DecimalValue(s) * q.d + rest && 0 <= rest < q.d
    && q.n * Pow(10, |s|) == 10 * DecimalValue(s) * q.d + 10 * rest
    && (s[|s| - 1] == '9' ==> !RoomAbove(q, rest, scale))
    && (s[0] == '0' ==> |s| == 1 && RoomAbove(q, rest, scale) && !RoomBelow(q, rest, scale))
  }

  method StopOrGoOn(numerator: Bignum, denominator: Bignum, deltaMinus: Bignum, deltaPlus: Bignum, isEven: bool,
      buffer: array<char>, length: nat, ghost q: Ratio, ghost scale: nat, ghost maxDigits: nat) returns (done: bool)
    requires numerator.Valid() && denominator.Valid() && deltaMinus.Valid() && deltaPlus.Valid()
    requires Apart(numerator, deltaMinus) && Apart(numerator, deltaPlus)
    requires deltaMinus == deltaPlus || Apart(deltaMinus, deltaPlus)
    requires q.Valid() && Small(q.d) && q.d == denominator.Value() && q.even == isEven
    requires 1 <= length <= maxDigits <= buffer.Length
    requires q.d < (q.below + q.above) * Pow(10, maxDigits - 1)
    requires deltaMinus.Value() == q.below * scale && deltaPlus.Value() == q.above * scale
    requires AfterDigit(q, numerator.Value(), scale, buffer[..length])
    modifies numerator, numerator.bigits, deltaMinus, deltaMinus.bigits, deltaPlus, deltaPlus.bigits, buffer
    ensures done ==> ClosestInside(q, scale, DecimalValue(buffer[..length])) && AreDigits(buffer[..length]) && buffer[0] != '0'
    ensures !done ==> length < maxDigits && ShortestState(q, numerator, deltaMinus, deltaPlus, buffer[..length])
  {
    hide Weight, Pow, Ratio.Inside, DecimalValue, NoneInside, ClosestInside;
    ghost var rest, s := numerator.Value(), buffer[..length];
    var roomMinus, roomPlus := InDeltaRoom(numerator, denominator, deltaMinus, deltaPlus, isEven);
    assert roomMinus == RoomBelow(q, rest, scale) && roomPlus == RoomAbove(q, rest, scale);
    if roomMinus || roomPlus {
      RoundLastDigit(numerator, denominator, roomMinus, roomPlus, buffer, length, q, scale);
      return true;
    }
    NoRoomNoneInside(q, scale, DecimalValue(s), rest);
    DigitsLeft(q, scale, length, maxDigits, rest);
    PrepareNextDigit(numerator, deltaMinus, deltaPlus);
    MulAssoc(10, q.below, scale);
    MulAssoc(10, q.above, scale);
    return false;
  }

  /** The equations after one more digit. */
  lemma ShortestArith(q: Ratio, s: seq<char>, num: int, digit: nat, rest: nat, scale: nat, top: int)
    requires q.Valid() && scale == Pow(10, |s|) && digit <= 9 && num == digit * q.d + rest
    requires q.n * scale == 10 * DecimalValue(s) * q.d + num && q.BelowTen(num, top)
    ensures var t := s + [DigitChar(digit)];
      && q.n * scale == DecimalValue(t) * q.d + rest
      && Pow(10, |t|) == 10 * scale
      && q.n * Pow(10, |t|) == 10 * DecimalValue(t) * q.d + 10 * rest
      && (digit == 9 ==> !(if q.even then rest + top >= q.d else rest + top > q.d))
  {
    hide Pow;
    DecimalAppend(s, DigitChar(digit));
    DigitStep(q.n, q.d, scale, DecimalValue(s), num, digit, rest);
    NoNineGoesUp(q, num, digit, rest, top);
    PowNext(10, |s|);
  }

  /** A first digit of zero has room above only, so it becomes a one at once. */
  lemma FirstDigit(q: Ratio, s: seq<char>, num: int, digit: nat, rest: nat, scale: nat)
    requires q.Valid() && q.ReachesOne() && scale == Pow(10, |s|)
    requires s == [] ==> num == q.n
    requires num == digit * q.d + rest
    ensures s == [] && digit == 0 ==> RoomAbove(q, rest, scale) && !RoomBelow(q, rest, scale)
  {
  }

  /** As long as the loop goes on, the deltas together are below the denominator, so that happens
      only before the last digit allowed. */
  lemma DigitsLeft(q: Ratio, scale: nat, length: nat, maxDigits: nat, rest: int)
    requires q.Valid() && 1 <= length <= maxDigits && scale == Pow(10, length - 1) && rest >= 0
    requires q.d < (q.below + q.above) * Pow(10, maxDigits - 1)
    requires !RoomBelow(q, rest, scale) && !RoomAbove(q, rest, scale)
    ensures length < maxDigits
  {
    hide Pow;
    if length == maxDigits {
      Distribute(scale, q.below, q.above);
    }
  }

  // ----- a given number of digits -----

  /** The first `count` digits of the ratio, rounded half up; a carry out of the first digit moves
      the decimal point. */
  method GenerateCountedDigits(count: nat, decimalPointIn: int, numerator: Bignum, denominator: Bignum, buffer: array<char>)
    returns (length: nat, decimalPoint: int)
    requires numerator.Valid() && denominator.Valid() && Apart(numerator, denominator)
    requires 0 < denominator.Value() && numerator.Value() < 10 * denominator.Value() && Small(denominator.Value())
    requires 1 <= count <= buffer.Length
    modifies numerator, numerator.bigits, buffer
    ensures length == count && AreDigits(buffer[..length])
    ensures decimalPoint == decimalPointIn || decimalPoint == decimalPointIn + 1
    ensures DecimalValue(buffer[..length]) * (if decimalPoint == decimalPointIn then 1 else 10)
      == HalfUp(old(numerator.Value()) * Pow(10, count - 1), denominator.Value())
    ensures old(numerator.Value()) >= denominator.Value() ==> buffer[0] != '0'
  {
    hide Weight, Pow, DecimalValue, HalfUp;
    ghost var n, d := numerator.Value(), denominator.Value();
    PowNone(10);
    DecimalNone(buffer[..0]);
    for i := 0 to count - 1
      invariant numerator.Valid() && numerator.Value() < 10 * d && denominator.Value() == d
      invariant AreDigits(buffer[..i])
      invariant n * Pow(10, i) == 10 * DecimalValue(buffer[..i]) * d + numerator.Value()
      invariant i == 0 ==> numerator.Value() == n
      invariant i > 0 && n >= d ==> buffer[0] != '0'
    {
      CountedStep(i, numerator, denominator, buffer, n);
      SmallFits(numerator);
      numerator.Times10();
    }
    RoundedLastDigit(count, numerator, denominator, buffer, n);
    var overflow := CarryUp(buffer, count);
    length := count;
    decimalPoint := if overflow then decimalPointIn + 1 else decimalPointIn;
  }

  /** The last digit, one higher if the rest is at least half a unit; it can be a ten. */
  method RoundedLastDigit(count: nat, numerator: Bignum, denominator: Bignum, buffer: array<char>, ghost n: nat)
    requires numerator.Valid() && denominator.Valid() && Apart(numerator, denominator) && 1 <= count <= buffer.Length
    requires 0 < denominator.Value() && numerator.Value() < 10 * denominator.Value() && Small(denominator.Value())
    requires AreDigits(buffer[..count - 1])
    requires n * Pow(10, count - 1) == 10 * DecimalValue(buffer[..count - 1]) * denominator.Value() + numerator.Value()
    requires count == 1 ==> numerator.Value() == n
    requires count > 1 && n >= denominator.Value() ==> buffer[0] != '0'
    modifies numerator, numerator.bigits, buffer
    ensures AreDigits(buffer[..count - 1]) && 0 <= Digit(buffer[count - 1]) <= 10
    ensures n * Pow(10, count - 1) >= 0
    ensures DecimalValue(buffer[..count]) == HalfUp(n * Pow(10, count - 1), denominator.Value())
    ensures n >= denominator.Value() ==> buffer[0] != '0'
  {
    hide Weight, Pow, DecimalValue, HalfUp;
    ghost var d, s, num := denominator.Value(), buffer[..count - 1], numerator.Value();
    var digit := NextDigit(numerator, denominator);
    ghost var rest := numerator.Value();
    var compare := Bignum.PlusCompare(numerator, numerator, denominator);
    DecimalBounds(s);
    DigitStep(n, d, Pow(10, count - 1), DecimalValue(s), num, digit, rest);
    HalfUpOfDigits(n * Pow(10, count - 1), d, 10 * DecimalValue(s) + digit, rest);
    if compare >= 0 {
      digit := digit + 1;
    }
    buffer[count - 1] := DigitChar(digit);
    assert buffer[..count] == s + [DigitChar(digit)];
    DecimalAppend(s, DigitChar(digit));
    assert buffer[..count][..count - 1] == s;
  }

  method CountedStep(i: nat, numerator: Bignum, denominator: Bignum, buffer: array<char>, ghost n: nat)
    requires numerator.Valid() && denominator.Valid() && Apart(numerator, denominator) && i < buffer.Length
    requires 0 < denominator.Value() && numerator.Value() < 10 * denominator.Value() && Small(denominator.Value())
    requires AreDigits(buffer[..i])
    requires n * Pow(10, i) == 10 * DecimalValue(buffer[..i]) * denominator.Value() + numerator.Value()
    requires i == 0 ==> numerator.Value() == n
    requires i > 0 && n >= denominator.Value() ==> buffer[0] != '0'
    modifies numerator, numerator.bigits, buffer
    ensures numerator.Valid() && numerator.Value() < denominator.Value() && AreDigits(buffer[..i + 1])
    ensures n * Pow(10, i + 1) == 10 * DecimalValue(buffer[..i + 1]) * denominator.Value() + 10 * numerator.Value()
    ensures n >= denominator.Value() ==> buffer[0] != '0'
  {
    hide Weight, Pow, DecimalValue;
    ghost var s, num := buffer[..i], numerator.Value();
    var digit := NextDigit(numerator, denominator);
    buffer[i] := DigitChar(digit);
    assert buffer[..i + 1] == s + [DigitChar(digit)];
    DecimalAppend(s, DigitChar(digit));
    DigitStep(n, denominator.Value(), Pow(10, i), DecimalValue(s), num, digit, numerator.Value());
    PowNext(10, i);
  }

  /** n / d * 10^places rounded half up to an integer. */
  function FixedHalfUp(n: nat, d: nat, places: int): nat
    requires d > 0
  {
    if places >= 0 then HalfUp(n * Pow(10, places), d) else HalfUp(n, d * Pow(10, -places))
  }

  /** As many digits as reach `requestedDigits` places after the point. */
  method BignumToFixed(requestedDigits: nat, decimalPointIn: int, numerator: Bignum, denominator: Bignum, buffer: array<char>)
    returns (length: nat, decimalPoint: int)
    requires numerator.Valid() && denominator.Valid() && Apart(numerator, denominator)
    requires 0 < denominator.Value() && numerator.Value() < 10 * denominator.Value() && Small(denominator.Value())
    requires buffer.Length >= 1 && decimalPointIn + requestedDigits <= buffer.Length
    modifies numerator, numerator.bigits, denominator, denominator.bigits, buffer
    ensures length <= buffer.Length && AreDigits(buffer[..length])
    ensures length <= 1 || length <= decimalPointIn + requestedDigits
    ensures decimalPoint - length + requestedDigits >= 0
    ensures DecimalValue(buffer[..length]) * Pow(10, decimalPoint - length + requestedDigits)
      == FixedHalfUp(old(numerator.Value()), old(denominator.Value()), decimalPointIn - 1 + requestedDigits)
    ensures length == 0 ==> decimalPoint == 0 - requestedDigits
    ensures old(numerator.Value()) >= old(denominator.Value()) && length > 0 ==> buffer[0] != '0'
  {
    hide Weight, Pow, HalfUp, DecimalValue;
    ghost var n, d := numerator.Value(), denominator.Value();
    if -decimalPointIn > requestedDigits {
      TooSmall(n, d, 1 - decimalPointIn - requestedDigits);
      DecimalNone(buffer[..0]);
      return 0, 0 - requestedDigits;
    } else if -decimalPointIn == requestedDigits {
      SmallFits(denominator);
      denominator.Times10();
      var compare := Bignum.PlusCompare(numerator, numerator, denominator);
      TenthHalfUp(n, d);
      PowNone(10);
      if compare >= 0 {
        buffer[0] := '1';
        assert buffer[..1] == ['1'];
        DecimalOne();
        return 1, decimalPointIn + 1;
      }
      DecimalNone(buffer[..0]);
      return 0, decimalPointIn;
    } else {
      length, decimalPoint := GenerateCountedDigits(decimalPointIn + requestedDigits, decimalPointIn, numerator, denominator, buffer);
      PowNone(10);
      PowNext(10, 0);
    }
  }

  lemma TooSmall(n: nat, d: nat, places: int)
    requires 0 < d && n < 10 * d && places >= 2
    ensures FixedHalfUp(n, d, -places) == 0
  {
    hide Pow;
    PowMono(10, 2, places);
    assert Pow(10, 2) == 100 by {
      PowNext(10, 1);
      PowNext(10, 0);
      PowNone(10);
    }
    MulMono(100, Pow(10, places), d);
    HalfUpOfDigits(n, d * Pow(10, places), 0, n);
  }

  lemma TenthHalfUp(n: nat, d: nat)
    requires 0 < d && n < 10 * d
    ensures FixedHalfUp(n, d, -1) == if 2 * n >= 10 * d then 1 else 0
  {
    assert Pow(10, 1) == 10 by {
      PowNext(10, 0);
    }
    HalfUpOfDigits(n, 10 * d, 0, n);
  }
}
