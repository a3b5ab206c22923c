// Digit generation in 64-bit arithmetic (DigitGen in fast-dtoa.cc): the digits of a number just
// above the upper boundary, until they fall inside the interval.
module DigitGens {
  import opened MachineInts
  import opened Powers
  import opened Decimals
  import opened DiyFps
  import opened RoundWeeds
  import opened DecimalRounding

  const SMALL_POWERS_OF_TEN: seq<uint32> :=
    [0, 1, 10, 100, 1_000, 10_000, 100_000, 1_000_000, 10_000_000, 100_000_000, 1_000_000_000]

  /** 1233 / 4096 stands for the logarithm of two. */
  function GuessedPlace(numberBits: nat): nat { (numberBits + 1) * 1233 / 4096 }

  /** The number of digits BiggestPowerTen settles for: the guess, corrected once. */
  function SettledPlace(number: nat, numberBits: nat): nat {
    var guess := GuessedPlace(numberBits);
    if number < Pow(10, guess) then guess else guess + 1
  }

  function PowerBelow(place: nat): nat { if place == 0 then 0 else Pow(10, place - 1) }

  /** The number is not so small that it would need a second correction. */
  predicate LargeEnough(number: nat, numberBits: nat) {
    number > 0 && (GuessedPlace(numberBits) == 0 || number >= Pow(10, GuessedPlace(numberBits) - 1))
  }

  /** The power is the biggest one not above the number exactly if one correction is enough. */
  lemma SettledIsBiggest(number: nat, numberBits: nat)
    requires numberBits <= 32 && number < Pow(2, numberBits + 1)
    ensures var power := PowerBelow(SettledPlace(number, numberBits));
      power <= number < 10 * power <==> LargeEnough(number, numberBits)
  {
    hide Pow;
    var guess := GuessedPlace(numberBits);
    GuessFits(numberBits, guess);
    PowNext(10, guess);
    if guess > 0 {
      PowNext(10, guess - 1);
    } else {
      PowNone(10);
    }
  }

  /** With 32 bits announced, eight digits are too few. */
  lemma TooSmallNumber()
    ensures !LargeEnough(99_999_999, 32) && LargeEnough(100_000_000, 32)
    ensures PowerBelow(SettledPlace(99_999_999, 32)) == 100_000_000
  {
    hide Pow;
    SmallPower(9);
    SmallPower(10);
  }

  /** A quarter of the size announced is enough. */
  lemma QuarterIsEnough(number: nat, numberBits: nat)
    requires numberBits <= 32 && number > 0 && 4 * number >= Pow(2, numberBits)
    ensures LargeEnough(number, numberBits)
    ensures number < Pow(2, numberBits + 1) ==> (var place := SettledPlace(number, numberBits);
      place >= 1 && PowerBelow(place) == Pow(10, place - 1) <= number < 10 * Pow(10, place - 1))
  {
    hide Pow;
    var guess := GuessedPlace(numberBits);
    GuessFits(numberBits, guess);
    PowNext(2, numberBits);
    if guess > 0 {
      PowNext(10, guess - 1);
    } else {
      PowNone(10);
    }
    if number < Pow(2, numberBits + 1) {
      SettledIsBiggest(number, numberBits);
    }
  }

  /** A power of ten for the number, with its place. Which power is told exactly; when it is the biggest
      one not above the number is said by SettledIsBiggest. */
  method BiggestPowerTen(number: uint32, numberBits: nat) returns (power: uint32, exponentPlusOne: nat)
    requires numberBits <= 32 && number < Pow(2, numberBits + 1)
    ensures exponentPlusOne == SettledPlace(number, numberBits) && power == PowerBelow(exponentPlusOne)
    ensures power <= number < 10 * power <==> LargeEnough(number, numberBits)
  {
    hide Pow;
    var guess := (numberBits + 1) * 1233 / 4096;
    GuessFits(numberBits, guess);
    SettledIsBiggest(number, numberBits);
    guess := guess + 1;
    SmallPower(guess);
    if number < SMALL_POWERS_OF_TEN[guess] {
      guess := guess - 1;
      if guess > 0 {
        SmallPower(guess);
      }
    }
    power := SMALL_POWERS_OF_TEN[guess];
    exponentPlusOne := guess;
  }

  lemma SmallPower(i: nat)
    requires 1 <= i <= 10
    ensures SMALL_POWERS_OF_TEN[i] == Pow(10, i - 1)
  {
    hide Pow;
    PowNone(10);
    if i >= 2 { PowNext(10, 0); }
    if i >= 3 { PowNext(10, 1); }
    if i >= 4 { PowNext(10, 2); }
    if i >= 5 { PowNext(10, 3); }
    if i >= 6 { PowNext(10, 4); }
    if i >= 7 { PowNext(10, 5); }
    if i >= 8 { PowNext(10, 6); }
    if i >= 9 { PowNext(10, 7); }
    if i >= 10 { PowNext(10, 8); }
  }

  /** The guess is right for a number of all the bits. */
  lemma GuessFits(n: nat, guess: nat)
    requires n <= 32 && guess == (n + 1) * 1233 / 4096
    ensures guess <= 9 && Pow(10, guess) <= Pow(2, n + 1) < Pow(10, guess + 1)
  {
    hide Pow;
    PowersOfTwo();
    SmallPower(guess + 1);
    PowNext(10, guess);
    if n + 1 <= 3 { Between(n + 1, 0, 3); PowNone(2); }
    else if n + 1 <= 6 { Between(n + 1, 4, 6); }
    else if n + 1 <= 9 { Between(n + 1, 7, 9); }
    else if n + 1 <= 13 { Between(n + 1, 10, 13); }
    else if n + 1 <= 16 { Between(n + 1, 14, 16); }
    else if n + 1 <= 19 { Between(n + 1, 17, 19); }
    else if n + 1 <= 23 { Between(n + 1, 20, 23); }
    else if n + 1 <= 26 { Between(n + 1, 24, 26); }
    else if n + 1 <= 29 { Between(n + 1, 27, 29); }
    else { Between(n + 1, 30, 33); }
  }

  lemma Between(n: nat, low: nat, high: nat)
    requires low <= n <= high
    ensures Pow(2, low) <= Pow(2, n) <= Pow(2, high)
  {
    PowMono(2, low, n);
    PowMono(2, n, high);
  }

  lemma PowersOfTwo()
    ensures Pow(2, 3) == 8 && Pow(2, 4) == 16 && Pow(2, 6) == 64 && Pow(2, 7) == 128 && Pow(2, 9) == 512
    ensures Pow(2, 10) == 1024 && Pow(2, 13) == 8192 && Pow(2, 14) == 16384 && Pow(2, 16) == 65536
    ensures Pow(2, 17) == 131072 && Pow(2, 19) == 524288 && Pow(2, 20) == 1048576 && Pow(2, 23) == 8388608
    ensures Pow(2, 24) == 16777216 && Pow(2, 26) == 67108864 && Pow(2, 27) == 134217728
    ensures Pow(2, 29) == 536870912 && Pow(2, 30) == 1073741824 && Pow(2, 33) == 8589934592
  {
    hide Pow;
    SmallPowersOfTwo();
    PowAdd(2, 10, 3);
    PowAdd(2, 10, 4);
    PowAdd(2, 10, 6);
    PowAdd(2, 10, 7);
    PowAdd(2, 10, 9);
    PowAdd(2, 10, 10);
    PowAdd(2, 20, 3);
    PowAdd(2, 20, 4);
    PowAdd(2, 20, 6);
    PowAdd(2, 20, 7);
    PowAdd(2, 20, 9);
    PowAdd(2, 20, 10);
    PowAdd(2, 30, 3);
  }

  lemma SmallPowersOfTwo()
    ensures Pow(2, 3) == 8 && Pow(2, 4) == 16 && Pow(2, 6) == 64 && Pow(2, 7) == 128
    ensures Pow(2, 9) == 512 && Pow(2, 10) == 1024
  {
  }

  // ----- the state of the generators -----

  /** The digits so far denote tooHigh, counted in 1 / unit, down to `scale`; the rest is not below
      the interval, so stopping here would be outside it. */
  ghost predicate Emitted(s: seq<char>, tooHigh: int, unit: nat, unsafeInterval: int, scale: int, rest: int) {
    && AreDigits(s) && (s != [] ==> s[0] != '0')
    && tooHigh * unit == DecimalValue(s) * scale + rest
    && unsafeInterval * unit <= rest < scale
  }

  /** The digits x with weight tenKappa lie safely between low and high, and safely closer to w
      than their neighbours that could lie between low and high. */
  ghost predicate SafeDigits(x: int, tenKappa: int, low: int, w: int, high: int, unit: int) {
    && (low + 3) * unit <= x * tenKappa <= (high - 1) * unit
    && ((x + 1) * tenKappa <= (high + 1) * unit ==> 2 * (x * tenKappa) + tenKappa >= 2 * ((w + 1) * unit))
    && ((low - 1) * unit <= (x - 1) * tenKappa ==> 2 * (x * tenKappa) - tenKappa <= 2 * ((w - 1) * unit))
  }

  /** No multiple of ten times tenKappa lies strictly between low - 1 and high + 1. */
  ghost predicate NoShorter(p: int, tenKappa: int, low: int, high: int, unit: int) {
    10 * (p * tenKappa) <= (low - 1) * unit && (high + 1) * unit < 10 * (p * tenKappa) + 10 * tenKappa
  }

  /** How many units of the last place one digit is worth, and how many units an error of one is. */
  function Weights(kappa: int, one: nat): (int, nat) {
    if kappa >= 0 then (Pow(10, kappa) * one, 1) else (one, Pow(10, -kappa))
  }

  /** The result of a successful DigitGen. */
  ghost predicate Generated(s: seq<char>, kappa: int, one: nat, low: int, w: int, high: int) {
    var (tenKappa, unit) := Weights(kappa, one);
    && s != [] && AreDigits(s) && s[0] != '0'
    && SafeDigits(DecimalValue(s), tenKappa, low, w, high, unit)
    && (|s| >= 2 ==> NoShorter(DecimalValue(s[..|s| - 1]), tenKappa, low, high, unit))
  }

  /** The inputs, in units of one in the last place, as DigitGen derives them. */
  ghost predicate Inputs(tooHigh: int, distance: int, unsafeInterval: int, maxDigits: nat) {
    && 1 <= distance && distance + 1 <= unsafeInterval && 4 <= unsafeInterval <= tooHigh < 0x1_0000_0000_0000_0000
    && maxDigits >= 1 && tooHigh <= unsafeInterval * Pow(10, maxDigits - 1)
  }

  /** As long as the generators go on there is room for another digit. */
  lemma RoomForDigit(s: seq<char>, tooHigh: int, distance: int, unit: nat, unsafeInterval: int, scale: int, rest: int, maxDigits: nat)
    requires Inputs(tooHigh, distance, unsafeInterval, maxDigits) && unit > 0
    requires Emitted(s, tooHigh, unit, unsafeInterval, scale, rest)
    ensures |s| < maxDigits
  {
    hide Pow, DecimalValue;
    if |s| >= maxDigits {
      LeadingDigit(s);
      PowMono(10, maxDigits - 1, |s| - 1);
      var p := Pow(10, maxDigits - 1);
      MulMono(0, unsafeInterval, unit);
      MulMono(p, DecimalValue(s), scale);
      MulMono(tooHigh, unsafeInterval * p, unit);
      MulStrict(unsafeInterval * unit, scale, p);
      MulAssoc(unsafeInterval, p, unit);
    }
  }

  /** One more digit: either the digits are inside now and RoundWeed decides, or they go on. */
  method WeedOrGoOn(buffer: array<char>, length: nat, distance: uint64, unsafeInterval: uint64, rest: uint64,
      tenKappa: uint64, unit: uint64, ghost tooHigh: int, ghost low: int, ghost w: int, ghost high: int) returns (done: bool, ok: bool)
    requires 1 <= length <= buffer.Length && AreDigits(buffer[..length]) && buffer[0] != '0'
    requires 0 < unit && 0 < tenKappa && rest < 10 * tenKappa
    requires tooHigh == (high + 1) * unit && distance == (high + 1 - w) * unit && unsafeInterval == (high - low + 2) * unit
    requires unit <= distance && distance + unit <= unsafeInterval && 4 * unit <= unsafeInterval <= tooHigh
    requires tooHigh == DecimalValue(buffer[..length]) * tenKappa + rest && rest < tenKappa
    requires 10 * DecimalValue(buffer[..length - 1]) * tenKappa <= tooHigh - unsafeInterval
    requires tooHigh < 10 * (DecimalValue(buffer[..length - 1]) * tenKappa) + 10 * tenKappa
    modifies buffer
    ensures !done ==> rest >= unsafeInterval && buffer[..length] == old(buffer[..length])
    ensures done && ok ==> (AreDigits(buffer[..length]) && buffer[0] != '0'
      && SafeDigits(DecimalValue(buffer[..length]), tenKappa, low, w, high, unit)
      && (length >= 2 ==> NoShorter(DecimalValue(buffer[..length - 1]), tenKappa, low, high, unit)))
  {
    hide DecimalValue, SafeDigits, NoShorter, Weeded;
    if rest >= unsafeInterval {
      return false, false;
    }
    ghost var x0 := DecimalValue(buffer[..length]);
    ghost var first := buffer[0];
    ghost var prefix := buffer[..length - 1];
    PrefixIsNoShorter(DecimalValue(prefix), tenKappa, tooHigh, unsafeInterval, unit, low, high);
    ok := RoundWeed(buffer, length, distance, unsafeInterval, rest, tenKappa, unit, tooHigh);
    done := true;
    if ok {
      ghost var x := DecimalValue(buffer[..length]);
      WeededIsSafe(x, x0, tenKappa, tooHigh, distance, unsafeInterval, rest, unit, low, w, high);
      if length == 1 {
        SplitLast(buffer[..1]);
        DecimalNone(buffer[..1][..0]);
      } else {
        assert buffer[0] == prefix[0];
      }
    }
  }

  lemma PrefixIsNoShorter(p: int, tenKappa: int, tooHigh: int, unsafeInterval: int, unit: int, low: int, high: int)
    requires tooHigh == (high + 1) * unit && unsafeInterval == (high - low + 2) * unit
    requires 10 * p * tenKappa <= tooHigh - unsafeInterval && tooHigh < 10 * (p * tenKappa) + 10 * tenKappa
    ensures NoShorter(p, tenKappa, low, high, unit)
  {
    Amounts(low, 0, high, unit);
    MulAssoc(10, p, tenKappa);
  }

  lemma WeededIsSafe(x: int, x0: int, tenKappa: int, tooHigh: int, distance: int, unsafeInterval: int, rest: int, unit: int,
      low: int, w: int, high: int)
    requires Weeded(x, x0, tenKappa, tooHigh, distance, unsafeInterval, unit)
    requires tooHigh == (high + 1) * unit && distance == (high + 1 - w) * unit && unsafeInterval == (high - low + 2) * unit
    requires tooHigh == x0 * tenKappa + rest && rest < tenKappa && 0 < tenKappa && 0 < unit && unsafeInterval <= tooHigh
    ensures SafeDigits(x, tenKappa, low, w, high, unit) && x > 0
  {
    Amounts(low, w, high, unit);
    Distribute(tenKappa, x, 1);
    Distribute(tenKappa, x, -1);
    if x >= x0 {
      MulMono(x0, x, tenKappa);
    }
    if x <= 0 {
      MulMono(x, 0, tenKappa);
    }
  }

  lemma Amounts(low: int, w: int, high: int, unit: int)
    ensures (high + 1 - w) * unit == (high + 1) * unit - w * unit
    ensures (high - low + 2) * unit == (high + 1) * unit - (low - 1) * unit
    ensures (low + 3) * unit == (low - 1) * unit + 4 * unit && (high - 1) * unit == (high + 1) * unit - 2 * unit
    ensures (w + 1) * unit == w * unit + unit && (w - 1) * unit == w * unit - unit
  {
  }

  // ----- the two loops -----

  /** The digits before the decimal point. */
  method GenerateIntegrals(one: uint64, integralsIn: uint32, fractionals: uint64, divisorIn: uint32, kappaIn: nat,
      distance: uint64, unsafeInterval: uint64, buffer: array<char>, ghost low: int, ghost w: int, ghost high: int,
      ghost maxDigits: nat) returns (done: bool, ok: bool, length: nat, kappa: nat)
    requires Inputs(high + 1, distance, unsafeInterval, maxDigits) && maxDigits <= buffer.Length
    requires distance == high + 1 - w && unsafeInterval == high - low + 2
    requires high + 1 == integralsIn * one + fractionals && fractionals < one
    requires kappaIn >= 1 && divisorIn == Pow(10, kappaIn - 1) && divisorIn <= integralsIn < 10 * divisorIn
    modifies buffer
    ensures length <= maxDigits
    ensures done && ok ==> Generated(buffer[..length], kappa, one, low, w, high)
    ensures !done ==> kappa == 0 && length > 0 && Emitted(buffer[..length], high + 1, 1, unsafeInterval, one, fractionals)
  {
    hide Pow, DecimalValue, SafeDigits, NoShorter, Emitted;
    var integrals: uint32, divisor: uint32 := integralsIn, divisorIn;
    length, kappa, done, ok := 0, kappaIn, false, false;
    PowNext(10, kappaIn - 1);
    StartEmitting(buffer[..0], high + 1, unsafeInterval, one, integrals, fractionals, divisor);
    while kappa > 0
      invariant 0 <= kappa <= kappaIn && length <= maxDigits && (kappa < kappaIn ==> length > 0)
      invariant kappa > 0 ==> divisor == Pow(10, kappa - 1)
      invariant length == 0 ==> integrals >= divisor && kappa == kappaIn
      invariant Emitted(buffer[..length], high + 1, 1, unsafeInterval, Pow(10, kappa) * one, integrals * one + fractionals)
      decreases kappa
    {
      PowNext(10, kappa - 1);
      done, ok, integrals := IntegralStep(one, integrals, fractionals, divisor, distance, unsafeInterval, buffer, length,
        low, w, high, maxDigits);
      length := length + 1;
      kappa := kappa - 1;
      if done {
        return;
      }
      if kappa > 0 {
        PowNext(10, kappa - 1);
        divisor := divisor / 10;
      }
    }
    PowNone(10);
    NothingLeft(buffer[..length], high + 1, unsafeInterval, one, integrals, fractionals);
  }

  lemma NothingLeft(s: seq<char>, tooHigh: int, unsafeInterval: int, one: nat, integrals: nat, fractionals: nat)
    requires Emitted(s, tooHigh, 1, unsafeInterval, 1 * one, integrals * one + fractionals)
    ensures Emitted(s, tooHigh, 1, unsafeInterval, one, fractionals)
  {
    if integrals > 0 {
      MulMono(1, integrals, one);
    }
  }

  method IntegralStep(one: uint64, integralsIn: uint32, fractionals: uint64, divisor: uint32,
      distance: uint64, unsafeInterval: uint64, buffer: array<char>, length: nat, ghost low: int, ghost w: int, ghost high: int,
      ghost maxDigits: nat) returns (done: bool, ok: bool, integrals: uint32)
    requires Inputs(high + 1, distance, unsafeInterval, maxDigits) && maxDigits <= buffer.Length
    requires distance == high + 1 - w && unsafeInterval == high - low + 2
    requires fractionals < one && divisor > 0 && length <= buffer.Length && (length == 0 ==> integralsIn >= divisor)
    requires Emitted(buffer[..length], high + 1, 1, unsafeInterval, 10 * divisor * one, integralsIn * one + fractionals)
    modifies buffer
    ensures length < maxDigits
    ensures done && ok ==> (AreDigits(buffer[..length + 1]) && buffer[0] != '0'
      && SafeDigits(DecimalValue(buffer[..length + 1]), divisor * one, low, w, high, 1)
      && (length >= 1 ==> NoShorter(DecimalValue(buffer[..length + 1][..length]), divisor * one, low, high, 1)))
    ensures !done ==> Emitted(buffer[..length + 1], high + 1, 1, unsafeInterval, divisor * one, integrals * one + fractionals)
  {
    hide Pow, DecimalValue, SafeDigits, NoShorter;
    RoomForDigit(buffer[..length], high + 1, distance, 1, unsafeInterval, 10 * divisor * one,
      integralsIn * one + fractionals, maxDigits);
    ghost var s := buffer[..length];
    var digit, left := integralsIn / divisor, integralsIn % divisor;
    IntegralDigit(s, high + 1, unsafeInterval, one, divisor, integralsIn, fractionals, digit, left);
    buffer[length] := DigitChar(digit);
    integrals := left;
    ghost var t := buffer[..length + 1];
    assert t == s + [DigitChar(digit)];
    assert t[..length] == s;
    var rest: uint64, tenKappa: uint64 := integrals * one + fractionals, divisor * one;
    done, ok := WeedOrGoOn(buffer, length + 1, distance, unsafeInterval, rest, tenKappa, 1, high + 1, low, w, high);
    assert buffer[..length + 1][..length] == buffer[..length];
  }

  lemma StartEmitting(s: seq<char>, tooHigh: int, unsafeInterval: int, one: nat, integrals: nat, fractionals: nat, divisor: nat)
    requires s == [] && tooHigh == integrals * one + fractionals && fractionals < one && integrals < 10 * divisor
    requires unsafeInterval <= tooHigh
    ensures Emitted(s, tooHigh, 1, unsafeInterval, 10 * divisor * one, integrals * one + fractionals)
  {
    DecimalNone(s);
    Distribute(one, integrals, 1);
    MulMono(integrals + 1, 10 * divisor, one);
  }

  /** Splitting off the leading digit of the integrals. */
  lemma IntegralDigit(s: seq<char>, tooHigh: int, unsafeInterval: int, one: nat, divisor: nat, integrals: nat, fractionals: nat,
      digit: int, left: nat)
    requires integrals == digit * divisor + left && left < divisor && 0 <= digit
    requires fractionals < one && tooHigh < 0x1_0000_0000_0000_0000 && 0 <= unsafeInterval && (s == [] ==> integrals >= divisor)
    requires Emitted(s, tooHigh, 1, unsafeInterval, 10 * divisor * one, integrals * one + fractionals)
    ensures digit <= 9
    ensures var t := s + [DigitChar(digit)];
      AreDigits(t) && t[0] != '0' && tooHigh == DecimalValue(t) * (divisor * one) + (left * one + fractionals)
    ensures 0 < divisor * one < 0x1_0000_0000_0000_0000 && 0 <= left * one + fractionals < divisor * one
    ensures 10 * DecimalValue(s) * (divisor * one) <= tooHigh - unsafeInterval
    ensures tooHigh < 10 * (DecimalValue(s) * (divisor * one)) + 10 * (divisor * one)
  {
    hide DecimalValue, Pow;
    var p := DecimalValue(s);
    if s == [] {
      DecimalNone(s);
      DigitPositive(integrals, divisor, digit, left);
    } else {
      LeadingDigit(s);
    }
    DigitArith(p, tooHigh, unsafeInterval, one, divisor, integrals, fractionals, digit, left);
    DecimalAppend(s, DigitChar(digit));
    OneDigitFits(10 * p + digit, divisor * one, left * one + fractionals, tooHigh, p, digit);
  }

  lemma DigitArith(p: int, tooHigh: int, unsafeInterval: int, one: nat, divisor: nat, integrals: nat, fractionals: nat,
      digit: int, left: nat)
    requires integrals == digit * divisor + left && left < divisor && 0 <= digit && fractionals < one
    requires tooHigh == p * (10 * divisor * one) + (integrals * one + fractionals)
    requires unsafeInterval <= integrals * one + fractionals < 10 * divisor * one
    ensures digit <= 9 && divisor * one > 0 && 0 <= left * one + fractionals < divisor * one
    ensures tooHigh == (10 * p + digit) * (divisor * one) + (left * one + fractionals)
    ensures 10 * p * (divisor * one) <= tooHigh - unsafeInterval
    ensures tooHigh < 10 * (p * (divisor * one)) + 10 * (divisor * one)
  {
    var weight := divisor * one;
    MulStrict(0, divisor, one);
    MulAssoc(10, divisor, one);
    MulAssoc(digit, divisor, one);
    Distribute(one, digit * divisor, left);
    MulMono(0, left, one);
    Distribute(one, left, 1);
    MulMono(left + 1, divisor, one);
    MulAssoc(p, 10, weight);
    Distribute(weight, 10 * p, digit);
    if digit >= 10 {
      MulMono(10, digit, weight);
    }
  }

  lemma OneDigitFits(x: int, weight: int, rest: int, tooHigh: int, p: int, digit: int)
    requires x * weight + rest == tooHigh && rest >= 0 && weight > 0 && tooHigh < 0x1_0000_0000_0000_0000
    requires x == 10 * p + digit && 0 <= digit && 0 <= p && (p > 0 || digit >= 1)
    ensures weight < 0x1_0000_0000_0000_0000
  {
    MulMono(1, x, weight);
  }

  lemma DigitPositive(n: nat, d: nat, q: int, r: nat)
    requires d > 0 && n == q * d + r && r < d && n >= d
    ensures q >= 1
  {
    if q <= 0 {
      MulMono(q, 0, d);
    }
  }

  /** The digits after the decimal point: everything is multiplied by ten, the error included. */
  method GenerateFractionals(one: uint64, fractionalsIn: uint64, distance: uint64, unsafeIntervalIn: uint64,
      buffer: array<char>, lengthIn: nat, ghost low: int, ghost w: int, ghost high: int, ghost maxDigits: nat)
    returns (ok: bool, length: nat, kappa: int)
    requires Inputs(high + 1, distance, unsafeIntervalIn, maxDigits) && maxDigits <= buffer.Length
    requires distance == high + 1 - w && unsafeIntervalIn == high - low + 2 && one <= 0x1000_0000_0000_0000
    requires 0 < lengthIn <= buffer.Length
    requires Emitted(buffer[..lengthIn], high + 1, 1, unsafeIntervalIn, one, fractionalsIn)
    modifies buffer
    ensures length <= maxDigits
    ensures ok ==> Generated(buffer[..length], kappa, one, low, w, high)
  {
    hide Pow, DecimalValue, SafeDigits, NoShorter;
    var fractionals: uint64, unit: uint64, unsafeInterval: uint64 := fractionalsIn, 1, unsafeIntervalIn;
    length, kappa := lengthIn, 0;
    PowNone(10);
    while true
      invariant kappa <= 0 && unit == Pow(10, -kappa) && unsafeInterval == unsafeIntervalIn * unit && 0 < length <= buffer.Length
      invariant Emitted(buffer[..length], high + 1, unit, unsafeIntervalIn, one, fractionals)
      decreases one - unsafeInterval
    {
      PowNext(10, -kappa);
      var done;
      done, ok, fractionals := FractionalStep(one, fractionals, unit, distance, unsafeIntervalIn, buffer, length, low, w, high, maxDigits);
      unit := unit * 10;
      unsafeInterval := unsafeInterval * 10;
      length := length + 1;
      kappa := kappa - 1;
      if done {
        return;
      }
    }
  }

  method FractionalStep(one: uint64, fractionalsIn: uint64, unit: uint64, distance: uint64, unsafeInterval: uint64,
      buffer: array<char>, length: nat, ghost low: int, ghost w: int, ghost high: int, ghost maxDigits: nat)
    returns (done: bool, ok: bool, fractionals: uint64)
    requires Inputs(high + 1, distance, unsafeInterval, maxDigits) && maxDigits <= buffer.Length
    requires distance == high + 1 - w && unsafeInterval == high - low + 2 && one <= 0x1000_0000_0000_0000
    requires 0 < unit && 0 < length <= buffer.Length
    requires Emitted(buffer[..length], high + 1, unit, unsafeInterval, one, fractionalsIn)
    modifies buffer
    ensures length < maxDigits && unit * 10 < 0x1_0000_0000_0000_0000
    ensures 0 < unsafeInterval * unit < one && 10 * (unsafeInterval * unit) < 0x1_0000_0000_0000_0000
    ensures done && ok ==> (AreDigits(buffer[..length + 1]) && buffer[0] != '0'
      && SafeDigits(DecimalValue(buffer[..length + 1]), one, low, w, high, unit * 10)
      && NoShorter(DecimalValue(buffer[..length + 1][..length]), one, low, high, unit * 10))
    ensures !done ==> Emitted(buffer[..length + 1], high + 1, unit * 10, unsafeInterval, one, fractionals)
  {
    hide Pow, DecimalValue, SafeDigits, NoShorter, Emitted, Inputs;
    RoomForDigit(buffer[..length], high + 1, distance, unit, unsafeInterval, one, fractionalsIn, maxDigits);
    ghost var s := buffer[..length];
    FractionalFits(s, high + 1, distance, unsafeInterval, one, fractionalsIn, unit, maxDigits);
    var tenfold: uint64 := fractionalsIn * 10;
    var digit, left := tenfold / one, tenfold % one;
    FractionalDigit(s, high + 1, unsafeInterval, one, fractionalsIn, unit, digit, left);
    buffer[length] := DigitChar(digit);
    fractionals := left;
    ghost var t := buffer[..length + 1];
    assert t == s + [DigitChar(digit)];
    assert t[..length] == s;
    var newUnit: uint64 := unit * 10;
    ScaledAmounts(high + 1, distance, unsafeInterval, unit, newUnit);
    var distanceUnits: uint64, interval: uint64 := distance * newUnit, unsafeInterval * newUnit;
    done, ok := WeedOrGoOn(buffer, length + 1, distanceUnits, interval, fractionals, one, newUnit, (high + 1) * newUnit, low, w, high);
    assert buffer[..length + 1][..length] == buffer[..length];
    if !done {
      GoOn(t, high + 1, newUnit, unsafeInterval, one, fractionals);
    }
  }

  lemma GoOn(s: seq<char>, tooHigh: int, unit: nat, unsafeInterval: int, scale: int, rest: int)
    requires s != [] && AreDigits(s) && s[0] != '0' && tooHigh * unit == DecimalValue(s) * scale + rest
    requires unsafeInterval * unit <= rest < scale
    ensures Emitted(s, tooHigh, unit, unsafeInterval, scale, rest)
  {
  }

  lemma FractionalFits(s: seq<char>, tooHigh: int, distance: int, unsafeInterval: int, one: nat, fractionals: nat, unit: nat, maxDigits: nat)
    requires Emitted(s, tooHigh, unit, unsafeInterval, one, fractionals) && one <= 0x1000_0000_0000_0000 && unit > 0
    requires Inputs(tooHigh, distance, unsafeInterval, maxDigits)
    ensures 1 <= distance && distance + 1 <= unsafeInterval && 4 <= unsafeInterval <= tooHigh
    ensures 10 * fractionals < 10 * one < 0x1_0000_0000_0000_0000
    ensures 0 < unit <= 4 * unit <= unsafeInterval * unit && distance * unit <= unsafeInterval * unit <= fractionals
  {
    MulMono(4, unsafeInterval, unit);
    MulMono(distance, unsafeInterval, unit);
  }

  lemma ScaledAmounts(tooHigh: int, distance: int, unsafeInterval: int, unit: int, tenfold: int)
    requires 1 <= distance && distance + 1 <= unsafeInterval && 4 <= unsafeInterval <= tooHigh && 0 < unit && tenfold == unit * 10
    ensures distance * tenfold == 10 * (distance * unit) && unsafeInterval * tenfold == 10 * (unsafeInterval * unit)
    ensures tenfold <= distance * tenfold && distance * tenfold + tenfold <= unsafeInterval * tenfold
    ensures 4 * tenfold <= unsafeInterval * tenfold <= tooHigh * tenfold
  {
    MulMono(1, distance, tenfold);
    MulMono(distance + 1, unsafeInterval, tenfold);
    MulMono(4, unsafeInterval, tenfold);
    MulMono(unsafeInterval, tooHigh, tenfold);
  }

  /** Splitting off the digit just past the point. */
  lemma FractionalDigit(s: seq<char>, tooHigh: int, unsafeInterval: int, one: nat, fractionals: nat, unit: nat, digit: int, left: nat)
    requires s != [] && 10 * fractionals == digit * one + left && left < one && 0 <= digit && unit > 0
    requires Emitted(s, tooHigh, unit, unsafeInterval, one, fractionals)
    ensures digit <= 9
    ensures var t := s + [DigitChar(digit)];
      AreDigits(t) && t[0] != '0' && tooHigh * (unit * 10) == DecimalValue(t) * one + left
    ensures 10 * DecimalValue(s) * one <= tooHigh * (unit * 10) - unsafeInterval * (unit * 10)
    ensures tooHigh * (unit * 10) < 10 * (DecimalValue(s) * one) + 10 * one
  {
    hide DecimalValue;
    if digit >= 10 {
      MulMono(10, digit, one);
    }
    MulAssoc(tooHigh, unit, 10);
    MulAssoc(unsafeInterval, unit, 10);
    Distribute(one, 10 * DecimalValue(s), digit);
    MulAssoc(10, DecimalValue(s), one);
    DecimalAppend(s, DigitChar(digit));
  }

  /** The shortest digits between low and high, each known to within one unit, or failure. Only
      high has to be of full size, so that its integral part has the bits BiggestPowerTen is told. */
  method DigitGen(low: DiyFp, w: DiyFp, high: DiyFp, buffer: array<char>, ghost maxDigits: nat)
    returns (ok: bool, length: nat, kappa: int)
    requires low.e == w.e == high.e && -60 <= w.e <= -32
    requires 1 <= low.f <= w.f <= high.f < 0xFFFF_FFFF_FFFF_FFFF && low.f + 1 <= high.f - 1
    requires high.f >= 0x4000_0000_0000_0000
    requires 1 <= maxDigits <= buffer.Length && high.f + 1 <= (high.f - low.f + 2) * Pow(10, maxDigits - 1)
    modifies buffer
    ensures length <= maxDigits
    ensures ok ==> Generated(buffer[..length], kappa, Pow(2, -w.e), low.f, w.f, high.f)
  {
    hide Pow, DecimalValue, Generated, Emitted, SettledPlace, PowerBelow, LargeEnough;
    var unit: uint64 := 1;
    var tooLow := new DiyFp(low.f - unit, low.e);
    var tooHigh := new DiyFp(high.f + unit, high.e);
    var unsafeInterval := DiyFp.Minus(tooHigh, tooLow);
    OneFits(-w.e);
    var one := new DiyFp(Pow(2, -w.e), w.e);
    SplitAtPoint(tooHigh.f, one.f, -w.e);
    var integrals: uint32, fractionals: uint64 := tooHigh.f / one.f, tooHigh.f % one.f;
    PowNext(2, 64 + one.e);
    QuarterIsEnough(integrals, 64 + one.e);
    var divisor, divisorExponentPlusOne := BiggestPowerTen(integrals, 64 + one.e);
    var distance := DiyFp.Minus(tooHigh, w);
    var done, k;
    done, ok, length, k := GenerateIntegrals(one.f, integrals, fractionals, divisor, divisorExponentPlusOne, distance.f,
      unsafeInterval.f, buffer, low.f, w.f, high.f, maxDigits);
    kappa := k;
    if !done {
      ok, length, kappa := GenerateFractionals(one.f, fractionals, distance.f, unsafeInterval.f, buffer, length,
        low.f, w.f, high.f, maxDigits);
    }
  }

  lemma OneFits(n: nat)
    requires n <= 60
    ensures 0 < Pow(2, n) <= 0x1000_0000_0000_0000
  {
    hide Pow;
    PowersOfTwo();
    PowAdd(2, 30, 30);
    PowMono(2, n, 60);
  }

  lemma SplitAtPoint(f: nat, one: nat, n: nat)
    requires 32 <= n <= 60 && one == Pow(2, n) && one > 0 && 0x4000_0000_0000_0000 <= f < 0x1_0000_0000_0000_0000
    ensures 0 < f / one < 0x1_0000_0000
    ensures f / one < Pow(2, 64 - n) <= 4 * (f / one) && 0 < Pow(2, 64 - n)
    ensures f == f / one * one + f % one
  {
    hide Pow;
    PointPowers(n);
    DivModSum(f, one);
    var q, r := f / one, f % one;
    QuotientRange(f, one, q, r, Pow(2, 62 - n));
  }

  lemma PointPowers(n: nat)
    requires 32 <= n <= 60
    ensures Pow(2, n) * Pow(2, 62 - n) == 0x4000_0000_0000_0000
    ensures Pow(2, 64 - n) == 4 * Pow(2, 62 - n) <= 0x1_0000_0000
  {
    hide Pow;
    PowersOfTwo();
    PowNext(2, 30);
    PowNext(2, 31);
    PowAdd(2, 31, 31);
    PowAdd(2, n, 62 - n);
    PowNext(2, 62 - n);
    PowNext(2, 63 - n);
    PowMono(2, 64 - n, 32);
  }

  lemma DivModSum(f: nat, one: nat)
    requires one > 0
    ensures f == f / one * one + f % one && 0 <= f % one < one
  {
  }

  lemma QuotientRange(f: nat, one: nat, q: int, r: int, m: nat)
    requires f == q * one + r && 0 <= r < one && one * m == 0x4000_0000_0000_0000 <= f < 0x1_0000_0000_0000_0000
    ensures 0 < m <= q < 4 * m
  {
    if q < m {
      MulMono(q + 1, m, one);
      Distribute(one, q, 1);
    }
    if q >= 4 * m {
      MulMono(4 * m, q, one);
      MulAssoc(4, m, one);
    }
  }
}
