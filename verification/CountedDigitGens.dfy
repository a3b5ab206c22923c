// Generating a given number of digits in 64-bit arithmetic (DigitGenCounted in fast-dtoa.cc).
module CountedDigitGens {
  import opened MachineInts
  import opened Powers
  import opened Decimals
  import opened DiyFps
  import opened RoundWeeds
  import opened DigitGens
  import opened DecimalRounding

  /** The result of a successful DigitGenCounted: `count` digits of w, cut at `place` and safely
      rounded there; a carry out of the first digit raises kappa. */
  ghost predicate CountedResult(s: seq<char>, kappa: int, place: int, count: nat, one: nat, w: int) {
    var (tenKappa, unit) := Weights(place, one);
    && |s| == count > 0 && AreDigits(s) && s[0] != '0' && (kappa == place || kappa == place + 1)
    && SafelyRounded(DecimalValue(s) * (if kappa == place then 1 else 10), tenKappa, w * unit, unit)
    && Pow(10, count - 1) * tenKappa <= w * unit < Pow(10, count) * tenKappa
  }

  /** `count` digits have been written where nothing else remained to be decided. */
  lemma EmittedPlace(s: seq<char>, w: int, unit: nat, scale: int, rest: int)
    requires s != [] && Emitted(s, w, unit, 0, scale, rest)
    ensures Pow(10, |s| - 1) * scale <= w * unit < Pow(10, |s|) * scale
  {
    hide Pow, DecimalValue;
    LeadingDigit(s);
    MulMono(Pow(10, |s| - 1), DecimalValue(s), scale);
    MulMono(DecimalValue(s) + 1, Pow(10, |s|), scale);
    Distribute(scale, DecimalValue(s), 1);
  }

  method RoundCounted(buffer: array<char>, length: nat, rest: uint64, tenKappa: uint64, unit: uint64, kappaIn: int,
      ghost w: int, ghost one: nat) returns (ok: bool, kappa: int)
    requires 1 <= length <= buffer.Length && unit > 0 && Weights(kappaIn, one) == (tenKappa, unit)
    requires Emitted(buffer[..length], w, unit, 0, tenKappa, rest)
    modifies buffer
    ensures ok ==> CountedResult(buffer[..length], kappa, kappaIn, length, one, w)
  {
    hide Pow, DecimalValue, SafelyRounded;
    EmittedPlace(buffer[..length], w, unit, tenKappa, rest);
    ok, kappa := RoundWeedCounted(buffer, length, rest, tenKappa, unit, kappaIn, w * unit);
  }

  method DigitGenCounted(w: DiyFp, requestedDigits: nat, buffer: array<char>)
    returns (ok: bool, length: nat, kappa: int, ghost place: int)
    requires -60 <= w.e <= -32 && w.f >= 0x4000_0000_0000_0000 && 1 <= requestedDigits <= buffer.Length
    modifies buffer
    ensures length <= requestedDigits
    ensures ok ==> CountedResult(buffer[..length], kappa, place, requestedDigits, Pow(2, -w.e), w.f)
  {
    hide Pow, DecimalValue, CountedResult, Emitted, SettledPlace, PowerBelow, LargeEnough;
    OneFits(-w.e);
    var one := new DiyFp(Pow(2, -w.e), w.e);
    SplitAtPoint(w.f, one.f, -w.e);
    var integrals: uint32, fractionals: uint64 := w.f / one.f, w.f % one.f;
    PowNext(2, 64 + one.e);
    QuarterIsEnough(integrals, 64 + one.e);
    var divisor, divisorExponentPlusOne := BiggestPowerTen(integrals, 64 + one.e);
    var k;
    length, k, integrals, divisor := CountIntegrals(requestedDigits, one.f, integrals, fractionals, divisor,
      divisorExponentPlusOne, buffer, w.f);
    kappa, place := k, k;
    if length == requestedDigits {
      IntegralRest(buffer[..length], w.f, one.f, divisor, integrals, fractionals);
      var rest: uint64, tenKappa: uint64 := integrals * one.f + fractionals, divisor * one.f;
      ok, kappa := RoundCounted(buffer, length, rest, tenKappa, 1, kappa, w.f, one.f);
    } else {
      var wError;
      length, fractionals, wError, kappa := CountFractionals(requestedDigits, one.f, fractionals, buffer, length, w.f);
      place := kappa;
      if length != requestedDigits {
        return false, length, kappa, place;
      }
      PowNone(10);
      FractionalRest(buffer[..length], w.f, wError, one.f, fractionals);
      ok, kappa := RoundCounted(buffer, length, fractionals, one.f, wError, kappa, w.f, one.f);
    }
  }

  lemma FractionalRest(s: seq<char>, w: int, unit: nat, one: nat, fractionals: nat)
    requires Emitted(s, w, unit, 0, one, fractionals)
    ensures 0 < one
  {
  }

  lemma IntegralRest(s: seq<char>, w: uint64, one: nat, divisor: nat, integrals: nat, fractionals: nat)
    requires s != [] && Emitted(s, w, 1, 0, divisor * one, integrals * one + fractionals)
    ensures 0 <= integrals * one + fractionals <= w && 0 < divisor * one <= w
  {
    hide Pow, DecimalValue;
    LeadingDigit(s);
    MulMono(1, DecimalValue(s), divisor * one);
  }

  /** The digits before the decimal point, as many as there are or are wanted. */
  method CountIntegrals(requestedDigits: nat, one: uint64, integralsIn: uint32, fractionals: uint64, divisorIn: uint32,
      kappaIn: nat, buffer: array<char>, ghost w: int)
    returns (length: nat, kappa: nat, integrals: uint32, divisor: uint32)
    requires 1 <= requestedDigits <= buffer.Length && w < 0x1_0000_0000_0000_0000
    requires w == integralsIn * one + fractionals && fractionals < one
    requires kappaIn >= 1 && divisorIn == Pow(10, kappaIn - 1) && divisorIn <= integralsIn < 10 * divisorIn
    modifies buffer
    ensures 1 <= length <= requestedDigits
    ensures length == requestedDigits ==> (divisor == Pow(10, kappa)
      && Emitted(buffer[..length], w, 1, 0, divisor * one, integrals * one + fractionals))
    ensures length < requestedDigits ==> kappa == 0 && Emitted(buffer[..length], w, 1, 0, one, fractionals)
  {
    hide Pow, DecimalValue, Emitted;
    integrals, divisor := integralsIn, divisorIn;
    length, kappa := 0, kappaIn;
    PowNext(10, kappaIn - 1);
    StartEmitting(buffer[..0], w, 0, one, integrals, fractionals, divisor);
    while kappa > 0
      invariant 0 <= kappa <= kappaIn && length < requestedDigits && (kappa < kappaIn ==> length > 0)
      invariant kappa > 0 ==> divisor == Pow(10, kappa - 1)
      invariant length == 0 ==> integrals >= divisor && kappa == kappaIn
      invariant Emitted(buffer[..length], w, 1, 0, Pow(10, kappa) * one, integrals * one + fractionals)
      decreases kappa
    {
      PowNext(10, kappa - 1);
      integrals := CountIntegral(one, integrals, fractionals, divisor, buffer, length, w);
      length := length + 1;
      kappa := kappa - 1;
      if length == requestedDigits {
        return;
      }
      if kappa > 0 {
        PowNext(10, kappa - 1);
        divisor := divisor / 10;
      }
    }
    PowNone(10);
    NothingLeft(buffer[..length], w, 0, one, integrals, fractionals);
  }

  lemma IntegralEmitted(s: seq<char>, w: int, one: nat, divisor: nat, integrals: nat, fractionals: nat, digit: int, left: nat)
    requires integrals == digit * divisor + left && left < divisor && 0 <= digit
    requires fractionals < one && w < 0x1_0000_0000_0000_0000 && (s == [] ==> integrals >= divisor)
    requires Emitted(s, w, 1, 0, 10 * divisor * one, integrals * one + fractionals)
    ensures Emitted(s + [DigitChar(digit)], w, 1, 0, divisor * one, left * one + fractionals) && digit <= 9
  {
    hide Pow, DecimalValue;
    IntegralDigit(s, w, 0, one, divisor, integrals, fractionals, digit, left);
  }

  method CountIntegral(one: uint64, integralsIn: uint32, fractionals: uint64, divisor: uint32,
      buffer: array<char>, length: nat, ghost w: int) returns (integrals: uint32)
    requires fractionals < one && divisor > 0 && length < buffer.Length && (length == 0 ==> integralsIn >= divisor)
    requires w < 0x1_0000_0000_0000_0000
    requires Emitted(buffer[..length], w, 1, 0, 10 * divisor * one, integralsIn * one + fractionals)
    modifies buffer
    ensures Emitted(buffer[..length + 1], w, 1, 0, divisor * one, integrals * one + fractionals)
  {
    hide Pow, DecimalValue, Emitted;
    ghost var s := buffer[..length];
    var digit, left := integralsIn / divisor, integralsIn % divisor;
    DivModSum(integralsIn, divisor);
    IntegralEmitted(s, w, one, divisor, integralsIn, fractionals, digit, left);
    buffer[length] := DigitChar(digit);
    integrals := left;
    assert buffer[..length + 1] == s + [DigitChar(digit)];
  }

  /** The digits after the decimal point, until there are enough or the error has grown too large. */
  method CountFractionals(requestedDigits: nat, one: uint64, fractionalsIn: uint64, buffer: array<char>, lengthIn: nat, ghost w: int)
    returns (length: nat, fractionals: uint64, wError: uint64, kappa: int)
    requires 1 <= lengthIn < requestedDigits <= buffer.Length && one <= 0x1000_0000_0000_0000
    requires Emitted(buffer[..lengthIn], w, 1, 0, one, fractionalsIn)
    modifies buffer
    ensures 1 <= length <= requestedDigits && kappa <= 0 && wError == Pow(10, -kappa)
    ensures Emitted(buffer[..length], w, wError, 0, one, fractionals)
  {
    hide Pow, DecimalValue;
    length, fractionals, wError, kappa := lengthIn, fractionalsIn, 1, 0;
    PowNone(10);
    while length < requestedDigits && fractionals > wError
      invariant lengthIn <= length <= requestedDigits && kappa <= 0 && wError == Pow(10, -kappa)
      invariant Emitted(buffer[..length], w, wError, 0, one, fractionals)
      decreases requestedDigits - length
    {
      PowNext(10, -kappa);
      fractionals := CountFractional(one, fractionals, wError, buffer, length, w);
      wError := wError * 10;
      length := length + 1;
      kappa := kappa - 1;
    }
  }

  lemma TenfoldFits(s: seq<char>, w: int, wError: nat, one: nat, fractionals: nat)
    requires one <= 0x1000_0000_0000_0000 && Emitted(s, w, wError, 0, one, fractionals)
    ensures 0 < one && fractionals < one
  {
  }

  lemma FractionalEmitted(s: seq<char>, w: int, one: nat, fractionals: nat, unit: nat, digit: int, left: nat)
    requires 10 * fractionals == digit * one + left && left < one && one <= 0x1000_0000_0000_0000 && 0 < unit < fractionals
    requires s != [] && Emitted(s, w, unit, 0, one, fractionals) && 0 <= digit
    ensures digit <= 9 && Emitted(s + [DigitChar(digit)], w, unit * 10, 0, one, left)
  {
    hide Pow, DecimalValue;
    FractionalDigit(s, w, 0, one, fractionals, unit, digit, left);
  }

  method CountFractional(one: uint64, fractionalsIn: uint64, wError: uint64, buffer: array<char>, length: nat, ghost w: int)
    returns (fractionals: uint64)
    requires 0 < length < buffer.Length && one <= 0x1000_0000_0000_0000 && 0 < wError < fractionalsIn
    requires Emitted(buffer[..length], w, wError, 0, one, fractionalsIn)
    modifies buffer
    ensures wError * 10 < 0x1_0000_0000_0000_0000
    ensures Emitted(buffer[..length + 1], w, wError * 10, 0, one, fractionals)
  {
    hide Pow, DecimalValue, Emitted;
    ghost var s := buffer[..length];
    TenfoldFits(s, w, wError, one, fractionalsIn);
    var tenfold: uint64 := fractionalsIn * 10;
    var digit, left := tenfold / one, tenfold % one;
    DivModSum(tenfold, one);
    FractionalEmitted(s, w, one, fractionalsIn, wError, digit, left);
    buffer[length] := DigitChar(digit);
    fractionals := left;
    assert buffer[..length + 1] == s + [DigitChar(digit)];
  }
}
