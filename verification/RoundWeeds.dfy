// The last step of the fast digit generators (fast-dtoa.cc): choosing the last digit when the
// number is known only to within one unit, and giving up when that is not enough. All amounts are
// integers counted in the same small unit.
module RoundWeeds {
  import opened MachineInts
  import opened Powers
  import opened Decimals
  import opened DigitBuffers

  /** What a successful RoundWeed knows about the digits x it leaves, starting from the digits x0
      of tooHigh: x is safely inside, the point half way to its upper neighbour (if that was
      possible at all) is not below w + unit, and the point half way to its lower neighbour (if
      that is inside) not above w - unit, where w = tooHigh - distance. */
  ghost predicate Weeded(x: int, x0: int, tenKappa: int, tooHigh: int, distance: int, unsafeInterval: int, unit: int) {
    && tooHigh - unsafeInterval + 4 * unit <= x * tenKappa <= tooHigh - 2 * unit
    && x <= x0
    && (x < x0 ==> 2 * (x * tenKappa) + tenKappa >= 2 * (tooHigh - distance + unit))
    && (tooHigh - unsafeInterval <= x * tenKappa - tenKappa ==>
        2 * (x * tenKappa) - tenKappa <= 2 * (tooHigh - distance - unit))
  }

  method RoundWeed(buffer: array<char>, length: nat, distance: uint64, unsafeInterval: uint64, restIn: uint64,
      tenKappa: uint64, unit: uint64, ghost tooHigh: int) returns (ok: bool)
    requires 1 <= length <= buffer.Length && AreDigits(buffer[..length])
    requires 0 < unit <= distance && distance + unit <= unsafeInterval && 4 * unit <= unsafeInterval
    requires restIn <= unsafeInterval && 0 < tenKappa
    requires tooHigh == DecimalValue(buffer[..length]) * tenKappa + restIn
    requires 10 * DecimalValue(buffer[..length - 1]) * tenKappa <= tooHigh - unsafeInterval
    modifies buffer
    ensures AreDigits(buffer[..length]) && buffer[..length - 1] == old(buffer[..length - 1])
    ensures ok ==> Weeded(DecimalValue(buffer[..length]), old(DecimalValue(buffer[..length])), tenKappa, tooHigh,
      distance, unsafeInterval, unit)
  {
    hide DecimalValue;
    var smallDistance: uint64, bigDistance: uint64 := distance - unit, distance + unit;
    var rest: uint64 := restIn;
    ghost var s, x0 := buffer[..length - 1], DecimalValue(buffer[..length]);
    SplitLast(buffer[..length]);
    assert buffer[..length][..length - 1] == s;
    while rest < smallDistance && Minus(unsafeInterval, rest) >= tenKappa
        && (Plus(rest, tenKappa) < smallDistance
          || Minus(smallDistance, rest) >= Minus(Plus(rest, tenKappa), smallDistance))
      invariant rest <= unsafeInterval && buffer[..length - 1] == s && AreDigits(buffer[..length])
      invariant tooHigh == DecimalValue(buffer[..length]) * tenKappa + rest
      invariant DecimalValue(buffer[..length]) == 10 * DecimalValue(s) + Digit(buffer[length - 1]) <= x0
      invariant DecimalValue(buffer[..length]) < x0 ==> 2 * rest - tenKappa <= 2 * smallDistance
      decreases unsafeInterval - rest
    {
      ghost var digit := Digit(buffer[length - 1]);
      StepDown(DecimalValue(s), digit, tenKappa, tooHigh, rest, unsafeInterval);
      buffer[length - 1] := DigitChar(Digit(buffer[length - 1]) - 1);
      rest := rest + tenKappa;
      assert buffer[..length] == s + [buffer[length - 1]];
      DecimalAppend(s, buffer[length - 1]);
    }
    if rest < bigDistance && Minus(unsafeInterval, rest) >= tenKappa
        && (Plus(rest, tenKappa) < bigDistance
          || Minus(bigDistance, rest) > Minus(Plus(rest, tenKappa), bigDistance)) {
      return false;
    }
    return Times(2, unit) <= rest <= Minus(unsafeInterval, Times(4, unit));
  }

  lemma SplitLast(s: seq<char>)
    requires s != []
    ensures DecimalValue(s) == 10 * DecimalValue(s[..|s| - 1]) + Digit(s[|s| - 1])
  {
  }

  /** The last digit can be lowered as long as the number stays inside: the digits before it,
      followed by a zero, are not inside. */
  lemma StepDown(p: int, digit: int, tenKappa: int, tooHigh: int, rest: int, unsafeInterval: int)
    requires tenKappa > 0 && tooHigh == (10 * p + digit) * tenKappa + rest
    requires 10 * p * tenKappa <= tooHigh - unsafeInterval && unsafeInterval - rest >= tenKappa
    ensures digit >= 1
    ensures tooHigh == (10 * p + digit - 1) * tenKappa + (rest + tenKappa)
  {
    Distribute(tenKappa, 10 * p + digit, -1);
    MulCancel(10 * p, 10 * p + digit - 1, tenKappa);
  }

  /** What a successful RoundWeedCounted knows: x, in units of tenKappa, is within half of tenKappa
      of every number within one unit of w. */
  ghost predicate SafelyRounded(x: int, tenKappa: int, w: int, unit: int) {
    2 * (x * tenKappa) - tenKappa <= 2 * (w - unit) && 2 * (w + unit) <= 2 * (x * tenKappa) + tenKappa
  }

  method RoundWeedCounted(buffer: array<char>, length: nat, rest: uint64, tenKappa: uint64, unit: uint64, kappaIn: int,
      ghost w: int) returns (ok: bool, kappa: int)
    requires 1 <= length <= buffer.Length && AreDigits(buffer[..length]) && buffer[0] != '0'
    requires rest < tenKappa && 0 < unit
    requires w == DecimalValue(buffer[..length]) * tenKappa + rest
    modifies buffer
    ensures AreDigits(buffer[..length]) && buffer[0] != '0'
    ensures kappa == kappaIn || kappa == kappaIn + 1
    ensures ok ==> SafelyRounded(DecimalValue(buffer[..length]) * (if kappa == kappaIn then 1 else 10), tenKappa, w, unit)
  {
    hide DecimalValue;
    kappa := kappaIn;
    if unit >= tenKappa {
      return false, kappa;
    }
    if Minus(tenKappa, unit) <= unit {
      return false, kappa;
    }
    if Minus(tenKappa, rest) > rest && Minus(tenKappa, Times(2, rest)) >= Times(2, unit) {
      return true, kappa;
    }
    if rest > unit && Minus(tenKappa, Minus(rest, unit)) <= Minus(rest, unit) {
      ghost var s, x := buffer[..length - 1], DecimalValue(buffer[..length]);
      SplitLast(buffer[..length]);
      assert buffer[..length][..length - 1] == s;
      Distribute(tenKappa, x, 1);
      buffer[length - 1] := DigitChar(Digit(buffer[length - 1]) + 1);
      assert buffer[..length] == s + [buffer[length - 1]];
      DecimalAppend(s, buffer[length - 1]);
      var overflow := CarryUp(buffer, length);
      if overflow {
        kappa := kappa + 1;
      }
      return true, kappa;
    }
    return false, kappa;
  }
}
