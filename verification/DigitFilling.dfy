// Writing integers as digits and tidying the result (fixed-dtoa.cc).
module DigitFilling {
  import opened MachineInts
  import opened Powers
  import opened RealPowers
  import opened Decimals
  import opened DigitBuffers
  import opened DecimalRounding

  /** The digits in t stand for the number, with no leading zero. */
  ghost predicate Spells(t: seq<char>, number: nat) {
    AreDigits(t) && DecimalValue(t) == number && (t != [] ==> t[0] != '0')
  }

  /** s are the last digits of the number, and n is what is in front of them. */
  ghost predicate Tail(number: nat, n: nat, s: seq<char>) {
    AreDigits(s) && number == n * Pow(10, |s|) + DecimalValue(s)
  }

  /** The last `requestedLength` digits of the number, leading zeros included. */
  method FillDigits32FixedLength(number: uint32, requestedLength: nat, buffer: array<char>, length: nat) returns (newLength: nat)
    requires length + requestedLength <= buffer.Length
    modifies buffer
    ensures newLength == length + requestedLength && buffer[..length] == old(buffer[..length])
    ensures AreDigits(buffer[length..newLength])
    ensures DecimalValue(buffer[length..newLength]) == number % Pow(10, requestedLength)
  {
    hide Tail;
    var n: uint32 := number;
    ghost var head := buffer[..length];
    newLength := length + requestedLength;
    StartTail(number);
    assert buffer[newLength..newLength] == [];
    var i := requestedLength;
    while i > 0
      invariant 0 <= i <= requestedLength && buffer[..length] == head
      invariant Tail(number, n, buffer[length + i..newLength])
    {
      i := i - 1;
      ghost var t := buffer[length + i + 1..newLength];
      buffer[length + i] := DigitChar(n % 10);
      assert buffer[length + i..newLength] == [DigitChar(n % 10)] + t;
      assert buffer[..length] == head;
      NextTail(number, n, t);
      n := n / 10;
    }
    TailIsRemainder(number, n, buffer[length..newLength]);
  }

  lemma StartTail(number: nat)
    ensures Tail(number, number, [])
  {
    PowNone(10);
    DecimalNone([]);
  }

  lemma NextTail(number: nat, n: nat, s: seq<char>)
    requires Tail(number, n, s)
    ensures Tail(number, n / 10, [DigitChar(n % 10)] + s)
  {
    hide DecimalValue, Pow;
    Prepend(DigitChar(n % 10), s);
    PowNext(10, |s|);
    MoveDigit(n, Pow(10, |s|));
  }

  lemma TailIsRemainder(number: nat, n: nat, s: seq<char>)
    requires Tail(number, n, s)
    ensures AreDigits(s) && DecimalValue(s) == number % Pow(10, |s|)
  {
    hide DecimalValue, Pow;
    DecimalBounds(s);
    DivModUnique(number, Pow(10, |s|), n, DecimalValue(s));
  }

  lemma Prepend(c: char, t: seq<char>)
    ensures DecimalValue([c] + t) == Digit(c) * Pow(10, |t|) + DecimalValue(t)
  {
    hide Pow, DecimalValue;
    DecimalConcat([c], t);
    DecimalAppend([], c);
    DecimalNone([]);
    assert [c] == [] + [c];
  }

  lemma MoveDigit(n: nat, p: nat)
    ensures n * p == n / 10 * (10 * p) + n % 10 * p
  {
    var q, r := n / 10, n % 10;
    assert n == 10 * q + r;
    Distribute(p, 10 * q, r);
    MulAssoc(10, q, p);
  }

  /** The number without leading zeros; nothing at all for zero. */
  method FillDigits32(number: uint32, buffer: array<char>, length: nat) returns (newLength: nat)
    requires length + 10 <= buffer.Length
    modifies buffer
    ensures length <= newLength <= length + 10 && buffer[..length] == old(buffer[..length])
    ensures Spells(buffer[length..newLength], number)
  {
    hide DecimalValue, Pow;
    ghost var head := buffer[..length];
    var numberLength := FillReversed(number, buffer, length);
    newLength := length + numberLength;
    ExchangeDigits(buffer, length, newLength);
    assert buffer[..length] == head;
  }

  function Reversed(s: seq<char>): (r: seq<char>)
    ensures |r| == |s| && forall k :: 0 <= k < |s| ==> r[k] == s[|s| - 1 - k]
  {
    if s == [] then [] else [s[|s| - 1]] + Reversed(s[..|s| - 1])
  }

  /** Reverses a part of the buffer in place. */
  method ExchangeDigits(buffer: array<char>, start: nat, end: nat)
    requires start <= end <= buffer.Length
    modifies buffer
    ensures buffer[start..end] == Reversed(old(buffer[start..end]))
    ensures forall k :: 0 <= k < start ==> buffer[k] == old(buffer[k])
  {
    hide Reversed;
    ghost var s := buffer[start..end];
    ghost var r := Reversed(s);
    var i, j := start, end - 1;
    while i < j
      invariant start <= i <= j + 2 && j < end && i + j == start + end - 1
      invariant forall k :: 0 <= k < start ==> buffer[k] == old(buffer[k])
      invariant forall k :: start <= k < i ==> buffer[k] == r[k - start]
      invariant forall k :: j < k < end ==> buffer[k] == r[k - start]
      invariant forall k :: i <= k <= j ==> buffer[k] == s[k - start]
    {
      var tmp := buffer[i];
      buffer[i] := buffer[j];
      buffer[j] := tmp;
      i := i + 1;
      j := j - 1;
    }
    assert buffer[start..end] == r;
  }

  /** The digits of the number from the lowest up. */
  method FillReversed(numberIn: uint32, buffer: array<char>, length: nat) returns (numberLength: nat)
    requires length + 10 <= buffer.Length
    modifies buffer
    ensures numberLength <= 10 && buffer[..length] == old(buffer[..length])
    ensures Spells(Reversed(buffer[length..length + numberLength]), numberIn)
  {
    hide Tail;
    var number: uint32 := numberIn;
    ghost var head := buffer[..length];
    numberLength := 0;
    StartTail(numberIn);
    assert Reversed(buffer[length..length]) == [];
    while number != 0
      invariant numberLength <= 10 && buffer[..length] == head
      invariant var r := Reversed(buffer[length..length + numberLength]);
        Tail(numberIn, number, r) && (number == 0 && r != [] ==> r[0] != '0')
      decreases number
    {
      ghost var s, c := buffer[length..length + numberLength], DigitChar(number % 10);
      TenDigits(numberIn, number, Reversed(s));
      NextTail(numberIn, number, Reversed(s));
      var digit := number % 10;
      number := number / 10;
      buffer[length + numberLength] := DigitChar(digit);
      numberLength := numberLength + 1;
      ghost var t := buffer[length..length + numberLength];
      assert t == s + [c];
      assert t[..|t| - 1] == s;
      assert buffer[..length] == head;
    }
    AllOfTail(numberIn, Reversed(buffer[length..length + numberLength]));
  }

  lemma AllOfTail(number: nat, s: seq<char>)
    requires Tail(number, 0, s)
    ensures AreDigits(s) && DecimalValue(s) == number
  {
  }

  lemma TenDigits(n: uint32, left: nat, r: seq<char>)
    requires left > 0 && Tail(n, left, r)
    ensures |r| < 10
  {
    hide DecimalValue, Pow;
    DecimalBounds(r);
    if |r| >= 10 {
      PowMono(10, 10, |r|);
      TenTo10();
      MulMono(1, left, Pow(10, |r|));
    }
  }

  lemma TenTo10()
    ensures Pow(10, 10) == 10_000_000_000
  {
    hide Pow;
    TenTo5();
    PowNext(10, 9);
  }

  /** Exactly 17 digits. */
  method FillDigits64FixedLength(number: uint64, buffer: array<char>, length: nat) returns (newLength: nat)
    requires length + 17 <= buffer.Length && number < 100_000_000_000_000_000
    modifies buffer
    ensures newLength == length + 17 && buffer[..length] == old(buffer[..length])
    ensures AreDigits(buffer[length..newLength]) && DecimalValue(buffer[length..newLength]) == number
  {
    hide DecimalValue, Pow;
    ghost var head := buffer[..length];
    TenTo7();
    var part2: uint32, rest := number % 10_000_000, number / 10_000_000;
    var part1: uint32, part0: uint32 := rest % 10_000_000, rest / 10_000_000;
    newLength := FillDigits32FixedLength(part0, 3, buffer, length);
    ghost var s0, t0 := buffer[..newLength], buffer[length..newLength];
    assert s0 == head + t0;
    newLength := FillDigits32FixedLength(part1, 7, buffer, newLength);
    ghost var s1, t1 := buffer[..newLength], buffer[length + 3..newLength];
    assert s1 == s0 + t1;
    newLength := FillDigits32FixedLength(part2, 7, buffer, newLength);
    ghost var t2 := buffer[length + 10..newLength];
    ghost var whole := buffer[..newLength];
    assert whole == s1 + t2;
    AfterHead(head, t0, t1, t2, whole);
    assert buffer[length..newLength] == whole[length..] && buffer[..length] == whole[..length];
    ThreeParts(t0, t1, t2);
  }

  lemma AfterHead(head: seq<char>, a: seq<char>, b: seq<char>, c: seq<char>, whole: seq<char>)
    requires whole == head + a + b + c
    ensures whole[|head|..] == a + b + c && whole[..|head|] == head
  {
  }

  lemma TenTo7()
    ensures Pow(10, 7) == 10_000_000 && Pow(10, 3) == 1000
  {
  }

  lemma ThreeParts(t0: seq<char>, t1: seq<char>, t2: seq<char>)
    requires |t1| == 7 && |t2| == 7
    ensures DecimalValue(t0 + t1 + t2) == (DecimalValue(t0) * 10_000_000 + DecimalValue(t1)) * 10_000_000 + DecimalValue(t2)
  {
    hide DecimalValue, Pow;
    TenTo7();
    DecimalConcat(t0, t1);
    DecimalConcat(t0 + t1, t2);
  }

  method FillDigits64(number: uint64, buffer: array<char>, length: nat) returns (newLength: nat)
    requires length + 24 <= buffer.Length
    modifies buffer
    ensures length <= newLength <= length + 24 && buffer[..length] == old(buffer[..length])
    ensures Spells(buffer[length..newLength], number)
  {
    hide DecimalValue, Pow;
    ghost var head := buffer[..length];
    TenTo7();
    var part2: uint32, rest := number % 10_000_000, number / 10_000_000;
    var part1: uint32, part0: uint32 := rest % 10_000_000, rest / 10_000_000;
    if part0 != 0 {
      newLength := FillDigits32(part0, buffer, length);
      newLength := AppendSeven(part1, part0, buffer, length, newLength);
      newLength := AppendSeven(part2, part0 * 10_000_000 + part1, buffer, length, newLength);
    } else if part1 != 0 {
      newLength := FillDigits32(part1, buffer, length);
      newLength := AppendSeven(part2, part1, buffer, length, newLength);
    } else {
      newLength := FillDigits32(part2, buffer, length);
    }
  }

  method AppendSeven(part: uint32, ghost before: nat, buffer: array<char>, ghost start: nat, length: nat) returns (newLength: nat)
    requires start <= length && length + 7 <= buffer.Length && part < 10_000_000 && 0 < before
    requires Spells(buffer[start..length], before)
    modifies buffer
    ensures newLength == length + 7 && buffer[..start] == old(buffer[..start])
    ensures Spells(buffer[start..newLength], before * 10_000_000 + part)
  {
    hide DecimalValue, Pow;
    ghost var head, t := buffer[..length], buffer[start..length];
    newLength := FillDigits32FixedLength(part, 7, buffer, length);
    TenTo7();
    assert head[start..] == t;
    assert buffer[start..newLength] == t + buffer[length..newLength];
    assert buffer[..start] == head[..start];
    DecimalConcat(t, buffer[length..newLength]);
    if t == [] {
      DecimalNone(t);
    }
  }

  // ----- rounding up and trimming -----

  /** Adds one unit in the last place to what the digits denote; no digits denote zero. */
  method RoundUp(buffer: array<char>, length: nat, decimalPoint: int) returns (newLength: nat, newPoint: int)
    requires length <= buffer.Length && buffer.Length > 0 && AreDigits(buffer[..length]) && (length == 0 ==> decimalPoint == 0)
    modifies buffer
    ensures newLength <= buffer.Length && AreDigits(buffer[..newLength])
    ensures newLength == if length == 0 then 1 else length
    ensures newPoint - newLength == decimalPoint - length || newPoint - newLength == decimalPoint - length + 1
    ensures Denoted(buffer[..newLength], newPoint) == DecimalAt(old(DecimalValue(buffer[..length])) + 1, decimalPoint - length)
  {
    hide DecimalValue, Pow, Ten, DecimalAt;
    if length == 0 {
      DecimalNone(buffer[..length]);
      buffer[0] := '1';
      assert buffer[..1] == ['1'];
      DecimalOne();
      return 1, 1;
    }
    ghost var s := buffer[..length - 1];
    assert buffer[..length] == s + [buffer[length - 1]];
    DecimalAppend(s, buffer[length - 1]);
    buffer[length - 1] := DigitChar(Digit(buffer[length - 1]) + 1);
    assert buffer[..length] == s + [buffer[length - 1]];
    assert buffer[..length - 1] == s;
    DecimalAppend(s, buffer[length - 1]);
    var overflow := CarryUp(buffer, length);
    newLength := length;
    newPoint := if overflow then decimalPoint + 1 else decimalPoint;
    DecimalAtShift(DecimalValue(buffer[..length]), decimalPoint - length, 1);
    PowNext(10, 0);
    PowNone(10);
  }

  /** Removes leading and trailing zeros; what the digits denote stays. */
  method TrimZeros(buffer: array<char>, length: nat, decimalPoint: int) returns (newLength: nat, newPoint: int)
    requires length <= buffer.Length && AreDigits(buffer[..length])
    modifies buffer
    ensures newLength <= length && newPoint <= decimalPoint && AreDigits(buffer[..newLength])
    ensures newLength > 0 ==> buffer[0] != '0' && buffer[newLength - 1] != '0'
    ensures newPoint - newLength >= decimalPoint - length
    ensures Denoted(buffer[..newLength], newPoint) == old(Denoted(buffer[..length], decimalPoint))
  {
    hide Denoted;
    newLength := WithoutTrailing(buffer, length, decimalPoint);
    var firstNonZero := LeadingZeros(buffer, newLength, decimalPoint);
    newPoint := decimalPoint;
    if firstNonZero != 0 {
      ghost var t := buffer[firstNonZero..newLength];
      MoveDown(buffer, firstNonZero, newLength);
      newLength := newLength - firstNonZero;
      newPoint := newPoint - firstNonZero;
      assert buffer[..newLength] == t;
    } else {
      assert buffer[0..newLength] == buffer[..newLength];
    }
  }

  method WithoutTrailing(buffer: array<char>, length: nat, point: int) returns (n: nat)
    requires length <= buffer.Length && AreDigits(buffer[..length])
    ensures n <= length && (n > 0 ==> buffer[n - 1] != '0') && AreDigits(buffer[..n])
    ensures Denoted(buffer[..n], point) == Denoted(buffer[..length], point)
  {
    hide Denoted;
    n := length;
    while n > 0 && buffer[n - 1] == '0'
      invariant n <= length && Denoted(buffer[..n], point) == Denoted(buffer[..length], point)
    {
      ghost var t := buffer[..n - 1];
      assert buffer[..n] == t + ['0'];
      TrailingZero(t, point);
      n := n - 1;
    }
  }

  method LeadingZeros(buffer: array<char>, length: nat, point: int) returns (n: nat)
    requires length <= buffer.Length && AreDigits(buffer[..length])
    ensures n <= length && (n < length ==> buffer[n] != '0') && AreDigits(buffer[n..length])
    ensures Denoted(buffer[n..length], point - n) == Denoted(buffer[..length], point)
  {
    hide Denoted;
    n := 0;
    assert buffer[0..length] == buffer[..length];
    while n < length && buffer[n] == '0'
      invariant n <= length && Denoted(buffer[n..length], point - n) == Denoted(buffer[..length], point)
    {
      ghost var t := buffer[n + 1..length];
      assert buffer[n..length] == ['0'] + t;
      LeadingZero(t, point - n);
      n := n + 1;
    }
  }

  lemma LeadingZero(t: seq<char>, point: int)
    ensures Denoted(['0'] + t, point) == Denoted(t, point - 1)
  {
    hide DecimalValue, Pow, Ten, DecimalAt;
    Prepend('0', t);
  }

  lemma TrailingZero(t: seq<char>, point: int)
    ensures Denoted(t + ['0'], point) == Denoted(t, point)
  {
    hide DecimalValue, Pow, Ten, DecimalAt;
    DecimalAppend(t, '0');
    DecimalAtShift(DecimalValue(t), point - |t| - 1, 1);
    PowNext(10, 0);
    PowNone(10);
  }

  method MoveDown(buffer: array<char>, start: nat, length: nat)
    requires 0 < start <= length <= buffer.Length
    modifies buffer
    ensures buffer[..length - start] == old(buffer[start..length])
  {
    for i := start to length
      invariant buffer[..i - start] == old(buffer[start..i])
      invariant forall k :: i <= k < length ==> buffer[k] == old(buffer[k])
    {
      buffer[i - start] := buffer[i];
    }
  }
}
