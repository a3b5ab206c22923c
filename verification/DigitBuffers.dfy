// In-place rounding of a buffer of decimal digits.
module DigitBuffers {
  import opened Powers
  import opened Decimals

  method IncrementLast(buffer: array<char>, length: nat)
    requires 1 <= length <= buffer.Length && AreDigits(buffer[..length]) && buffer[length - 1] != '9'
    modifies buffer
    ensures AreDigits(buffer[..length])
    ensures DecimalValue(buffer[..length]) == old(DecimalValue(buffer[..length])) + 1
    ensures buffer[0] == '0' ==> length > 1 && old(buffer[0]) == '0'
  {
    ghost var s := buffer[..length - 1];
    assert buffer[..length][..length - 1] == s;
    buffer[length - 1] := DigitChar(Digit(buffer[length - 1]) + 1);
    assert buffer[..length] == s + [buffer[length - 1]];
    assert buffer[..length][..length - 1] == s;
  }

  /** Replacing one digit moves the value by the difference times the digit's weight. */
  lemma {:induction false} DecimalUpdate(s: seq<char>, i: nat, c: char)
    requires i < |s|
    ensures DecimalValue(s[i := c]) == DecimalValue(s) + (Digit(c) - Digit(s[i])) * Pow(10, |s| - 1 - i)
  {
    var n := |s| - 1;
    if i == n {
      assert s[i := c][..n] == s[..n];
    } else {
      assert s[i := c][..n] == s[..n][i := c];
      DecimalUpdate(s[..n], i, c);
      MulAssoc(10, Digit(c) - Digit(s[i]), Pow(10, n - 1 - i));
    }
  }

  /** Moves a digit of ten in the last place up through the nines. If it leaves the first place
      the digits become a one followed by zeros, worth ten times less. */
  method CarryUp(buffer: array<char>, length: nat) returns (overflow: bool)
    requires 1 <= length <= buffer.Length
    requires AreDigits(buffer[..length - 1]) && 0 <= Digit(buffer[length - 1]) <= 10
    modifies buffer
    ensures AreDigits(buffer[..length])
    ensures DecimalValue(buffer[..length]) * (if overflow then 10 else 1) == old(DecimalValue(buffer[..length]))
    ensures overflow ==> buffer[0] == '1'
    ensures old(buffer[0]) != '0' ==> buffer[0] != '0'
    ensures forall j :: length <= j < buffer.Length ==> buffer[j] == old(buffer[j])
  {
    hide DecimalValue, Pow;
    ghost var value := DecimalValue(buffer[..length]);
    var i := length - 1;
    while i > 0 && buffer[i] == ':'
      invariant 0 <= i < length
      invariant forall j :: 0 <= j < i ==> IsDigit(buffer[j])
      invariant 0 <= Digit(buffer[i]) <= 10
      invariant forall j :: i < j < length ==> buffer[j] == '0'
      invariant DecimalValue(buffer[..length]) == value
      invariant old(buffer[0]) != '0' ==> buffer[0] != '0'
      invariant forall j :: length <= j < buffer.Length ==> buffer[j] == old(buffer[j])
    {
      ghost var s := buffer[..length];
      var c := DigitChar(Digit(buffer[i - 1]) + 1);
      buffer[i] := '0';
      buffer[i - 1] := c;
      assert buffer[..length] == s[i := '0'][i - 1 := c];
      DecimalUpdate(s, i, '0');
      DecimalUpdate(s[i := '0'], i - 1, c);
      PowNext(10, length - 1 - i);
      i := i - 1;
    }
    overflow := buffer[0] == ':';
    if overflow {
      ghost var s := buffer[..length];
      buffer[0] := '1';
      assert buffer[..length] == s[0 := '1'];
      OneAndZeros(s, buffer[..length]);
    }
  }

  lemma OneCharacter(c: char)
    ensures DecimalValue([c]) == Digit(c)
  {
  }

  lemma OneAndZeros(s: seq<char>, t: seq<char>)
    requires |s| == |t| > 0 && s[0] == ':' && t[0] == '1'
    requires forall j :: 1 <= j < |s| ==> s[j] == '0' && t[j] == '0'
    ensures 10 * DecimalValue(t) == DecimalValue(s)
  {
    hide DecimalValue, Pow;
    var u, v := s[1..], t[1..];
    assert s == [':'] + u && t == ['1'] + v;
    DecimalConcat([':'], u);
    DecimalConcat(['1'], v);
    DecimalZeros(u);
    DecimalZeros(v);
    OneCharacter(':');
    OneCharacter('1');
  }
}
