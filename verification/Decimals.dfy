// Strings of decimal digits and the numbers they denote.
module Decimals {
  import opened Powers

  /** What a character contributes as a digit. A carry on its way makes a digit of ten, written
      as the character after '9'. */
  function Digit(c: char): int { c as int - '0' as int }

  function DigitChar(d: int): (c: char)
    requires 0 <= d <= 10
    ensures Digit(c) == d
  {
    (d + '0' as int) as char
  }

  predicate IsDigit(c: char) { '0' <= c <= '9' }

  ghost predicate AreDigits(s: seq<char>) {
    forall i :: 0 <= i < |s| ==> IsDigit(s[i])
  }

  function DecimalValue(s: seq<char>): int {
    if s == [] then 0 else 10 * DecimalValue(s[..|s| - 1]) + Digit(s[|s| - 1])
  }

  lemma {:induction false} DecimalBounds(s: seq<char>)
    requires AreDigits(s)
    ensures 0 <= DecimalValue(s) < Pow(10, |s|)
  {
    if s != [] {
      DecimalBounds(s[..|s| - 1]);
    }
  }

  lemma DecimalPush(s: seq<char>, i: nat)
    requires i < |s|
    ensures DecimalValue(s[..i + 1]) == 10 * DecimalValue(s[..i]) + Digit(s[i])
  {
    assert s[..i + 1][..i] == s[..i];
  }

  lemma DecimalAppend(s: seq<char>, c: char)
    ensures DecimalValue(s + [c]) == 10 * DecimalValue(s) + Digit(c)
  {
    assert (s + [c])[..|s|] == s;
  }

  lemma {:induction false} DecimalConcat(s: seq<char>, t: seq<char>)
    ensures DecimalValue(s + t) == DecimalValue(s) * Pow(10, |t|) + DecimalValue(t)
  {
    if t == [] {
      assert s + t == s;
    } else {
      var n := |t| - 1;
      assert (s + t)[..|s + t| - 1] == s + t[..n];
      DecimalConcat(s, t[..n]);
      MulAssoc(10, DecimalValue(s), Pow(10, n));
    }
  }

  lemma {:induction false} DecimalZeros(s: seq<char>)
    requires forall i :: 0 <= i < |s| ==> s[i] == '0'
    ensures DecimalValue(s) == 0
  {
    if s != [] {
      DecimalZeros(s[..|s| - 1]);
    }
  }

  /** The prefix of a digit string never denotes more than the string. */
  lemma {:induction false} PrefixIsSmaller(s: seq<char>, i: nat)
    requires AreDigits(s) && i <= |s|
    ensures DecimalValue(s[..i]) <= DecimalValue(s[..i]) * Pow(10, |s| - i) <= DecimalValue(s)
  {
    assert s == s[..i] + s[i..];
    DecimalConcat(s[..i], s[i..]);
    DecimalBounds(s[..i]);
    DecimalBounds(s[i..]);
    MulMono(1, Pow(10, |s| - i), DecimalValue(s[..i]));
  }

  lemma DecimalNone(s: seq<char>)
    requires s == []
    ensures DecimalValue(s) == 0
  {
  }

  lemma TenTo19()
    ensures Pow(10, 19) == 10_000_000_000_000_000_000
  {
    hide Pow;
    PowAdd(10, 5, 5);
    PowAdd(10, 10, 9);
    TenTo5();
  }

  lemma TenTo5()
    ensures Pow(10, 5) == 100_000 && Pow(10, 9) == 1_000_000_000
  {
  }

  lemma WordOfDigits(s: seq<char>)
    requires AreDigits(s) && |s| <= 19
    ensures 0 <= DecimalValue(s) < 0x1_0000_0000_0000_0000
  {
    hide Pow, DecimalValue;
    DecimalBounds(s);
    PowMono(10, |s|, 19);
    TenTo19();
  }

  lemma DecimalOne()
    ensures DecimalValue(['1']) == 1
  {
    assert DecimalValue(['1'][..0]) == 0;
  }

  /** Digit strings of the same length and value are the same. */
  lemma {:induction false} SameDigits(s: seq<char>, t: seq<char>)
    requires |s| == |t| && AreDigits(s) && AreDigits(t) && DecimalValue(s) == DecimalValue(t)
    ensures s == t
  {
    if s != [] {
      var n := |s| - 1;
      assert DecimalValue(s[..n]) == DecimalValue(t[..n]) && s[n] == t[n];
      SameDigits(s[..n], t[..n]);
      assert s == s[..n] + [s[n]] && t == t[..n] + [t[n]];
    }
  }
}
