// Values of digit sequences in base 2^28, least significant digit first. A
// sequence stands at an offset: digit i is worth s[i] * 2^(28 * (offset + i)),
// which is how a Bignum keeps its low zero digits out of the array.
module Bigits {
  import opened MachineInts

  /** d * 2^(28 * n). */
  function Scale(d: int, n: nat): int {
    if n == 0 then d else 0x1000_0000 * Scale(d, n - 1)
  }

  /** 2^(28 * n), what a one in place n is worth. */
  function Weight(n: nat): (w: int)
    ensures w >= 1
  {
    if n == 0 then 1 else 0x1000_0000 * Weight(n - 1)
  }

  function Val(s: seq<Bigit>, offset: nat): int {
    if s == [] then 0
    else Val(s[..|s| - 1], offset) + Scale(s[|s| - 1], offset + |s| - 1)
  }

  ghost predicate ZeroFrom(s: seq<Bigit>, n: int) {
    forall i :: 0 <= n <= i < |s| ==> s[i] == 0
  }

  // ----- scaling -----

  lemma {:induction false} ScaleAdd(a: int, b: int, n: nat)
    ensures Scale(a + b, n) == Scale(a, n) + Scale(b, n)
  {
    if n > 0 {
      ScaleAdd(a, b, n - 1);
    }
  }

  lemma {:induction false} ScaleZero(n: nat)
    ensures Scale(0, n) == 0
  {
    if n > 0 {
      ScaleZero(n - 1);
    }
  }

  lemma {:induction false} ScaleMono(a: int, b: int, n: nat)
    requires a <= b
    ensures Scale(a, n) <= Scale(b, n)
    ensures Scale(1, n) == Weight(n)
    ensures a < b ==> Scale(a, n) + Weight(n) <= Scale(b, n)
  {
    if n > 0 {
      ScaleMono(a, b, n - 1);
    }
  }

  /** One place up is a factor of 2^28. */
  lemma {:induction false} ScaleUp(d: int, n: nat)
    ensures Scale(d, n + 1) == Scale(0x1000_0000 * d, n)
    ensures Scale(0x1000_0000, n) == Weight(n + 1)
  {
    if n > 0 {
      ScaleUp(d, n - 1);
    }
  }

  lemma {:induction false} ScaleTimes(f: int, d: int, n: nat)
    ensures Scale(f * d, n) == f * Scale(d, n)
    ensures Scale(f, n) == f * Weight(n)
  {
    if n > 0 {
      ScaleTimes(f, d, n - 1);
    }
  }

  lemma {:induction false} ScaleScale(d: int, m: nat, n: nat)
    ensures Scale(Scale(d, m), n) == Scale(d, m + n)
  {
    if n > 0 {
      ScaleScale(d, m, n - 1);
    }
  }

  lemma {:induction false} WeightMono(m: nat, n: nat)
    requires m <= n
    ensures Weight(m) <= Weight(n)
    ensures m < n ==> 0x1000_0000 * Weight(m) <= Weight(n)
    decreases n
  {
    if m < n {
      WeightMono(m, n - 1);
    }
  }

  // ----- values -----

  lemma {:induction false} ValUpdate(s: seq<Bigit>, offset: nat, i: nat, x: Bigit)
    requires i < |s|
    ensures Val(s[i := x], offset) == Val(s, offset) + Scale(x, offset + i) - Scale(s[i], offset + i)
  {
    var t := s[i := x];
    var n := |s| - 1;
    if i == n {
      assert t[..n] == s[..n];
    } else {
      assert t[..n] == s[..n][i := x];
      ValUpdate(s[..n], offset, i, x);
    }
  }

  lemma ValNone(s: seq<Bigit>, offset: nat)
    ensures Val(s[..0], offset) == 0
  {
  }

  lemma ScaleNone(d: int)
    ensures Scale(d, 0) == d
  {
  }

  lemma {:induction false} ValPush(s: seq<Bigit>, offset: nat, i: nat)
    requires i < |s|
    ensures Val(s[..i + 1], offset) == Val(s[..i], offset) + Scale(s[i], offset + i)
  {
    assert s[..i + 1][..i] == s[..i];
  }

  lemma {:induction false} ValBounds(s: seq<Bigit>, offset: nat)
    ensures 0 <= Val(s, offset) <= Weight(offset + |s|) - Weight(offset)
  {
    if s != [] {
      var n := |s| - 1;
      ValBounds(s[..n], offset);
      ScaleMono(0, s[n], offset + n);
      ScaleZero(offset + n);
      ScaleMono(s[n], 0x1000_0000, offset + n);
      ScaleUp(1, offset + n);
    }
  }

  /** Zero digits at the top contribute nothing. */
  lemma {:induction false} ValZeroTop(s: seq<Bigit>, offset: nat, n: nat)
    requires n <= |s| && ZeroFrom(s, n)
    ensures Val(s, offset) == Val(s[..n], offset)
  {
    if n == |s| {
      assert s[..n] == s;
    } else {
      assert s[..|s| - 1][..n] == s[..n];
      ValZeroTop(s[..|s| - 1], offset, n);
      ScaleZero(offset + |s| - 1);
    }
  }

  lemma {:induction false} ValZeros(s: seq<Bigit>, offset: nat)
    requires ZeroFrom(s, 0)
    ensures Val(s, offset) == 0
  {
    ValZeroTop(s, offset, 0);
  }

  /** The highest digit in use pins the value between two neighbouring multiples of its weight. */
  lemma {:induction false} TopBigit(s: seq<Bigit>, offset: nat, n: nat)
    requires 1 <= n <= |s| && ZeroFrom(s, n)
    ensures Scale(s[n - 1], offset + n - 1) <= Val(s, offset)
    ensures Val(s, offset) < Scale((s[n - 1] as int) + 1, offset + n - 1)
    ensures Val(s, offset) < Weight(offset + n)
  {
    ValZeroTop(s, offset, n);
    ValPush(s, offset, n - 1);
    ValBounds(s[..n - 1], offset);
    ScaleMono(s[n - 1], (s[n - 1] as int) + 1, offset + n - 1);
    ValBounds(s[..n], offset);
  }

  /** A clamped number reaches the weight of its highest digit. */
  lemma {:induction false} LeastValue(s: seq<Bigit>, offset: nat, n: nat)
    requires n <= |s| && ZeroFrom(s, n)
    requires n == 0 || s[n - 1] != 0
    ensures Val(s, offset) >= 0
    ensures n > 0 ==> Val(s, offset) >= Weight(offset + n - 1)
  {
    ValBounds(s, offset);
    if n > 0 {
      TopBigit(s, offset, n);
      ScaleMono(1, s[n - 1], offset + n - 1);
    }
  }

  /** Conversely, reaching that weight means the highest digit is not zero. */
  lemma {:induction false} TopNonzero(s: seq<Bigit>, offset: nat, n: nat)
    requires n <= |s| && ZeroFrom(s, n)
    requires n > 0 ==> Val(s, offset) >= Weight(offset + n - 1)
    ensures n > 0 ==> s[n - 1] != 0
  {
    if n > 0 {
      TopBigit(s, offset, n);
      ScaleMono(0, 1, offset + n - 1);
    }
  }

  function Zeros(n: nat): (z: seq<Bigit>)
    ensures |z| == n && forall i :: 0 <= i < n ==> z[i] == 0
  {
    seq(n, _ => 0)
  }

  /** Hidden zero digits and stored zero digits denote the same value. */
  lemma {:induction false} ValShift(s: seq<Bigit>, offset: nat, z: nat)
    ensures Val(Zeros(z) + s, offset) == Val(s, offset + z)
  {
    var t := Zeros(z) + s;
    if s == [] {
      ValZeros(t, offset);
    } else {
      assert t[..|t| - 1] == Zeros(z) + s[..|s| - 1];
      ValShift(s[..|s| - 1], offset, z);
    }
  }

  lemma {:induction false} ValOffset(s: seq<Bigit>, offset: nat)
    ensures Val(s, offset) == Scale(Val(s, 0), offset)
  {
    if s == [] {
      ScaleZero(offset);
    } else {
      var n := |s| - 1;
      ValOffset(s[..n], offset);
      ScaleScale(s[n], n, offset);
      ScaleAdd(Val(s[..n], 0), Scale(s[n], n), offset);
    }
  }

  // ----- one column of an operation -----

  /** Splitting a column total into the digit kept and the carry passed on. */
  lemma {:induction false} CarryStep(total: int, digit: int, carry: int, n: nat)
    requires total == digit + 0x1000_0000 * carry
    ensures Scale(digit, n) + Scale(carry, n + 1) == Scale(total, n)
  {
    ScaleUp(carry, n);
    ScaleAdd(digit, 0x1000_0000 * carry, n);
  }

  // ----- digits at absolute positions -----

  /** Digit number i of the value, counting the hidden zeros. */
  function DigitAt(s: seq<Bigit>, offset: nat, i: nat): Bigit {
    if i < offset || offset + |s| <= i then 0 else s[i - offset]
  }

  /** The value of the digits below position i. */
  function Low(s: seq<Bigit>, offset: nat, i: nat): int {
    if i == 0 then 0 else Low(s, offset, i - 1) + Scale(DigitAt(s, offset, i - 1), i - 1)
  }

  lemma {:induction false} LowBounds(s: seq<Bigit>, offset: nat, i: nat)
    ensures 0 <= Low(s, offset, i) < Weight(i)
  {
    if i > 0 {
      var d := DigitAt(s, offset, i - 1);
      LowBounds(s, offset, i - 1);
      ScaleZero(i - 1);
      ScaleMono(0, d, i - 1);
      ScaleMono(d, 0x1000_0000, i - 1);
      ScaleUp(1, i - 1);
    }
  }

  lemma {:induction false} LowHidden(s: seq<Bigit>, offset: nat, i: nat)
    requires i <= offset
    ensures Low(s, offset, i) == 0
  {
    if i > 0 {
      LowHidden(s, offset, i - 1);
      ScaleZero(i - 1);
    }
  }

  lemma {:induction false} LowPrefix(s: seq<Bigit>, offset: nat, n: nat)
    requires n <= |s|
    ensures Low(s, offset, offset + n) == Val(s[..n], offset)
  {
    if n == 0 {
      LowHidden(s, offset, offset);
    } else {
      LowPrefix(s, offset, n - 1);
      ValPush(s, offset, n - 1);
    }
  }

  /** Above the highest digit in use, the low part is the whole value. */
  lemma {:induction false} LowAll(s: seq<Bigit>, offset: nat, n: nat, i: nat)
    requires n <= |s| && ZeroFrom(s, n) && offset + n <= i
    ensures Low(s, offset, i) == Val(s, offset)
    decreases i
  {
    if i == offset + n {
      LowPrefix(s, offset, n);
      ValZeroTop(s, offset, n);
    } else {
      LowAll(s, offset, n, i - 1);
      ScaleZero(i - 1);
    }
  }
}
