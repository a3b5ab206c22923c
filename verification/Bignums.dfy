// The fixed-capacity big integer of bignum.h and bignum.cc.
module Bignums {
  import opened MachineInts
  import opened Bigits
  import opened BigitSteps
  import opened Comba
  import opened Decimals
  import opened Powers
  import opened WordPowers

  class Bignum {
    // A C++ Bignum lives on the stack with its digits inside it; here the
    // digit buffer is an array owned by the object.
    const bigits: array<Bigit>
    var used: int
    var exponent: int

    /** The invariant that holds between the internal steps of an operation. */
    ghost predicate Shape()
      reads this, bigits
    {
      && bigits.Length == 128
      && 0 <= used <= 128
      && 0 <= exponent
      && ZeroFrom(bigits[..], used)
    }

    predicate IsClamped()
      reads this, bigits
      requires 0 <= used <= bigits.Length
    {
      used == 0 || bigits[used - 1] != 0
    }

    /** The class invariant between operations. */
    ghost predicate Valid()
      reads this, bigits
      ensures Valid() ==> Shape()
    {
      Shape() && IsClamped() && (used == 0 ==> exponent == 0)
    }

    ghost function Value(): (v: int)
      reads this, bigits
      requires Shape()
      ensures v >= 0
    {
      ValBounds(bigits[..], exponent);
      Val(bigits[..], exponent)
    }

    function BigitLength(): int
      reads this
    {
      used + exponent
    }

    constructor ()
      ensures Valid() && Value() == 0 && used == 0 && fresh(bigits)
    {
      bigits := new Bigit[128](_ => 0);
      used, exponent := 0, 0;
      new;
      ValZeros(bigits[..], 0);
    }

    method Zero()
      requires Shape()
      modifies this, bigits
      ensures Valid() && Value() == 0 && used == 0
    {
      for i := 0 to used
        modifies bigits
        invariant ZeroFrom(bigits[..], used)
        invariant forall j :: 0 <= j < i ==> bigits[j] == 0
      {
        bigits[i] := 0;
      }
      used, exponent := 0, 0;
      ValZeros(bigits[..], 0);
    }

    method Clamp()
      requires Shape()
      modifies this
      ensures Valid() && Value() == old(Value()) && used <= old(used)
      ensures exponent == old(exponent) || used == 0
      ensures old(IsClamped()) ==> used == old(used)
    {
      hide Scale, Val, Weight;
      while used > 0 && bigits[used - 1] == 0
        invariant 0 <= used <= old(used)
        invariant ZeroFrom(bigits[..], used) && exponent == old(exponent)
        invariant old(IsClamped()) ==> used == old(used)
      {
        used := used - 1;
      }
      if used == 0 {
        ValZeros(bigits[..], exponent);
        ValZeros(bigits[..], 0);
        exponent := 0;
      }
    }

    method AssignUInt16(value: uint16)
      requires Shape()
      modifies this, bigits
      ensures Valid() && Value() == value && exponent == 0 && used <= 1
    {
      Zero();
      if value == 0 {
        return;
      }
      ghost var s: seq<Bigit> := bigits[..];
      bigits[0] := value;
      used := 1;
      ValUpdate(s, 0, 0, value);
      assert bigits[..] == s[0 := value];
    }

    method AssignUInt64(value: uint64)
      requires Shape()
      modifies this, bigits
      ensures Valid() && Value() == value && exponent == 0 && used <= 3
    {
      hide Scale, Val, Weight;
      Zero();
      if value == 0 {
        return;
      }
      var rest: uint64 := value;
      ScaleNone(value);
      for i := 0 to 3
        invariant used == 0 && exponent == 0
        invariant ZeroFrom(bigits[..], i)
        invariant Val(bigits[..], 0) + Scale(rest, i) == value
        invariant i == 1 ==> rest < 0x10_0000_0000
        invariant i == 2 ==> rest < 0x100
        invariant i == 3 ==> rest == 0
      {
        ghost var s: seq<Bigit> := bigits[..];
        bigits[i] := rest % 0x1000_0000;
        ValUpdate(s, 0, i, rest % 0x1000_0000);
        assert bigits[..] == s[i := rest % 0x1000_0000];
        ScaleZero(i);
        CarryStep(rest, rest % 0x1000_0000, rest / 0x1000_0000, i);
        rest := rest / 0x1000_0000;
      }
      ScaleZero(3);
      used := 3;
      Clamp();
    }

    method AssignBignum(other: Bignum)
      requires Shape() && other.Valid() && other != this && other.bigits != bigits
      modifies this, bigits
      ensures Valid() && Value() == other.Value()
      ensures used == other.used && exponent == other.exponent && bigits[..] == other.bigits[..]
    {
      hide Scale, Val, Weight;
      exponent := other.exponent;
      for i := 0 to other.used
        modifies bigits
        invariant ZeroFrom(bigits[..], Max(used, i))
        invariant forall j :: 0 <= j < i ==> bigits[j] == other.bigits[j]
      {
        bigits[i] := other.bigits[i];
      }
      for i := other.used to Max(used, other.used)
        modifies bigits
        invariant ZeroFrom(bigits[..], Max(used, i))
        invariant forall j :: 0 <= j < i ==> bigits[j] == other.bigits[j]
      {
        bigits[i] := 0;
      }
      used := other.used;
      assert bigits[..] == other.bigits[..];
    }

    /** Moves the digits up, filling the freed places with zeros. */
    method MoveUp(zeroDigits: nat)
      requires Shape() && used + zeroDigits <= 128
      modifies bigits
      ensures bigits[..] == Zeros(zeroDigits) + old(bigits[..128 - zeroDigits])
    {
      ghost var s := bigits[..];
      var i := used - 1;
      while i >= 0
        invariant -1 <= i < used
        invariant forall j {:trigger bigits[j]} :: 0 <= j <= i ==> bigits[j] == s[j]
        invariant forall j {:trigger bigits[j]} :: i + zeroDigits < j < used + zeroDigits ==> bigits[j] == s[j - zeroDigits]
        invariant forall j {:trigger bigits[j]} :: used + zeroDigits <= j < 128 ==> bigits[j] == 0
      {
        bigits[i + zeroDigits] := bigits[i];
        i := i - 1;
      }
      for k := 0 to zeroDigits
        invariant forall j {:trigger bigits[j]} :: 0 <= j < k ==> bigits[j] == 0
        invariant forall j {:trigger bigits[j]} :: zeroDigits <= j < used + zeroDigits ==> bigits[j] == s[j - zeroDigits]
        invariant forall j {:trigger bigits[j]} :: used + zeroDigits <= j < 128 ==> bigits[j] == 0
      {
        bigits[k] := 0;
      }
      assert bigits[..zeroDigits] == Zeros(zeroDigits) && bigits[zeroDigits..] == s[..128 - zeroDigits];
    }

    /** Stores enough of the hidden zero digits to reach the exponent of `other`. */
    method Align(other: Bignum)
      requires Valid() && other.Valid() && other != this && other.bigits != bigits
      requires BigitLength() - Min(exponent, other.exponent) <= 128
      modifies this, bigits
      ensures Valid() && Value() == old(Value()) && BigitLength() == old(BigitLength())
      ensures exponent == Min(old(exponent), other.exponent)
    {
      hide Scale, Val, Weight;
      if exponent > other.exponent {
        ghost var s: seq<Bigit> := bigits[..];
        var zeroDigits := exponent - other.exponent;
        MoveUp(zeroDigits);
        ValZeroTop(s, exponent, 128 - zeroDigits);
        ValShift(s[..128 - zeroDigits], other.exponent, zeroDigits);
        used := used + zeroDigits;
        exponent := exponent - zeroDigits;
      }
    }

    /** Replaces digit i; the value moves by the difference times the digit's weight. */
    method SetBigit(i: nat, digit: Bigit)
      requires bigits.Length == 128 && i < 128 && 0 <= exponent
      modifies bigits
      ensures bigits[..] == old(bigits[..])[i := digit]
      ensures Val(bigits[..], exponent)
        == old(Val(bigits[..], exponent)) + Scale(digit, exponent + i) - Scale(old(bigits[i]), exponent + i)
    {
      ghost var s: seq<Bigit> := bigits[..];
      ValUpdate(s, exponent, i, digit);
      bigits[i] := digit;
      assert bigits[..] == s[i := digit];
    }

    method AddUInt64(operand: uint64)
      requires Valid() && 1 + Max(BigitLength(), 3) <= 128
      modifies this, bigits
      ensures Valid() && Value() == old(Value()) + operand && exponent <= old(exponent)
    {
      if operand == 0 {
        return;
      }
      var other := new Bignum();
      other.AssignUInt64(operand);
      AddBignum(other);
    }

    method AddBignum(other: Bignum)
      requires Valid() && other.Valid() && other != this && other.bigits != bigits
      requires 1 + Max(BigitLength(), other.BigitLength()) - Min(exponent, other.exponent) <= 128
      modifies this, bigits
      ensures Valid() && Value() == old(Value()) + other.Value()
      ensures exponent <= old(exponent)
      ensures BigitLength() <= 1 + Max(old(BigitLength()), other.BigitLength())
    {
      hide Scale, Val, Weight;
      Align(other);
      ghost var length := Max(BigitLength(), other.BigitLength());
      ghost var total := Value() + other.Value();
      SumBounds(bigits[..], exponent, used, other.bigits[..], other.exponent, other.used, length);
      var carry := AddDigits(other);
      PropagateCarry(other.exponent - exponent + other.used, carry, total);
    }

    /** The digits of `other` added column by column; what is left is the last carry. */
    method AddDigits(other: Bignum) returns (carry: uint32)
      requires Shape() && other.Valid() && other != this && other.bigits != bigits
      requires exponent <= other.exponent && other.exponent - exponent + other.used <= 128
      modifies bigits
      ensures carry <= 1
      ensures ZeroFrom(bigits[..], Max(used, other.exponent - exponent + other.used))
      ensures Val(bigits[..], exponent) + Scale(carry, other.exponent + other.used)
        == old(Value()) + other.Value()
    {
      hide Scale, Val, Weight;
      ghost var v := Value();
      ghost var t: seq<Bigit> := other.bigits[..];
      carry := 0;
      var pos := other.exponent - exponent;
      ScaleZero(other.exponent);
      ValNone(t, other.exponent);
      for i := 0 to other.used
        invariant pos == other.exponent - exponent + i && carry <= 1
        invariant ZeroFrom(bigits[..], Max(used, pos))
        invariant Val(bigits[..], exponent) + Scale(carry, other.exponent + i) == v + Val(t[..i], other.exponent)
      {
        var sum: uint32 := bigits[pos] + other.bigits[i] + carry;
        ValPush(t, other.exponent, i);
        AddStep(bigits[pos], t[i], carry, other.exponent + i);
        SetBigit(pos, sum % 0x1000_0000);
        carry := sum / 0x1000_0000;
        pos := pos + 1;
      }
      ValZeroTop(t, other.exponent, other.used);
    }

    /** Carries on into the higher digits and sets the length. */
    method PropagateCarry(start: nat, carryIn: uint32, ghost total: int)
      requires bigits.Length == 128 && 0 <= used <= 128 && 0 <= exponent && start <= 127 && carryIn <= 1
      requires ZeroFrom(bigits[..], Max(used, start))
      requires Val(bigits[..], exponent) + Scale(carryIn, exponent + start) == total
      requires total < Weight(exponent + Max(used, start) + 1) && Max(used, start) < 128
      requires Max(used, start) > 0 ==> total >= Weight(exponent + Max(used, start) - 1)
      modifies this`used, bigits
      ensures Shape() && IsClamped() && Value() == total
      ensures Max(start, old(used)) <= used <= Max(start, old(used)) + 1
    {
      hide Scale, Val, Weight;
      var carry: uint32 := carryIn;
      var pos := start;
      ghost var length := Max(used, start);
      while carry != 0
        modifies bigits
        invariant start <= pos <= length + 1 && carry <= 1
        invariant ZeroFrom(bigits[..], Max(length, pos))
        invariant pos > length ==> carry == 0 && bigits[pos - 1] != 0
        invariant Val(bigits[..], exponent) + Scale(carry, exponent + pos) == total
        decreases 129 - pos
      {
        var sum: uint32 := bigits[pos] + carry;
        AddStep(bigits[pos], 0, carry, exponent + pos);
        ScaleZero(exponent + pos);
        SetBigit(pos, sum % 0x1000_0000);
        carry := sum / 0x1000_0000;
        pos := pos + 1;
        NoCarryOut(bigits[..], exponent, pos, carry, length, total);
      }
      ScaleZero(exponent + pos);
      used := Max(pos, used);
      if used == length {
        TopNonzero(bigits[..], exponent, used);
      }
    }

    method SubtractBignum(other: Bignum)
      requires Valid() && other.Valid() && other != this && other.bigits != bigits
      requires other.Value() <= Value()
      requires BigitLength() - Min(exponent, other.exponent) <= 128
      modifies this, bigits
      ensures Valid() && Value() == old(Value()) - other.Value()
      ensures exponent == Min(old(exponent), other.exponent) || (used == 0 && exponent == 0)
      ensures BigitLength() <= old(BigitLength())
    {
      hide Scale, Val, Weight;
      Align(other);
      ghost var v := Value();
      ghost var t: seq<Bigit> := other.bigits[..];
      LongerIsLarger(other.bigits[..], other.exponent, other.used, bigits[..], exponent, used);
      var offset := other.exponent - exponent;
      var borrow: uint32 := 0;
      var i := 0;
      ScaleZero(other.exponent);
      ValNone(t, other.exponent);
      while i < other.used
        modifies bigits
        invariant 0 <= i <= other.used && borrow <= 1
        invariant ZeroFrom(bigits[..], used)
        invariant Val(bigits[..], exponent) - Scale(borrow, other.exponent + i) == v - Val(t[..i], other.exponent)
      {
        var difference: uint32 := Wrap32(bigits[i + offset] - other.bigits[i] - borrow);
        WrappedDifference(bigits[i + offset], t[i] + borrow);
        SubStep(bigits[i + offset], difference % 0x1000_0000, t[i], borrow, difference / 0x8000_0000, other.exponent + i);
        ValPush(t, other.exponent, i);
        SetBigit(i + offset, difference % 0x1000_0000);
        borrow := difference / 0x8000_0000;
        i := i + 1;
      }
      ValZeroTop(t, other.exponent, other.used);
      PropagateBorrow(i + offset, borrow, v - other.Value());
      Clamp();
    }

    /** Borrows from the higher digits; a number at least as large as what was subtracted has them. */
    method PropagateBorrow(start: nat, borrowIn: uint32, ghost total: int)
      requires Shape() && start <= used && borrowIn <= 1
      requires Val(bigits[..], exponent) - Scale(borrowIn, exponent + start) == total >= 0
      modifies bigits
      ensures Shape() && Value() == total
    {
      hide Scale, Val, Weight;
      var borrow: uint32 := borrowIn;
      var i := start;
      while borrow != 0
        invariant start <= i <= used && borrow <= 1
        invariant ZeroFrom(bigits[..], used)
        invariant Val(bigits[..], exponent) - Scale(borrow, exponent + i) == total
        decreases used - i, borrow
      {
        BorrowStops(bigits[..], exponent, used, i, borrow);
        var difference: uint32 := Wrap32(bigits[i] - borrow);
        WrappedDifference(bigits[i], borrow);
        SubStep(bigits[i], difference % 0x1000_0000, 0, borrow, difference / 0x8000_0000, exponent + i);
        ScaleZero(exponent + i);
        SetBigit(i, difference % 0x1000_0000);
        borrow := difference / 0x8000_0000;
        i := i + 1;
      }
      ScaleZero(exponent + i);
    }

    method SubtractTimes(other: Bignum, factor: int)
      requires Valid() && other.Valid() && other != this && other.bigits != bigits
      requires exponent <= other.exponent && 0 <= factor < 0x1000_0000
      requires factor * other.Value() <= Value()
      modifies this, bigits
      ensures Valid() && Value() == old(Value()) - factor * other.Value()
      ensures exponent == old(exponent) || (used == 0 && exponent == 0)
      ensures BigitLength() <= old(BigitLength())
    {
      if factor < 3 {
        SubtractRepeatedly(other, factor);
        return;
      }
      hide Scale, Val, Weight;
      MulMono(1, factor, other.Value());
      LongerIsLarger(other.bigits[..], other.exponent, other.used, bigits[..], exponent, used);
      ghost var total := Value() - factor * other.Value();
      var borrow: uint32 := SubtractColumns(other, factor);
      BorrowOrStop(other.used + other.exponent - exponent, borrow, total);
    }

    method SubtractRepeatedly(other: Bignum, factor: nat)
      requires Valid() && other.Valid() && other != this && other.bigits != bigits
      requires exponent <= other.exponent && factor * other.Value() <= Value()
      modifies this, bigits
      ensures Valid() && Value() == old(Value()) - factor * other.Value()
      ensures exponent == old(exponent) || (used == 0 && exponent == 0)
      ensures BigitLength() <= old(BigitLength())
    {
      for i := 0 to factor
        invariant Valid() && Value() == old(Value()) - i * other.Value()
        invariant exponent == old(exponent) || (used == 0 && exponent == 0)
        invariant BigitLength() <= old(BigitLength())
      {
        MulMono(i + 1, factor, other.Value());
        SubtractBignum(other);
      }
    }

    /** The tail of SubtractTimes: it returns as soon as nothing is left to borrow, and the
        highest digit, which is then untouched, is still not zero. */
    method BorrowOrStop(start: nat, borrowIn: uint32, ghost total: int)
      requires Shape() && start <= used && borrowIn < 0x1000_0000
      requires used == 0 ==> exponent == 0
      requires start < used ==> bigits[used - 1] != 0
      requires Val(bigits[..], exponent) - Scale(borrowIn, exponent + start) == total >= 0
      modifies this, bigits
      ensures Valid() && Value() == total
      ensures exponent == old(exponent) || (used == 0 && exponent == 0)
      ensures used <= old(used)
    {
      hide Scale, Val, Weight;
      var borrow: uint32 := borrowIn;
      var i := start;
      while i < used
        modifies bigits
        invariant start <= i <= used && borrow < 0x1000_0000
        invariant ZeroFrom(bigits[..], used) && (i < used ==> bigits[used - 1] != 0)
        invariant Val(bigits[..], exponent) - Scale(borrow, exponent + i) == total
      {
        ScaleZero(exponent + i);
        if borrow == 0 {
          return;
        }
        var difference: uint32 := Wrap32(bigits[i] - borrow);
        WrappedDifference(bigits[i], borrow);
        SubStep(bigits[i], difference % 0x1000_0000, 0, borrow, difference / 0x8000_0000, exponent + i);
        SetBigit(i, difference % 0x1000_0000);
        borrow := difference / 0x8000_0000;
        i := i + 1;
      }
      BorrowStops(bigits[..], exponent, used, i, borrow);
      ScaleZero(exponent + i);
      Clamp();
    }

    /** The multiple of `other` subtracted column by column; the borrow never exceeds the factor. */
    method SubtractColumns(other: Bignum, factor: int) returns (borrow: uint32)
      requires Shape() && other.Valid() && other != this && other.bigits != bigits
      requires exponent <= other.exponent && 0 <= factor < 0x1000_0000
      requires other.BigitLength() <= BigitLength()
      modifies bigits
      ensures Shape() && borrow <= factor
      ensures Val(bigits[..], exponent) - Scale(borrow, other.exponent + other.used)
        == old(Value()) - factor * other.Value()
      ensures forall j :: other.BigitLength() - exponent <= j < used ==> bigits[j] == old(bigits[j])
    {
      hide Scale, Val, Weight;
      ghost var v := Value();
      ghost var t: seq<Bigit> := other.bigits[..];
      var offset := other.exponent - exponent;
      borrow := 0;
      ScaleZero(other.exponent);
      ValNone(t, other.exponent);
      for i := 0 to other.used
        invariant borrow <= factor
        invariant ZeroFrom(bigits[..], used)
        invariant forall j :: i + offset <= j < used ==> bigits[j] == old(bigits[j])
        invariant Val(bigits[..], exponent) - Scale(borrow, other.exponent + i)
          == v - factor * Val(t[..i], other.exponent)
      {
        ProductBound(factor, t[i], borrow);
        var product: uint64 := factor * other.bigits[i];
        var remove: uint64 := borrow + product;
        var difference: uint32 := Wrap32(bigits[i + offset] - remove % 0x1000_0000);
        WrappedDifference(bigits[i + offset], remove % 0x1000_0000);
        var borrow': uint32 := difference / 0x8000_0000 + remove / 0x1000_0000;
        SubStep(bigits[i + offset], difference % 0x1000_0000, product, borrow, borrow', other.exponent + i);
        ScaleTimes(factor, t[i], other.exponent + i);
        ValPush(t, other.exponent, i);
        Distribute(factor, Val(t[..i], other.exponent), Scale(t[i], other.exponent + i));
        SetBigit(i + offset, difference % 0x1000_0000);
        borrow := borrow';
      }
      ValZeroTop(t, other.exponent, other.used);
    }

    /** Digit number `index` of the value, hidden zeros included. */
    function BigitAt(index: nat): (d: Bigit)
      reads this, bigits
      requires Shape()
      ensures d == DigitAt(bigits[..], exponent, index)
    {
      if index >= BigitLength() then 0
      else if index < exponent then 0
      else bigits[index - exponent]
    }

    static method Compare(a: Bignum, b: Bignum) returns (c: int)
      requires a.Valid() && b.Valid()
      ensures c == Sign(a.Value() - b.Value())
    {
      hide Scale, Val, Weight, Low;
      ghost var s: seq<Bigit>, t: seq<Bigit> := a.bigits[..], b.bigits[..];
      var lengthA, lengthB := a.BigitLength(), b.BigitLength();
      LongerIsLarger(s, a.exponent, a.used, t, b.exponent, b.used);
      LongerIsLarger(t, b.exponent, b.used, s, a.exponent, a.used);
      if lengthA < lengthB {
        return -1;
      }
      if lengthA > lengthB {
        return 1;
      }
      LowAll(s, a.exponent, a.used, lengthA);
      LowAll(t, b.exponent, b.used, lengthA);
      var i := lengthA - 1;
      while i >= Min(a.exponent, b.exponent)
        invariant Min(a.exponent, b.exponent) - 1 <= i < lengthA || i == lengthA - 1
        invariant i >= -1
        invariant a.Value() - Low(s, a.exponent, i + 1) == b.Value() - Low(t, b.exponent, i + 1)
      {
        var bigitA, bigitB := a.BigitAt(i), b.BigitAt(i);
        HigherDigitDecides(s, a.exponent, t, b.exponent, i);
        if bigitA < bigitB {
          return -1;
        }
        if bigitA > bigitB {
          return 1;
        }
        i := i - 1;
      }
      LowHidden(s, a.exponent, i + 1);
      LowHidden(t, b.exponent, i + 1);
      return 0;
    }

    static method Equal(a: Bignum, b: Bignum) returns (r: bool)
      requires a.Valid() && b.Valid()
      ensures r <==> a.Value() == b.Value()
    {
      var c := Compare(a, b);
      r := c == 0;
    }

    static method LessEqual(a: Bignum, b: Bignum) returns (r: bool)
      requires a.Valid() && b.Valid()
      ensures r <==> a.Value() <= b.Value()
    {
      var c := Compare(a, b);
      r := c <= 0;
    }

    static method Less(a: Bignum, b: Bignum) returns (r: bool)
      requires a.Valid() && b.Valid()
      ensures r <==> a.Value() < b.Value()
    {
      var c := Compare(a, b);
      r := c < 0;
    }

    /** Compares a + b with c without computing the sum. */
    static method PlusCompare(a: Bignum, b: Bignum, c: Bignum) returns (r: int)
      requires a.Valid() && b.Valid() && c.Valid()
      ensures r == Sign(a.Value() + b.Value() - c.Value())
      decreases a.BigitLength() < b.BigitLength()
    {
      hide Scale, Val, Weight, Low;
      if a.BigitLength() < b.BigitLength() {
        r := PlusCompare(b, a, c);
        return;
      }
      ghost var s: seq<Bigit>, t: seq<Bigit>, u: seq<Bigit> := a.bigits[..], b.bigits[..], c.bigits[..];
      SumLengths(s, a.exponent, a.used, t, b.exponent, b.used, u, c.exponent, c.used);
      if a.BigitLength() + 1 < c.BigitLength() {
        return -1;
      }
      if a.BigitLength() > c.BigitLength() {
        return 1;
      }
      if a.exponent >= b.BigitLength() && a.BigitLength() < c.BigitLength() {
        return -1;
      }
      r := PlusCompareDigits(a, b, c);
    }

    /** The digit loop of PlusCompare; `borrow` is what c has over a + b in the digits seen. */
    static method PlusCompareDigits(a: Bignum, b: Bignum, c: Bignum) returns (r: int)
      requires a.Valid() && b.Valid() && c.Valid()
      requires a.BigitLength() <= c.BigitLength() && b.BigitLength() <= c.BigitLength()
      ensures r == Sign(a.Value() + b.Value() - c.Value())
    {
      hide Scale, Val, Weight, Low;
      ghost var s: seq<Bigit>, t: seq<Bigit>, u: seq<Bigit> := a.bigits[..], b.bigits[..], c.bigits[..];
      var length := c.BigitLength();
      LowAll(s, a.exponent, a.used, length);
      LowAll(t, b.exponent, b.used, length);
      LowAll(u, c.exponent, c.used, length);
      ScaleZero(length);
      var borrow: uint32 := 0;
      var minExponent := Min(Min(a.exponent, b.exponent), c.exponent);
      var i := length - 1;
      while i >= minExponent
        invariant i >= -1 && (i >= minExponent - 1 || i == length - 1)
        invariant borrow == 0 || borrow == 0x1000_0000
        invariant c.Value() - a.Value() - b.Value()
          == Scale(borrow / 0x1000_0000, i + 1) + Low(u, c.exponent, i + 1) - Low(s, a.exponent, i + 1) - Low(t, b.exponent, i + 1)
      {
        var chunkA: uint32, chunkB: uint32, chunkC: uint32 := a.BigitAt(i), b.BigitAt(i), c.BigitAt(i);
        var sum: uint32 := chunkA + chunkB;
        PlusStep(s, a.exponent, t, b.exponent, u, c.exponent, i, borrow / 0x1000_0000);
        if sum > chunkC + borrow {
          return 1;
        }
        borrow := chunkC + borrow - sum;
        if borrow > 1 {
          return -1;
        }
        borrow := borrow * 0x1000_0000;
        i := i - 1;
      }
      LowHidden(s, a.exponent, i + 1);
      LowHidden(t, b.exponent, i + 1);
      LowHidden(u, c.exponent, i + 1);
      ScaleZero(i + 1);
      ScaleMono(0, 1, i + 1);
      if borrow == 0 {
        return 0;
      }
      return -1;
    }

    /** Leaves the remainder in this number and returns the quotient. The quotient must fit
        in 16 bits; nothing is assumed about the leading digits. */
    method DivideModuloIntBignum(other: Bignum) returns (result: uint16)
      requires Valid() && other.Valid() && other != this && other.bigits != bigits
      requires other.used > 0 && Value() < 0x1_0000 * other.Value()
      requires BigitLength() - Min(exponent, other.exponent) <= 128
      modifies this, bigits
      ensures Valid() && old(Value()) == result * other.Value() + Value()
      ensures Value() < other.Value()
      ensures BigitLength() <= old(BigitLength())
    {
      hide Scale, Val, Weight, EndsUpShorter;
      LongerIsLarger(other.bigits[..], other.exponent, other.used, bigits[..], exponent, used);
      if BigitLength() < other.BigitLength() {
        return 0;
      }
      Align(other);
      result := RemoveExcessLength(other, Value());
      var quotient: uint16;
      if other.used == 1 {
        quotient := DivideByOneBigit(other, Value(), result);
      } else {
        quotient := DivideSameLength(other, Value(), result);
      }
      Distribute(other.Value(), result, quotient);
      result := result + quotient;
    }

    /** Removes multiples of `other` until this number is no longer than it. It ends up shorter exactly under
        a condition on the two numbers, and then the divisor's highest digit is the largest there is; it is
        never empty. */
    method RemoveExcessLength(other: Bignum, ghost start: int) returns (result: uint16)
      requires Valid() && other.Valid() && other != this && other.bigits != bigits
      requires other.used > 0 && exponent <= other.exponent && BigitLength() >= other.BigitLength()
      requires start == Value() < 0x1_0000 * other.Value()
      modifies this, bigits
      ensures Valid() && start == result * other.Value() + Value()
      ensures used > 0 && exponent <= other.exponent && BigitLength() <= old(BigitLength())
      ensures BigitLength() == other.BigitLength() || AtDivisorLimit(other)
      ensures other.Value() > 0
      ensures BigitLength() < other.BigitLength() <==> EndsUpShorter(start, other.Value(), other.BigitLength())
    {
      hide Scale, Val, Weight, ExcessRemoved, EndsUpShorter;
      result := 0;
      ghost var d, m := other.Value(), other.BigitLength();
      other.LengthIs(m - 1);
      LengthIs(m - 1);
      LengthIs(m);
      StartOfExcess(start, d, m);
      while BigitLength() > other.BigitLength()
        invariant Valid() && start == result * other.Value() + Value()
        invariant used > 0 && exponent <= other.exponent && BigitLength() <= old(BigitLength())
        invariant BigitLength() >= other.BigitLength() || AtDivisorLimit(other)
        invariant ExcessRemoved(start, Value(), other.Value(), other.BigitLength())
        decreases Value()
      {
        result := RemoveTop(other, start, result);
      }
      LengthIs(m);
      LengthIs(m - 1);
      ShorterExactly(start, Value(), d, m, result);
    }

    /** One round of it: as many times the divisor as the highest digit says. */
    method RemoveTop(other: Bignum, ghost start: int, result: uint16) returns (rest: uint16)
      requires Valid() && other.Valid() && other != this && other.bigits != bigits
      requires used > 0 && other.used > 0 && exponent <= other.exponent && BigitLength() > other.BigitLength()
      requires start == result * other.Value() + Value() && start < 0x1_0000 * other.Value()
      requires ExcessRemoved(start, Value(), other.Value(), other.BigitLength())
      modifies this, bigits
      ensures Valid() && start == rest * other.Value() + Value() && 0 <= Value() < old(Value())
      ensures used > 0 && exponent <= other.exponent && BigitLength() <= old(BigitLength())
      ensures BigitLength() >= other.BigitLength() || AtDivisorLimit(other)
      ensures ExcessRemoved(start, Value(), other.Value(), other.BigitLength())
    {
      hide Scale, Val, Weight, ExcessRemoved, EndsUpShorter;
      var top: uint32 := bigits[used - 1];
      ExcessStep(bigits[..], exponent, used, other.bigits[..], other.exponent, other.used);
      QuotientFits(start, other.Value(), result, top, Value() - top * other.Value());
      rest := result + top;
      LengthIs(other.BigitLength());
      MoreExcess(start, Value(), Value() - top * other.Value(), other.Value(), other.BigitLength(), result);
      SubtractTimes(other, top);
      ShortIsSmall(bigits[..], exponent, used, other.BigitLength());
    }

    /** Shorter than a divisor of several digits that begins with the largest digit. */
    ghost predicate AtDivisorLimit(other: Bignum)
      reads this, bigits, other, other.bigits
      requires Shape() && other.Shape()
    {
      BigitLength() < other.BigitLength() && other.used > 1 && other.bigits[other.used - 1] == 0xFFF_FFFF
    }

    /** The shortcut for a divisor of one digit: only the highest digit of this number changes. */
    method DivideByOneBigit(other: Bignum, ghost start: int, ghost before: int) returns (quotient: uint16)
      requires Valid() && other.Valid() && other != this && other.bigits != bigits
      requires used > 0 && other.used == 1 && BigitLength() == other.BigitLength()
      requires start == Value() && 0 <= before
      requires before * other.Value() + Value() < 0x1_0000 * other.Value()
      modifies this, bigits
      ensures Valid() && start == quotient * other.Value() + Value() && Value() < other.Value()
      ensures before + quotient < 0x1_0000
      ensures BigitLength() <= old(BigitLength())
    {
      hide Scale, Val, Weight;
      var thisBigit: uint32 := bigits[used - 1];
      var otherBigit: uint32 := other.bigits[0];
      var q: uint32 := thisBigit / otherBigit;
      OneBigitStep(bigits[..], exponent, used, other.bigits[..], other.exponent, q);
      QuotientFits(before * other.Value() + start, other.Value(), before, q, start - q * other.Value());
      quotient := q;
      SetBigit(used - 1, thisBigit - otherBigit * q);
      Clamp();
    }

    /** Estimates the quotient from the highest digits, which is at most the true one, and corrects it. */
    method DivideSameLength(other: Bignum, ghost start: int, ghost before: int) returns (quotient: uint16)
      requires Valid() && other.Valid() && other != this && other.bigits != bigits
      requires used > 0 && other.used > 1 && exponent <= other.exponent
      requires BigitLength() == other.BigitLength() || AtDivisorLimit(other)
      requires start == Value() && 0 <= before
      requires before * other.Value() + Value() < 0x1_0000 * other.Value()
      modifies this, bigits
      ensures Valid() && start == quotient * other.Value() + Value() && Value() < other.Value()
      ensures before + quotient < 0x1_0000
      ensures BigitLength() <= old(BigitLength())
    {
      hide Scale, Val, Weight;
      var thisBigit: uint32 := bigits[used - 1];
      var otherBigit: uint32 := other.bigits[other.used - 1];
      var estimate: uint32 := thisBigit / (otherBigit + 1);
      EstimateBounds(thisBigit, otherBigit, estimate);
      EstimateStep(bigits[..], exponent, used, other.bigits[..], other.exponent, other.used, estimate);
      QuotientFits(before * other.Value() + start, other.Value(), before, estimate, start - estimate * other.Value());
      quotient := estimate;
      var product: uint32 := otherBigit * (estimate + 1);
      SubtractTimes(other, estimate);
      LeastValue(other.bigits[..], other.exponent, other.used);
      Distribute(other.Value(), estimate, 1);
      if product > thisBigit {
        return;
      }
      quotient := SubtractWhileLarger(other, start, before, estimate);
    }

    method SubtractWhileLarger(other: Bignum, ghost start: int, ghost before: int, estimate: uint16) returns (quotient: uint16)
      requires Valid() && other.Valid() && other != this && other.bigits != bigits
      requires other.Value() > 0 && (exponent <= other.exponent || used == 0)
      requires start == estimate * other.Value() + Value() && 0 <= before
      requires before * other.Value() + start < 0x1_0000 * other.Value()
      modifies this, bigits
      ensures Valid() && start == quotient * other.Value() + Value() && Value() < other.Value()
      ensures before + quotient < 0x1_0000
      ensures BigitLength() <= old(BigitLength())
    {
      quotient := estimate;
      QuotientFits(before * other.Value() + start, other.Value(), before, quotient, Value());
      var fits := LessEqual(other, this);
      while fits
        invariant Valid() && start == quotient * other.Value() + Value()
        invariant exponent <= other.exponent || used == 0
        invariant fits <==> other.Value() <= Value()
        invariant before + quotient < 0x1_0000
        invariant BigitLength() <= old(BigitLength())
        decreases Value()
      {
        Distribute(other.Value(), quotient, 1);
        QuotientFits(before * other.Value() + start, other.Value(), before, quotient + 1, Value() - other.Value());
        SubtractBignum(other);
        quotient := quotient + 1;
        fits := LessEqual(other, this);
      }
    }

    // ----- multiplication -----

    /** Stores what the last column carried out and sets the length. */
    method StoreCarry(carryIn: uint64, ghost total: int)
      requires Shape() && (used == 0 ==> exponent == 0)
      requires Val(bigits[..], exponent) + Scale(carryIn, exponent + used) == total < Weight(exponent + 128)
      requires used > 0 ==> total >= Weight(exponent + used - 1)
      modifies this`used, bigits
      ensures Valid() && Value() == total
    {
      hide Scale, Val, Weight;
      var carry: uint64 := carryIn;
      while carry != 0
        invariant old(used) <= used <= 128 && ZeroFrom(bigits[..], used)
        invariant used > old(used) ==> carry != 0 || bigits[used - 1] != 0
        invariant Val(bigits[..], exponent) + Scale(carry, exponent + used) == total
      {
        ValBounds(bigits[..], exponent);
        ScaleMono(1, carry, exponent + used);
        ScaleZero(exponent + used);
        CarryStep(carry, carry % 0x1000_0000, carry / 0x1000_0000, exponent + used);
        SetBigit(used, carry % 0x1000_0000);
        used := used + 1;
        carry := carry / 0x1000_0000;
      }
      ScaleZero(exponent + used);
      if used == old(used) {
        TopNonzero(bigits[..], exponent, used);
      }
    }

    /** Shifts the stored digits by less than one digit. The shift of a digit wraps around
        in 32 bits; the mask keeps only bits the wrap does not touch. */
    method BigitsShiftLeft(shift: nat)
      requires Valid() && shift < 28 && used < 128
      modifies this`used, bigits
      ensures Valid() && Value() == Pow(2, shift) * old(Value()) && used <= old(used) + 1
    {
      hide Scale, Val, Weight, Pow;
      ghost var s: seq<Bigit>, v := bigits[..], Value();
      ghost var p, q := Pow(2, shift), Pow(2, 28 - shift);
      var carry: uint32 := 0;
      ScaleZero(exponent);
      ValNone(s, exponent);
      for i := 0 to used
        modifies bigits
        invariant 0 <= carry < p
        invariant forall j :: i <= j < 128 ==> bigits[j] == s[j]
        invariant Val(bigits[..], exponent) + Scale(carry, exponent + i) == v - Val(s[..i], exponent) + p * Val(s[..i], exponent)
      {
        ShiftColumn(bigits[i], carry, shift);
        var newCarry: uint32 := bigits[i] / Pow(2, 28 - shift);
        var shifted: uint32 := Wrap32(bigits[i] * Pow(2, shift));
        var digit: Bigit := Wrap32(shifted + carry) % 0x1000_0000;
        MulColumn(p, s[i], carry, digit, newCarry, exponent + i);
        ValPush(s, exponent, i);
        Distribute(p, Val(s[..i], exponent), Scale(s[i], exponent + i));
        SetBigit(i, digit);
        carry := newCarry;
      }
      ValZeroTop(s, exponent, used);
      GrownTop(v, p, s, exponent, used);
      if carry != 0 {
        CarryFitsBigit(carry, shift);
        ScaleZero(exponent + used);
        SetBigit(used, carry);
        used := used + 1;
      } else {
        ScaleZero(exponent + used);
        TopNonzero(bigits[..], exponent, used);
      }
    }

    /** Whole digits go into the hidden exponent, so a shift stores at most one digit more. */
    method ShiftLeft(shift: nat)
      requires Valid() && used < 128
      modifies this, bigits
      ensures Valid() && Value() == Pow(2, shift) * old(Value()) && used <= old(used) + 1
      ensures used > 0 ==> exponent == old(exponent) + shift / 28
    {
      hide Scale, Val, Weight, Pow;
      if used == 0 {
        ValZeros(bigits[..], exponent);
        return;
      }
      RaiseExponent(bigits[..], exponent, shift / 28);
      ghost var v := Value();
      exponent := exponent + shift / 28;
      BigitsShiftLeft(shift % 28);
      PowAdd(2, shift % 28, 28 * (shift / 28));
      MulAssoc(Pow(2, shift % 28), Pow(2, 28 * (shift / 28)), v);
    }

    method MultiplyByUInt32(factor: uint32)
      requires Valid() && factor * Value() < Weight(exponent + 128)
      modifies this, bigits
      ensures Valid() && Value() == factor * old(Value())
      ensures factor > 0 ==> exponent == old(exponent)
    {
      hide Scale, Val, Weight;
      if factor == 1 {
        return;
      }
      if factor == 0 {
        Zero();
        return;
      }
      if used == 0 {
        ValZeros(bigits[..], exponent);
        return;
      }
      ghost var s: seq<Bigit>, v := bigits[..], Value();
      var carry: uint64 := 0;
      ScaleZero(exponent);
      ValNone(s, exponent);
      for i := 0 to used
        modifies bigits
        invariant 0 <= carry <= factor
        invariant forall j :: i <= j < 128 ==> bigits[j] == s[j]
        invariant Val(bigits[..], exponent) + Scale(carry, exponent + i)
          == v - Val(s[..i], exponent) + factor * Val(s[..i], exponent)
      {
        ProductBound(factor, s[i], carry);
        var product: uint64 := factor * bigits[i] + carry;
        MulColumn(factor, s[i], carry, product % 0x1000_0000, product / 0x1000_0000, exponent + i);
        ValPush(s, exponent, i);
        Distribute(factor, Val(s[..i], exponent), Scale(s[i], exponent + i));
        SetBigit(i, product % 0x1000_0000);
        carry := product / 0x1000_0000;
      }
      ValZeroTop(s, exponent, used);
      GrownTop(v, factor, s, exponent, used);
      StoreCarry(carry, factor * v);
    }

    method Times10()
      requires Valid() && 10 * Value() < Weight(exponent + 128)
      modifies this, bigits
      ensures Valid() && Value() == 10 * old(Value()) && exponent == old(exponent)
    {
      MultiplyByUInt32(10);
    }

    /** As above with a 64-bit factor, whose halves are multiplied separately. */
    method MultiplyByUInt64(factor: uint64)
      requires Valid() && factor * Value() < Weight(exponent + 128)
      modifies this, bigits
      ensures Valid() && Value() == factor * old(Value())
      ensures factor > 0 ==> exponent == old(exponent)
    {
      hide Scale, Val, Weight;
      if factor == 1 {
        return;
      }
      if factor == 0 {
        Zero();
        return;
      }
      ghost var s: seq<Bigit>, v := bigits[..], Value();
      var carry: uint64 := 0;
      var low: uint64 := factor % 0x1_0000_0000;
      var high: uint64 := factor / 0x1_0000_0000;
      ScaleZero(exponent);
      ValNone(s, exponent);
      for i := 0 to used
        modifies bigits
        invariant 0 <= carry <= factor
        invariant forall j :: i <= j < 128 ==> bigits[j] == s[j]
        invariant Val(bigits[..], exponent) + Scale(carry, exponent + i)
          == v - Val(s[..i], exponent) + factor * Val(s[..i], exponent)
      {
        var digit, carry' := MultiplyDigit(factor, low, high, bigits[i], carry);
        MulColumn(factor, s[i], carry, digit, carry', exponent + i);
        ValPush(s, exponent, i);
        Distribute(factor, Val(s[..i], exponent), Scale(s[i], exponent + i));
        SetBigit(i, digit);
        carry := carry';
      }
      ValZeroTop(s, exponent, used);
      GrownTop(v, factor, s, exponent, used);
      StoreCarry(carry, factor * v);
    }

    /** One column of the product, in 64-bit words. */
    static method MultiplyDigit(factor: uint64, low: uint64, high: uint64, d: Bigit, carryIn: uint64) returns (digit: Bigit, carry: uint64)
      requires carryIn <= factor && low == factor % 0x1_0000_0000 && high == factor / 0x1_0000_0000
      ensures factor * d + carryIn == digit + 0x1000_0000 * carry && carry <= factor
    {
      SplitColumn(factor, d, carryIn);
      var productLow: uint64 := low * d;
      var productHigh: uint64 := high * d;
      var tmp: uint64 := carryIn % 0x1000_0000 + productLow;
      digit := tmp % 0x1000_0000;
      carry := carryIn / 0x1000_0000 + tmp / 0x1000_0000 + productHigh * 0x10;
    }

    // ----- squaring and powers -----

    /** Comba squaring in place: the digits are first copied up, then each column overwrites a
        place that no later column reads. */
    method Square()
      requires Valid() && 2 * used <= 128
      modifies this, bigits
      ensures Valid() && Value() == old(Value()) * old(Value())
      ensures exponent == 2 * old(exponent) || used == 0
    {
      hide Scale, Val, Weight, Columns;
      ghost var s: seq<Bigit> := bigits[..used];
      ValZeroTop(bigits[..], exponent, used);
      assert bigits[..][..used] == s;
      var productLength := 2 * used;
      for i := 0 to used
        modifies bigits
        invariant forall j :: 0 <= j < i ==> bigits[used + j] == s[j]
        invariant forall j :: 0 <= j < used ==> bigits[j] == s[j]
        invariant ZeroFrom(bigits[..], productLength)
      {
        bigits[used + i] := bigits[i];
      }
      SquareColumns(s);
      used := productLength;
      ValZeroTop(bigits[..], 0, used);
      SquareOffset(s, bigits[..], exponent);
      exponent := exponent * 2;
      Clamp();
    }

    method SquareColumns(ghost s: seq<Bigit>)
      requires bigits.Length == 128 && |s| == used && 2 * used <= 128
      requires forall j :: 0 <= j < used ==> bigits[used + j] == s[j]
      requires ZeroFrom(bigits[..], 2 * used)
      modifies bigits
      ensures Val(bigits[..2 * used], 0) == Val(s, 0) * Val(s, 0)
      ensures ZeroFrom(bigits[..], 2 * used)
    {
      hide Scale, Val, Weight, Columns;
      var accumulator: uint64 := LowColumns(s);
      for i := used to 2 * used
        modifies bigits
        invariant accumulator < 0x10_0000_0000
        invariant forall j :: 0 <= i - used <= j < used ==> bigits[used + j] == s[j]
        invariant ZeroFrom(bigits[..], 2 * used)
        invariant Val(bigits[..i], 0) + Scale(accumulator, i) == Columns(s, i, |s|)
      {
        accumulator := HighColumn(s, i, accumulator);
        accumulator := StoreColumn(s, i, accumulator);
      }
      ColumnsAreSquare(s);
      AccumulatorEmpty(s, bigits[..2 * used], accumulator);
      assert accumulator == 0;
    }

    method LowColumns(ghost s: seq<Bigit>) returns (accumulator: uint64)
      requires bigits.Length == 128 && |s| == used && 2 * used <= 128
      requires forall j :: 0 <= j < used ==> bigits[used + j] == s[j]
      requires ZeroFrom(bigits[..], 2 * used)
      modifies bigits
      ensures accumulator < 0x10_0000_0000
      ensures forall j :: 0 <= j < used ==> bigits[used + j] == s[j]
      ensures ZeroFrom(bigits[..], 2 * used)
      ensures Val(bigits[..used], 0) + Scale(accumulator, used) == Columns(s, used, |s|)
    {
      hide Scale, Val, Weight, Columns;
      accumulator := 0;
      NoColumns(s, bigits[..0]);
      for i := 0 to used
        invariant accumulator < 0x10_0000_0000
        invariant forall j :: 0 <= j < used ==> bigits[used + j] == s[j]
        invariant ZeroFrom(bigits[..], 2 * used)
        invariant Val(bigits[..i], 0) + Scale(accumulator, i) == Columns(s, i, |s|)
      {
        accumulator := LowColumn(s, i, accumulator);
        accumulator := StoreColumn(s, i, accumulator);
      }
    }

    /** Keeps the low 28 bits of the accumulator as digit i and shifts them out. */
    method StoreColumn(ghost s: seq<Bigit>, i: nat, total: uint64) returns (accumulator: uint64)
      requires bigits.Length == 128 && i < 2 * used <= 128 && |s| == used && total < 0x6000_0000_0000_0000
      requires Val(bigits[..i], 0) + Scale(total - Column(s, i, |s|), i) == Columns(s, i, |s|)
      modifies bigits
      ensures accumulator < 0x10_0000_0000
      ensures forall j :: 0 <= j < 128 && j != i ==> bigits[j] == old(bigits[j])
      ensures Val(bigits[..i + 1], 0) + Scale(accumulator, i + 1) == Columns(s, i + 1, |s|)
    {
      hide Scale, Val, Weight, Columns, Column;
      ghost var t := bigits[..i];
      NextColumn(s, t, i, total);
      bigits[i] := total % 0x1000_0000;
      accumulator := total / 0x1000_0000;
      assert bigits[..i + 1] == t + [total % 0x1000_0000];
    }

    /** Sums column i when it is below the length: every product from s[0] * s[i] on. */
    method LowColumn(ghost s: seq<Bigit>, i: nat, start: uint64) returns (accumulator: uint64)
      requires bigits.Length == 128 && |s| == used && 2 * used <= 128 && i < used
      requires forall j :: 0 <= j < used ==> bigits[used + j] == s[j]
      requires start < 0x10_0000_0000
      ensures accumulator == start + Column(s, i, |s|) < 0x6000_0000_0000_0000
    {
      hide Column;
      accumulator := start;
      NoRow(s, i);
      var index1, index2 := i, 0;
      while index1 >= 0
        invariant 0 <= index2 <= i + 1 && index1 + index2 == i
        invariant accumulator == start + Column(s, i, index2)
      {
        var chunk1: uint32 := bigits[used + index1];
        var chunk2: uint32 := bigits[used + index2];
        NextRow(s, i, index2);
        accumulator := accumulator + chunk1 * chunk2;
        index1 := index1 - 1;
        index2 := index2 + 1;
      }
      ColumnStops(s, i, i + 1, |s|);
    }

    /** Sums column i when it is at least the length; only digits above i - used are read. */
    method HighColumn(ghost s: seq<Bigit>, i: nat, start: uint64) returns (accumulator: uint64)
      requires bigits.Length == 128 && |s| == used && used <= i < 2 * used <= 128
      requires forall j :: 0 <= i - used < j < used ==> bigits[used + j] == s[j]
      requires start < 0x10_0000_0000
      ensures accumulator == start + Column(s, i, |s|) < 0x6000_0000_0000_0000
    {
      hide Column;
      accumulator := start;
      var index1 := used - 1;
      var index2 := i - index1;
      ColumnStarts(s, i, index2);
      while index2 < used
        invariant i - used + 1 <= index2 <= used && index1 + index2 == i
        invariant accumulator == start + Column(s, i, index2)
      {
        var chunk1: uint32 := bigits[used + index1];
        var chunk2: uint32 := bigits[used + index2];
        NextRow(s, i, index2);
        accumulator := accumulator + chunk1 * chunk2;
        index1 := index1 - 1;
        index2 := index2 + 1;
      }
    }

    /** base^power exactly: by 64-bit words first, then by big squarings, the twos of the base
        kept out until the end. */
    method AssignPowerUInt16(base: uint16, power: nat)
      requires Shape() && base != 0
      requires BitSize(OddPart(base)) * power / 28 + 2 <= 128
      modifies this, bigits
      ensures Valid() && Value() == Pow(base, power)
    {
      hide Scale, Val, Weight, Pow;
      if power == 0 {
        AssignUInt16(1);
        PowNone(base);
        return;
      }
      Zero();
      var shifts := 0;
      var odd: uint16 := base;
      PowNone(2);
      while odd % 2 == 0
        invariant Valid() && odd > 0 && shifts >= 0
        invariant odd * Pow(2, shifts) == base && OddPart(odd) == OddPart(base)
        decreases odd
      {
        PowNext(2, shifts);
        MulAssoc(odd / 2, 2, Pow(2, shifts));
        odd := odd / 2;
        shifts := shifts + 1;
      }
      var bitSize := 0;
      var rest := odd;
      while rest != 0
        invariant Valid() && 0 <= rest && bitSize + BitSize(rest) == BitSize(odd)
      {
        rest := rest / 2;
        bitSize := bitSize + 1;
      }
      PowerOfOdd(odd, bitSize, power);
      ShiftedPower(base, odd, shifts, power);
      MulMono(0, shifts, power);
      ShiftLeft(shifts * power);
    }

    method PowerOfOdd(base: uint16, bitSize: nat, power: nat)
      requires Valid() && base % 2 == 1 && bitSize == BitSize(base) && power > 0
      requires bitSize * power / 28 + 2 <= 128
      modifies this, bigits
      ensures Valid() && Value() == Pow(base, power) && used < 128
    {
      hide Scale, Val, Weight, Pow, Prefix, IsMask, BitSize;
      var mask := FirstMask(power);
      TwoTo16();
      BitSizeOfWord(base, 16);
      BitSizeBound(base);
      var value: uint64, delayed;
      value, delayed, mask := PowerInWord(base, bitSize, power, mask);
      AssignUInt64(value);
      PrefixLe(power, mask);
      PowerFits(base, bitSize, power, Prefix(power, mask));
      if delayed {
        MultiplyByUInt32(base);
      }
      SquareAndMultiply(base, bitSize, power, mask);
      PowerFits(base, bitSize, power, power);
      LengthFromValue(bigits[..], 0, used, 127);
    }

    /** The rest of the exponent's bits, by big squarings. */
    method SquareAndMultiply(base: uint16, ghost bitSize: nat, power: nat, start: nat)
      requires Valid() && exponent == 0 && 0 < base < Pow(2, bitSize)
      requires bitSize * power / 28 + 2 <= 128
      requires IsMask(start) && Value() == Pow(base, Prefix(power, start))
      modifies this, bigits
      ensures Valid() && exponent == 0 && Value() == Pow(base, power)
    {
      hide Scale, Val, Weight, Pow;
      var mask := start;
      while mask != 0
        invariant IsMask(mask) && Valid() && exponent == 0
        invariant Value() == Pow(base, Prefix(power, mask))
        decreases mask
      {
        PrefixStep(power, mask);
        PowDouble(base, Prefix(power, mask));
        SquareFits(bigits[..], used, base, bitSize, power, Prefix(power, mask));
        PowerFits(base, bitSize, power, Prefix(power, mask / 2));
        Square();
        if Bit(power, mask) != 0 {
          MultiplyByUInt32(base);
        }
        mask := mask / 2;
      }
    }

    /** The mask just below the leading bit of the exponent. */
    static method FirstMask(power: nat) returns (mask: nat)
      requires power > 0
      ensures IsMask(mask) && Prefix(power, mask) == 1
    {
      mask := 1;
      while power >= mask
        invariant IsMask(mask) && 1 <= mask <= 2 * power && mask / 2 <= power
        decreases 2 * power - mask
      {
        mask := 2 * mask;
      }
      if mask >= 4 {
        DivModUnique(power, mask / 2, 1, power - mask / 2);
        SecondBitSet(power, mask / 4);
      }
      mask := mask / 4;
    }

    // ----- decimal powers and strings -----

    /** Multiplies by five in steps that fit a word, then shifts for the twos. */
    method MultiplyByPowerOfTen(power: nat)
      requires Valid() && Pow(5, power) * Value() < Weight(exponent + 127)
      modifies this, bigits
      ensures Valid() && Value() == Pow(10, power) * old(Value())
      ensures used > 0 ==> exponent == old(exponent) + power / 28
    {
      hide Scale, Val, Weight, Pow;
      if power == 0 {
        PowNone(10);
        return;
      }
      if used == 0 {
        ValZeros(bigits[..], exponent);
        return;
      }
      ghost var v := Value();
      var remaining := MultiplyByBigFives(power);
      if remaining > 0 {
        NextFives(power - remaining, remaining, power, v);
        SmallFives(remaining);
        WeightMono(exponent + 127, exponent + 128);
        MultiplyByUInt32(FIVE_1_TO_12[remaining - 1]);
      }
      LengthFromValue(bigits[..], exponent, used, exponent + 127);
      PowTen(power);
      MulAssoc(Pow(5, power), Pow(2, power), v);
      ShiftLeft(power);
    }

    /** The steps by 5^27 and 5^13. */
    method MultiplyByBigFives(power: nat) returns (remaining: nat)
      requires Valid() && Pow(5, power) * Value() < Weight(exponent + 127)
      modifies this, bigits
      ensures remaining <= power && remaining < 13
      ensures Valid() && exponent == old(exponent) && Value() == Pow(5, power - remaining) * old(Value())
    {
      hide Scale, Val, Weight, Pow;
      ghost var v, e := Value(), exponent;
      WeightMono(exponent + 127, exponent + 128);
      PowNone(5);
      remaining := power;
      while remaining >= 27
        invariant 0 <= remaining <= power && Valid() && exponent == e
        invariant Value() == Pow(5, power - remaining) * v
      {
        NextFives(power - remaining, 27, power, v);
        FiveTo27();
        MultiplyByUInt64(0x6765_c793_fa10_079d);
        remaining := remaining - 27;
      }
      while remaining >= 13
        invariant 0 <= remaining <= power && remaining < 27 && Valid() && exponent == e
        invariant Value() == Pow(5, power - remaining) * v
      {
        NextFives(power - remaining, 13, power, v);
        FiveTo13();
        MultiplyByUInt32(1220703125);
        remaining := remaining - 13;
      }
    }

    /** The value of a digit string, read in words of 19 digits. */
    method AssignDecimalString(value: seq<char>)
      requires Shape() && AreDigits(value) && DecimalValue(value) < Weight(127)
      modifies this, bigits
      ensures Valid() && Value() == DecimalValue(value) && exponent == 0
    {
      hide Scale, Val, Weight, Pow, DecimalValue;
      Zero();
      var length := |value|;
      var pos := 0;
      DecimalNone(value[..0]);
      while length >= 19
        invariant 0 <= pos && length == |value| - pos >= 0
        invariant Valid() && exponent == 0 && Value() == DecimalValue(value[..pos])
      {
        AppendDigits(value, pos, 19);
        pos := pos + 19;
        length := length - 19;
      }
      AppendDigits(value, pos, length);
      assert value[..pos + length] == value;
      Clamp();
    }

    /** Multiplies by the power of ten for the next digits and adds them. */
    method AppendDigits(value: seq<char>, pos: nat, count: nat)
      requires AreDigits(value) && DecimalValue(value) < Weight(127)
      requires pos + count <= |value| && count <= 19
      requires Valid() && exponent == 0 && Value() == DecimalValue(value[..pos])
      modifies this, bigits
      ensures Valid() && exponent == 0 && Value() == DecimalValue(value[..pos + count])
    {
      hide Scale, Val, Weight, Pow, DecimalValue;
      var digits := ReadUInt64(value, pos, count);
      AppendFits(value, pos, count);
      MultiplyByPowerOfTen(count);
      LengthFromValue(bigits[..], 0, used, 127);
      AddUInt64(digits);
    }

    static method ReadUInt64(buffer: seq<char>, from: nat, digitsToRead: nat) returns (result: uint64)
      requires AreDigits(buffer) && from + digitsToRead <= |buffer| && digitsToRead <= 19
      ensures result == DecimalValue(buffer[from..from + digitsToRead])
    {
      hide DecimalValue, Pow;
      result := 0;
      DecimalNone(buffer[from..from]);
      for i := from to from + digitsToRead
        invariant result == DecimalValue(buffer[from..i])
      {
        assert buffer[from..i + 1][..i - from] == buffer[from..i];
        DecimalPush(buffer[from..i + 1], i - from);
        assert buffer[from..i + 1][..i + 1 - from] == buffer[from..i + 1];
        WordOfDigits(buffer[from..i + 1]);
        result := result * 10 + Digit(buffer[i]);
      }
    }

    /** A bound on the value is a bound on the length. */
    lemma LengthIs(length: nat)
      requires Valid()
      ensures BigitLength() <= length <==> Value() < Weight(length)
    {
      hide Scale, Val, Weight;
      if BigitLength() <= length {
        MostValue(bigits[..], exponent, used, length);
      } else {
        LeastValue(bigits[..], exponent, used);
        WeightMono(length, BigitLength() - 1);
      }
    }

    lemma NonzeroUsed()
      requires Valid() && Value() > 0
      ensures used > 0
    {
      ShortIsSmall(bigits[..], exponent, used, 1);
    }
  }
}
