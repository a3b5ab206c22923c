// DoubleToAscii: a fast path that may give up, backed by the exact one (double-conversion.cc). What
// it promises does not depend on which of the two answered.
module AsciiDoubles {
  import opened MachineInts
  import opened Powers
  import opened RealPowers
  import opened Decimals
  import opened DecimalRounding
  import opened GrisuRounding
  import opened CachedPowers
  import opened DtoaBounds
  import opened DtoaModes
  import opened FastDtoas
  import opened FixedDtoas
  import opened Ieee
  import opened SingleDigits

  /** FastDtoa in its shortest and precision modes; the digits end in '\0' if it succeeds. */
  method FastDtoa(d: uint64, mode: Mode, requestedDigits: nat, buffer: array<char>, table: seq<CachedPower>, ceilLog: int)
    returns (ok: bool, length: nat, decimalPoint: int, ghost magnitude: int)
    requires 0 < d < INFINITY && !mode.Fixed? && IsPowerTable(table) && IsCeilLog(-61 - NormalizedExponent(d), ceilLog)
    requires mode.Shortest? ==> buffer.Length >= 18
    requires mode.Precision? ==> 1 <= requestedDigits < buffer.Length
    modifies buffer
    ensures ok ==> length < buffer.Length && buffer[length] == '\0'
    ensures ok && mode.Shortest? ==> (ShortestDigits(buffer[..length], decimalPoint, d)
      && OnlyClosest(buffer[..length], decimalPoint, Value(d), ReadsBack(d)))
    ensures ok && mode.Precision? ==> CountedDigits(buffer[..length], decimalPoint, Value(d), requestedDigits, magnitude)
  {
    hide IsPowerTable, IsCeilLog, ShortestDigits, OnlyClosest, CountedDigits, Value, NormalizedExponent, ReadsBack;
    var decimalExponent;
    magnitude, decimalPoint := 0, 0;
    if mode.Shortest? {
      ok, length, decimalExponent := Grisu3(d, buffer, table, ceilLog);
    } else {
      ok, length, decimalExponent, magnitude := Grisu3Counted(d, requestedDigits, buffer, table, ceilLog);
    }
    if ok {
      ghost var s := buffer[..length];
      decimalPoint := length + decimalExponent;
      buffer[length] := '\0';
      assert buffer[..length] == s;
    }
  }

  /** The two contracts about floating-point logarithms in the source. */
  ghost predicate Logarithms(d: int, ceilLog: int, estimate: int) {
    0 < d < INFINITY ==> IsCeilLog(-61 - NormalizedExponent(d), ceilLog) && EstimateContract(d, estimate)
  }

  function WithoutSign(v: uint64): (d: uint64) { v % 0x8000_0000_0000_0000 }

  /** Digits and decimal point of a finite double, with its sign apart. Zero is the digit 0; no
      digits are produced if a precision of none is asked for. */
  method DoubleToAscii(v: uint64, mode: Mode, requestedDigits: nat, buffer: array<char>, table: seq<CachedPower>,
      ceilLog: int, estimate: int) returns (sign: bool, length: nat, point: int, ghost magnitude: int)
    requires WithoutSign(v) < INFINITY && IsPowerTable(table) && Logarithms(WithoutSign(v), ceilLog, estimate)
    requires buffer.Length >= 2
    requires mode.Shortest? ==> buffer.Length >= 18
    requires mode.Precision? ==> requestedDigits < buffer.Length
    requires mode.Fixed? ==> buffer.Length >= 46 && (WithoutSign(v) > 0 ==> estimate + 1 + requestedDigits < buffer.Length)
    modifies buffer
    ensures sign <==> Sign(v) < 0
    ensures length < buffer.Length && buffer[length] == '\0'
    ensures var d, s := WithoutSign(v), buffer[..length];
      if mode.Precision? && requestedDigits == 0 then s == []
      else if d == 0 then s == ['0'] && point == 1
      else match mode
        case Shortest => ShortestDigits(s, point, d)
        case Fixed => FixedDigits(s, point, Value(d), requestedDigits)
        case Precision => CountedDigits(s, point, Value(d), requestedDigits, magnitude)
  {
    hide IsPowerTable, IsCeilLog, ShortestDigits, OnlyClosest, CountedDigits, FixedDigits, Value, EstimateContract,
      NormalizedExponent, Exponent;
    sign := Sign(v) < 0;
    var d: uint64 := if sign then v - 0x8000_0000_0000_0000 else v;
    length, point, magnitude := 0, 0, 0;
    if mode.Precision? && requestedDigits == 0 {
      buffer[0] := '\0';
      return;
    }
    if d == 0 {
      buffer[0] := '0';
      buffer[1] := '\0';
      length, point := 1, 1;
      return;
    }
    var fastWorked;
    if mode.Fixed? {
      fastWorked, length, point := FastFixedDtoa(d, requestedDigits, buffer);
    } else {
      fastWorked, length, point, magnitude := FastDtoa(d, mode, requestedDigits, buffer, table, ceilLog);
    }
    if fastWorked {
      return;
    }
    length, point, magnitude := BignumDtoa(d, mode, requestedDigits, estimate, buffer);
  }

  // ----- the two paths agree -----

  /** Two shortest results never have different decimal points: the power of ten between them would be
      inside as well, so they would have a single digit, and the lower one would not be the closest. */
  lemma SamePoint(s: seq<char>, p: int, t: seq<char>, q: int, d: int)
    requires 0 < d < INFINITY && ShortestDigits(s, p, d) && ShortestDigits(t, q, d) && |s| == |t|
    ensures p >= q
  {
    hide Pow, Ten, Midpoint, Value, DecimalValue, DecimalAt, IsClosest;
    if p < q {
      PowerBetween(s, p, t, q, d);
      var x := DecimalValue(s);
      LeadingDigit(s);
      PowNone(10);
      PowNext(10, 0);
      TenIsPower(p);
      ClosestIsClose(s, p, 10, Value(d), ReadsBack(d));
      PowerIsCloser(d, x, p);
      assert false;
    }
  }

  /** The power of ten between two shortest results reads back too, which takes a single digit. */
  lemma PowerBetween(s: seq<char>, p: int, t: seq<char>, q: int, d: int)
    requires 0 < d < INFINITY && ShortestDigits(s, p, d) && ShortestDigits(t, q, d) && |s| == |t| && p < q
    ensures |s| == 1 && ReadsBack(d).Has(Ten(p)) && Ten(p) <= Midpoint(d)
  {
    hide Pow, Ten, Midpoint, Value, DecimalValue, DecimalAt, IsClosest;
    var n := |s|;
    LeadingDigit(s);
    LeadingDigit(t);
    DecimalAtPower(n, p - n);
    DecimalAtMono(DecimalValue(s), Pow(10, n), p - n);
    DecimalAtPower(n - 1, q - n);
    DecimalAtMono(Pow(10, n - 1), DecimalValue(t), q - n);
    TenMono(p, q - 1);
    PowerInside(s, p, d, p);
  }

  /** A power of ten that reads back has one digit, so the shortest digits are one as well. */
  lemma PowerInside(s: seq<char>, p: int, d: int, m: int)
    requires 0 < d < INFINITY && ShortestDigits(s, p, d) && ReadsBack(d).Has(Ten(m))
    ensures |s| == 1 && Pow(10, |s|) == 10 && DecimalAt(1, m) == Ten(m)
  {
    hide Pow, Ten, Value, Midpoint, DecimalValue, DecimalAt, ReadsBack, Interval.Has, IsClosest;
    DecimalAtPower(0, m);
    PowNone(10);
    PowNext(10, 0);
    var one, length: nat := 1, 1;
    assert 0 < one < Pow(10, length) && ReadsBack(d).Has(DecimalAt(one, m));
  }

  lemma TenIsPower(p: int)
    ensures DecimalAt(10, p - 1) == Ten(p)
  {
    TenNext(p - 1);
  }

  lemma ClosestIsClose(s: seq<char>, p: int, y: int, v: real, range: Interval)
    requires IsClosest(s, p, v, range) && range.Has(DecimalAt(y, p - |s|))
    ensures Abs(DecimalAt(DecimalValue(s), p - |s|) - v) <= Abs(DecimalAt(y, p - |s|) - v)
  {
  }

  /** Shortest digits and their decimal point are unique: of two candidates at the same distance only one
      can be even. So the fast and the exact path always print the same. */
  lemma ShortestUnique(s: seq<char>, p: int, t: seq<char>, q: int, d: int)
    requires 0 < d < INFINITY && ShortestDigits(s, p, d) && ShortestDigits(t, q, d)
    ensures s == t && p == q
  {
    hide Pow, Ten, Midpoint, Value, DecimalValue, DecimalAt, ReadsBack, Interval.Has, IsClosest;
    SameLength(s, p, t, q, d);
    SameLength(t, q, s, p, d);
    SamePoint(s, p, t, q, d);
    SamePoint(t, q, s, p, d);
    if DecimalValue(s) < DecimalValue(t) {
      NoTwoClosest(s, t, p, Value(d), ReadsBack(d));
    } else if DecimalValue(t) < DecimalValue(s) {
      NoTwoClosest(t, s, p, Value(d), ReadsBack(d));
    }
    SameDigits(s, t);
  }

  /** Between two even candidates there would be a closer one. */
  lemma NoTwoClosest(s: seq<char>, t: seq<char>, p: int, v: real, range: Interval)
    requires |s| == |t| && IsClosest(s, p, v, range) && IsClosest(t, p, v, range)
    requires range.Has(Denoted(s, p)) && range.Has(Denoted(t, p))
    ensures DecimalValue(s) >= DecimalValue(t)
  {
    hide DecimalValue, DecimalAt, Interval.Has;
    var x, y, e := DecimalValue(s), DecimalValue(t), p - |s|;
    if x < y {
      DecimalAtMono(x, x + 1, e);
      DecimalAtMono(x + 1, y, e);
      HasBetween(range, DecimalAt(x, e), DecimalAt(x + 1, e), DecimalAt(y, e));
      Between(DecimalAt(x, e), DecimalAt(x + 1, e), DecimalAt(y, e), v);
    }
  }

  lemma HasBetween(range: Interval, x: real, z: real, y: real)
    requires range.Has(x) && range.Has(y) && x <= z <= y
    ensures range.Has(z)
  {
  }

  lemma Between(x: real, z: real, y: real, v: real)
    requires x < y && x <= z <= y && Abs(x - v) == Abs(y - v)
    ensures x < z < y ==> Abs(z - v) < Abs(x - v)
  {
  }

  lemma SameLength(s: seq<char>, p: int, t: seq<char>, q: int, d: int)
    requires 0 < d < INFINITY && ShortestDigits(s, p, d) && ShortestDigits(t, q, d)
    ensures |s| <= |t|
  {
    hide Pow, Ten, Midpoint, Value, DecimalAt, IsClosest, ReadsBack, Interval.Has, DecimalValue;
    LeadingDigit(t);
    var y, m, e := DecimalValue(t), |t|, q - |t|;
    assert 0 < y < Pow(10, m) && ReadsBack(d).Has(DecimalAt(y, e));
  }

  /** Nothing with as many digits that reads back is closer to the double, wherever its decimal point is. Only
      below a power of ten could finer decimals be in reach, and there the power itself is closer. */
  lemma ShortestIsClosest(s: seq<char>, p: int, d: int, y: int, e: int)
    requires 0 < d < INFINITY && ShortestDigits(s, p, d) && 0 < y < Pow(10, |s|) && ReadsBack(d).Has(DecimalAt(y, e))
    ensures Abs(Denoted(s, p) - Value(d)) <= Abs(DecimalAt(y, e) - Value(d))
  {
    hide Pow, Ten, Value, Midpoint, DecimalValue, DecimalAt, ReadsBack, Interval.Has, IsShortest;
    var place := p - |s|;
    if e >= place {
      var same := y * Pow(10, e - place);
      DecimalAtShift(y, place, e - place);
      assert ReadsBack(d).Has(DecimalAt(same, place));
    } else {
      FinerIsBelow(s, p, d, y, e);
      HasBetween(ReadsBack(d), DecimalAt(y, e), Ten(p - 1), Denoted(s, p));
      PowerInside(s, p, d, p - 1);
      ClosestIsClose(s, p, 1, Value(d), ReadsBack(d));
      PowerAboveFiner(d, p - 1, y, e);
    }
  }

  /** Digits at finer places do not reach the power of ten the shortest digits start from. */
  lemma FinerIsBelow(s: seq<char>, p: int, d: int, y: int, e: int)
    requires 0 < d < INFINITY && ShortestDigits(s, p, d) && 0 < y < Pow(10, |s|) && e < p - |s|
    ensures DecimalAt(y, e) < Ten(p - 1) <= Denoted(s, p)
  {
    hide Pow, Ten, Value, Midpoint, DecimalValue, DecimalAt, ReadsBack, Interval.Has, IsShortest, IsClosest;
    LeadingDigit(s);
    DecimalAtPower(|s| - 1, p - |s|);
    DecimalAtMono(Pow(10, |s| - 1), DecimalValue(s), p - |s|);
    DecimalAtPower(|s|, e);
    DecimalAtMono(y, Pow(10, |s|), e);
    TenMono(e + |s|, p - 1);
  }

  lemma PowerAboveFiner(d: int, m: int, y: int, e: int)
    requires 0 < d < INFINITY && ReadsBack(d).Has(Ten(m)) && y < 10 && e < m && DecimalAt(y, e) < Ten(m)
    ensures Abs(Ten(m) - Value(d)) <= Abs(DecimalAt(y, e) - Value(d))
  {
    hide Pow, Ten, Value, Midpoint, DecimalAt;
    PowerIsCloser(d, 9, m);
    NinesBelow(m, y, e);
    TenIsPower(m);
    DecimalAtMono(9, 10, m - 1);
  }

  /** A single digit below a power of ten is at most nine of the next lower power. */
  lemma NinesBelow(m: int, y: int, e: int)
    requires y < 10 && e < m
    ensures DecimalAt(y, e) <= DecimalAt(9, m - 1)
  {
    hide Ten;
    DecimalAtMono(y, 9, e);
    TenMono(e, m - 1);
  }

  /** The fast fixed path and the exact one denote the same number. */
  lemma FixedUnique(s: seq<char>, p: int, t: seq<char>, q: int, v: real, places: nat)
    requires FixedDigits(s, p, v, places) && FixedDigits(t, q, v, places)
    ensures Denoted(s, p) == Denoted(t, q)
  {
    hide Pow, Ten, DecimalValue, DecimalAt, RoundedHalfUp;
    var e := 0 - places;
    DecimalAtShift(DecimalValue(s), e, p - |s| + places);
    DecimalAtShift(DecimalValue(t), e, q - |t| + places);
    HalfUpUnique(v, DecimalValue(s) * Pow(10, p - |s| + places), DecimalValue(t) * Pow(10, q - |t| + places), e);
  }
}
