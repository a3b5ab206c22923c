// Decimal digits of a ratio n / d between two boundaries, in integers: a number y standing for
// y / scale is compared with n / d by multiplying out.
module DigitRatios {
  import opened Powers
  import opened Decimals

  /** The ratio n / d with its boundaries (n - below) / d and (n + above) / d, which belong to
      the interval exactly when the significand is even. */
  datatype Ratio = Ratio(n: nat, d: nat, below: nat, above: nat, even: bool) {
    ghost predicate Valid() { d > 0 && 0 < below < n && 0 < above }

    /** y / scale lies in the interval. */
    ghost predicate Inside(y: int, scale: int) {
      if even then (n - below) * scale <= y * d <= (n + above) * scale
      else (n - below) * scale < y * d < (n + above) * scale
    }

    function Distance(y: int, scale: int): (r: int)
      ensures r >= 0
    {
      if y * d <= n * scale then n * scale - y * d else y * d - n * scale
    }

    /** The whole ratio, upper boundary included, is below ten. */
    ghost predicate BelowTen(rest: int, top: int) {
      if even then rest + top < 10 * d else rest + top <= 10 * d
    }

    /** The upper boundary reaches one, so the first digit is not zero. */
    ghost predicate ReachesOne() {
      if even then n + above >= d else n + above > d
    }
  }

  /** The remainder alone tells whether the digits so far, or one more in the last place, lie inside. */
  function RoomBelow(q: Ratio, rest: int, scale: int): bool {
    if q.even then rest <= q.below * scale else rest < q.below * scale
  }

  function RoomAbove(q: Ratio, rest: int, scale: int): bool {
    if q.even then rest + q.above * scale >= q.d else rest + q.above * scale > q.d
  }

  lemma RoomIsInside(q: Ratio, scale: int, digits: int, rest: int)
    requires q.Valid() && scale > 0 && q.n * scale == digits * q.d + rest && 0 <= rest < q.d
    ensures RoomBelow(q, rest, scale) <==> q.Inside(digits, scale)
    ensures RoomAbove(q, rest, scale) <==> q.Inside(digits + 1, scale)
  {
    Spread(q, scale);
    Distribute(q.d, digits, 1);
  }

  lemma Spread(q: Ratio, scale: int)
    requires q.Valid() && scale > 0
    ensures (q.n - q.below) * scale == q.n * scale - q.below * scale
    ensures (q.n + q.above) * scale == q.n * scale + q.above * scale
    ensures q.below * scale > 0 && q.above * scale > 0
  {
    MulStrict(0, q.below, scale);
    MulStrict(0, q.above, scale);
  }

  /** The digits so far and their successor are the candidates: if one side holds anything,
      it holds the nearer of the two. */
  lemma OnlyNeighbours(q: Ratio, scale: int, digits: int, rest: int, y: int)
    requires q.Valid() && scale > 0 && q.n * scale == digits * q.d + rest && 0 <= rest < q.d
    requires q.Inside(y, scale)
    ensures y <= digits ==> q.Inside(digits, scale) && rest <= q.Distance(y, scale)
    ensures y > digits ==> q.Inside(digits + 1, scale) && q.d - rest <= q.Distance(y, scale)
    ensures q.Distance(digits, scale) == rest && q.Distance(digits + 1, scale) == q.d - rest
  {
    Spread(q, scale);
    Distribute(q.d, digits, 1);
    if y <= digits {
      MulMono(y, digits, q.d);
    } else {
      MulMono(digits + 1, y, q.d);
    }
  }

  /** Nothing lies inside at this scale. */
  ghost predicate NoneInside(q: Ratio, scale: int) {
    forall y: int :: !q.Inside(y, scale)
  }

  lemma NoRoomNoneInside(q: Ratio, scale: int, digits: int, rest: int)
    requires q.Valid() && scale > 0 && q.n * scale == digits * q.d + rest && 0 <= rest < q.d
    requires !RoomBelow(q, rest, scale) && !RoomAbove(q, rest, scale)
    ensures NoneInside(q, scale)
  {
    RoomIsInside(q, scale, digits, rest);
    forall y: int
      ensures !q.Inside(y, scale)
    {
      if q.Inside(y, scale) {
        OnlyNeighbours(q, scale, digits, rest, y);
      }
    }
  }

  /** x is inside at this scale, nothing inside is closer to the ratio, and x is even if something else
      is as close. */
  ghost predicate ClosestInside(q: Ratio, scale: int, x: int) {
    && q.Inside(x, scale)
    && (forall y: int :: q.Inside(y, scale) ==> q.Distance(x, scale) <= q.Distance(y, scale))
    && (forall y: int :: q.Inside(y, scale) && y != x && q.Distance(x, scale) == q.Distance(y, scale) ==> x % 2 == 0)
  }

  /** The digits found are as the interval demands. */
  ghost predicate ShortestResult(q: Ratio, s: seq<char>) {
    && s != [] && AreDigits(s) && s[0] != '0'
    && ClosestInside(q, Pow(10, |s| - 1), DecimalValue(s))
    && (|s| >= 2 ==> NoneInside(q, Pow(10, |s| - 2)))
  }

  /** The choice made at the end: down if only that is inside, up if only that is, else the nearer,
      and the even one of two that are equally near. */
  lemma ChoiceIsClosest(q: Ratio, scale: int, digits: int, rest: int, up: bool)
    requires q.Valid() && scale > 0 && q.n * scale == digits * q.d + rest && 0 <= rest < q.d
    requires RoomBelow(q, rest, scale) || RoomAbove(q, rest, scale)
    requires up ==> RoomAbove(q, rest, scale) && (RoomBelow(q, rest, scale) ==> 2 * rest >= q.d)
    requires !up ==> RoomBelow(q, rest, scale) && (RoomAbove(q, rest, scale) ==> 2 * rest <= q.d)
    requires RoomBelow(q, rest, scale) && RoomAbove(q, rest, scale) && 2 * rest == q.d ==> (up <==> digits % 2 != 0)
    ensures ClosestInside(q, scale, if up then digits + 1 else digits)
  {
    RoomIsInside(q, scale, digits, rest);
    var x := if up then digits + 1 else digits;
    OnlyNeighbours(q, scale, digits, rest, x);
    forall y: int | q.Inside(y, scale)
      ensures q.Distance(x, scale) <= q.Distance(y, scale)
      ensures y != x && q.Distance(x, scale) == q.Distance(y, scale) ==> x % 2 == 0
    {
      OnlyNeighbours(q, scale, digits, rest, y);
      if y < digits || y > digits + 1 {
        BeyondNeighbours(q, scale, digits, rest, y);
      }
    }
  }

  /** What lies beyond the neighbours is farther by a whole step. */
  lemma BeyondNeighbours(q: Ratio, scale: int, digits: int, rest: int, y: int)
    requires q.d > 0 && q.n * scale == digits * q.d + rest && 0 <= rest < q.d
    ensures y < digits ==> q.Distance(y, scale) >= rest + q.d
    ensures y > digits + 1 ==> q.Distance(y, scale) >= 2 * q.d - rest
  {
    if y < digits {
      MulMono(y + 1, digits, q.d);
      Distribute(q.d, y, 1);
    } else if y > digits + 1 {
      MulMono(digits + 2, y, q.d);
      Distribute(q.d, digits, 2);
    }
  }

  /** What generating one digit does to the running equation. */
  lemma DigitStep(n: int, d: int, scale: int, digits: int, num: int, digit: int, rest: int)
    requires n * scale == 10 * digits * d + num && num == digit * d + rest
    ensures n * scale == (10 * digits + digit) * d + rest
    ensures n * (10 * scale) == 10 * (10 * digits + digit) * d + 10 * rest
  {
    Distribute(d, 10 * digits, digit);
  }

  lemma DigitAtMostNine(num: int, d: int, digit: int, rest: int)
    requires 0 < d && 0 <= digit && 0 <= rest && num == digit * d + rest && num < 10 * d
    ensures digit <= 9
  {
    if digit >= 10 {
      MulMono(10, digit, d);
    }
  }

  /** n / d rounded to the nearest integer, halves up. */
  function HalfUp(n: nat, d: nat): nat
    requires d > 0
  {
    (2 * n + d) / (2 * d)
  }

  lemma HalfUpOfDigits(n: nat, d: nat, digits: nat, rest: nat)
    requires 0 < d && n == digits * d + rest && rest < d
    ensures HalfUp(n, d) == if 2 * rest >= d then digits + 1 else digits
  {
    MulAssoc(2, d, digits);
    if 2 * rest >= d {
      Distribute(2 * d, digits, 1);
      DivModUnique(2 * n + d, 2 * d, digits + 1, 2 * rest - d);
    } else {
      DivModUnique(2 * n + d, 2 * d, digits, 2 * rest + d);
    }
  }
}
