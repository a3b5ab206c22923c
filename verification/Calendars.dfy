// The Gregorian calendar arithmetic of offtime.cpp and s4time.cpp. A date is identified with the
// number of days since 1970-01-01; POSIX.1-2017, section 4.16, gives the seconds.
module Calendars {
  import opened MachineInts
  import opened Powers

  predicate IsLeap(y: int) { y % 4 == 0 && (y % 100 != 0 || y % 400 == 0) }

  function YearLength(y: int): int { if IsLeap(y) then 366 else 365 }

  /** The division and remainder of C. */
  function CDiv(a: int, b: int): int
    requires b > 0
  {
    if a >= 0 then a / b else -((-a) / b)
  }

  function CMod(a: int, b: int): int
    requires b > 0
  {
    a - CDiv(a, b) * b
  }

  lemma CDivIs(a: int, b: int)
    requires b > 0
    ensures a >= 0 ==> CDiv(a, b) == a / b && CMod(a, b) == a % b
    ensures a < 0 ==> CDiv(a, b) == (if a % b == 0 then a / b else a / b + 1) && CMod(a, b) == (if a % b == 0 then 0 else a % b - b)
  {
    if a < 0 {
      var q, r := a / b, a % b;
      assert a == b * q + r;
      if r == 0 {
        DivModUnique(-a, b, -q, 0);
      } else {
        Distribute(b, -q, -1);
        DivModUnique(-a, b, -q - 1, b - r);
      }
    }
  }

  // ----- years -----

  /** Leap years up to and including y, with rounding down. */
  function Leaps(y: int): int { y / 4 - y / 100 + y / 400 }

  /** Days from 1970-01-01 to the first day of the year. */
  function DaysBefore(y: int): int { (y - 1970) * 365 + Leaps(y - 1) - Leaps(1969) }

  /** The closed formula counts the years one by one. */
  lemma YearAfterYear(y: int)
    ensures Leaps(y) == Leaps(y - 1) + (if IsLeap(y) then 1 else 0)
    ensures DaysBefore(y + 1) == DaysBefore(y) + YearLength(y)
    ensures DaysBefore(1970) == 0
  {
    OneMore(y, 4);
    OneMore(y, 100);
    OneMore(y, 400);
  }

  lemma OneMore(y: int, n: int)
    requires n > 1
    ensures y / n == (y - 1) / n + (if y % n == 0 then 1 else 0)
  {
    var q, r := y / n, y % n;
    assert y == n * q + r;
    if r == 0 {
      Distribute(n, q, -1);
      DivModUnique(y - 1, n, q - 1, n - 1);
    } else {
      DivModUnique(y - 1, n, q, r - 1);
    }
  }

  /** Among n years in a row at most a quarter, rounded up, are leap years. */
  lemma {:induction false} LeapsBetween(y: int, n: nat)
    ensures 0 <= Leaps(y + n) - Leaps(y) <= (n + 3) / 4
    decreases n
  {
    hide Leaps;
    if n >= 4 {
      LeapsBetween(y + 4, n - 4);
      FourYears(y);
    } else if n > 0 {
      FourYears(y);
      YearAfterYear(y + 1);
      YearAfterYear(y + 2);
      YearAfterYear(y + 3);
    }
  }

  lemma FourYears(y: int)
    ensures 0 <= Leaps(y + 4) - Leaps(y) <= 1
    ensures Leaps(y) <= Leaps(y + 1) <= Leaps(y + 2) <= Leaps(y + 3) <= Leaps(y + 4)
  {
    hide Leaps, IsLeap;
    YearAfterYear(y + 1);
    YearAfterYear(y + 2);
    YearAfterYear(y + 3);
    YearAfterYear(y + 4);
    OneLeap(y + 1, y + 2, y + 3, y + 4);
  }

  lemma LeapByFour(y: int)
    requires IsLeap(y)
    ensures y % 4 == 0
  {
  }

  lemma OneLeap(a: int, b: int, c: int, d: int)
    requires b == a + 1 && c == b + 1 && d == c + 1
    ensures IsLeap(a) ==> !IsLeap(b) && !IsLeap(c) && !IsLeap(d)
    ensures IsLeap(b) ==> !IsLeap(c) && !IsLeap(d)
    ensures IsLeap(c) ==> !IsLeap(d)
  {
    hide IsLeap;
    forall y | IsLeap(y)
      ensures y % 4 == 0
    {
      LeapByFour(y);
    }
  }

  predicate DayOfYear(days: int, y: int) { 0 <= days < YearLength(y) }

  /** The guess of the next year, assuming 365 days a year. */
  function YearGuess(days: int, y: int): int { y + days / 365 }

  function DaysAfterGuess(days: int, y: int): int {
    var yg := YearGuess(days, y);
    days - ((yg - y) * 365 + Leaps(yg - 1) - Leaps(y - 1))
  }

  function Magnitude(x: int): nat { if x < 0 then -x else x }

  /** A guess keeps the date, and either hits the year or leaves a smaller number of days. The number
      shrinks unless the days reach back by no more than half of the year before: then that year is hit,
      at a day with a number as large or larger. */
  lemma GuessConverges(days: int, y: int)
    requires !DayOfYear(days, y)
    ensures DaysAfterGuess(days, y) + DaysBefore(YearGuess(days, y)) == days + DaysBefore(y)
    ensures DayOfYear(DaysAfterGuess(days, y), YearGuess(days, y)) || Magnitude(DaysAfterGuess(days, y)) < Magnitude(days)
    ensures Magnitude(DaysAfterGuess(days, y)) < Magnitude(days) <==> !(days < 0 && 2 * days + YearLength(y - 1) >= 0)
  {
    hide Leaps, IsLeap;
    var q, r := days / 365, days % 365;
    assert days == 365 * q + r;
    if q >= 0 {
      LeapsBetween(y - 1, q);
    } else {
      LeapsBetween(y - 1 + q, -q);
      if q == -1 {
        YearAfterYear(y - 1);
      }
    }
  }

  /** Where the absolute value does not shrink the next guess is the year before, and right. The day
      before the epoch, for one, becomes day 364. */
  lemma MagnitudeCanGrow(days: int, y: int)
    requires days < 0 && 2 * days + YearLength(y - 1) >= 0
    ensures YearGuess(days, y) == y - 1 && DaysAfterGuess(days, y) == days + YearLength(y - 1)
    ensures DayOfYear(days + YearLength(y - 1), y - 1) && Magnitude(days + YearLength(y - 1)) >= Magnitude(days)
    ensures DaysAfterGuess(-1, 1970) == 364
  {
    hide Leaps;
    YearAfterYear(y - 1);
    YearAfterYear(1969);
  }

  // ----- months -----

  const MONTH_STARTS := [0, 31, 59, 90, 120, 151, 181, 212, 243, 273, 304, 334, 365]
  const MONTH_STARTS_LEAP := [0, 31, 60, 91, 121, 152, 182, 213, 244, 274, 305, 335, 366]

  /** The day of the year on which a month starts. */
  function MonthStart(y: int, mon: int): int
    requires 0 <= mon <= 12
  {
    if IsLeap(y) then MONTH_STARTS_LEAP[mon] else MONTH_STARTS[mon]
  }

  function MonthLength(y: int, mon: int): int
    requires 0 <= mon < 12
  {
    MonthStart(y, mon + 1) - MonthStart(y, mon)
  }

  /** The rule of the calendar: thirty days and thirty-one in turn, twice thirty-one in July and August, and
      February apart. Month 0 is January. */
  lemma MonthRule(y: int, mon: int)
    requires 0 <= mon < 12
    ensures MonthLength(y, mon) == if mon == 1 then (if IsLeap(y) then 29 else 28) else 30 + (mon + mon / 7 + 1) % 2
    ensures MonthStart(y, 0) == 0 && MonthStart(y, mon + 1) == MonthStart(y, mon) + MonthLength(y, mon)
  {
  }

  /** A broken-down time. */
  datatype BrokenDown = BrokenDown(year: int, mon: int, mday: int, hour: int, min: int, sec: int)

  ghost predicate ValidFields(f: BrokenDown) {
    && 0 <= f.mon < 12 && 1 <= f.mday <= MonthLength(f.year, f.mon)
    && 0 <= f.hour < 24 && 0 <= f.min < 60 && 0 <= f.sec < 60
  }

  function DayNumber(f: BrokenDown): int
    requires 0 <= f.mon < 12
  {
    DaysBefore(f.year) + MonthStart(f.year, f.mon) + f.mday - 1
  }

  /** The time as seconds since 1970-01-01 00:00:00. */
  function Seconds(f: BrokenDown): int
    requires 0 <= f.mon < 12
  {
    DayNumber(f) * 86400 + f.hour * 3600 + f.min * 60 + f.sec
  }

  lemma {:induction false} YearsApart(y: int, n: nat)
    ensures DaysBefore(y) + 365 * n <= DaysBefore(y + n)
    ensures n > 0 ==> DaysBefore(y + 1) <= DaysBefore(y + n)
  {
    hide DaysBefore;
    if n > 0 {
      YearsApart(y, n - 1);
      YearAfterYear(y + n - 1);
    }
  }

  lemma MonthsApart(y: int, m: int, n: int)
    requires 0 <= m < n <= 12
    ensures MonthStart(y, m + 1) <= MonthStart(y, n) && 28 <= MonthLength(y, m) <= 31
    ensures MonthStart(y, 0) == 0 && MonthStart(y, 12) == YearLength(y)
  {
  }

  /** No two broken-down times stand for the same second. */
  lemma FieldsUnique(f: BrokenDown, g: BrokenDown)
    requires ValidFields(f) && ValidFields(g) && Seconds(f) == Seconds(g)
    ensures f == g
  {
    hide DaysBefore, MonthStart;
    assert DayNumber(f) == DayNumber(g);
    SameYear(f, g);
    SameYear(g, f);
    if f.mon < g.mon {
      MonthsApart(f.year, f.mon, g.mon);
    } else if g.mon < f.mon {
      MonthsApart(f.year, g.mon, f.mon);
    }
  }

  lemma SameYear(f: BrokenDown, g: BrokenDown)
    requires ValidFields(f) && ValidFields(g) && DayNumber(f) == DayNumber(g)
    ensures f.year >= g.year
  {
    hide DaysBefore, MonthStart;
    if f.year < g.year {
      YearsApart(f.year, g.year - f.year);
      YearAfterYear(f.year);
      MonthsApart(f.year, f.mon, 12);
      MonthsApart(f.year, 0, 12);
      StartNonNegative(g.year, g.mon);
    }
  }

  lemma StartNonNegative(y: int, mon: int)
    requires 0 <= mon <= 12
    ensures MonthStart(y, mon) >= 0
  {
  }

  // ----- struct tm -----

  class Tm {
    var year: int
    var mon: int
    var mday: int
    var hour: int
    var min: int
    var sec: int
    var wday: int
    var yday: int

    function Time(): BrokenDown
      reads this
    {
      BrokenDown(year + 1900, mon, mday, hour, min, sec)
    }
  }

  /** DIV of offtime.cpp, made from the division of C. */
  function FloorDiv(a: int, b: int): int
    requires b > 0
  {
    CDiv(a, b) - (if CMod(a, b) < 0 then 1 else 0)
  }

  function LeapsThruEndOf(y: int): int {
    FloorDiv(y, 4) - FloorDiv(y, 100) + FloorDiv(y, 400)
  }

  lemma FloorDivIs(a: int, b: int)
    requires b > 0
    ensures FloorDiv(a, b) == a / b
  {
    CDivIs(a, b);
  }

  lemma LeapsThru(y: int)
    ensures LeapsThruEndOf(y) == Leaps(y)
  {
    FloorDivIs(y, 4);
    FloorDivIs(y, 100);
    FloorDivIs(y, 400);
  }

  function Truncated32(x: int): int { (x + 0x8000_0000) % 0x1_0000_0000 - 0x8000_0000 }

  lemma {:induction false} MonthFrom(days: int, y: int, from: nat) returns (mon: int)
    requires from < 12 && 0 <= days < MonthStart(y, from + 1)
    ensures 0 <= mon < 12 && MonthStart(y, mon) <= days < MonthStart(y, mon + 1)
  {
    if days >= MonthStart(y, from) {
      mon := from;
    } else {
      mon := MonthFrom(days, y, from - 1);
    }
  }

  /** The date of a day of the year. */
  lemma FieldsOf(days: int, y: int, hour: int, min: int, sec: int) returns (f: BrokenDown)
    requires DayOfYear(days, y) && 0 <= hour < 24 && 0 <= min < 60 && 0 <= sec < 60
    ensures ValidFields(f) && f.year == y && f.hour == hour && f.min == min && f.sec == sec
    ensures DayNumber(f) == DaysBefore(y) + days
  {
    hide DaysBefore;
    var mon := MonthFrom(days, y, 11);
    f := BrokenDown(y, mon, days - MonthStart(y, mon) + 1, hour, min, sec);
  }

  lemma OnlyFields(f: BrokenDown, seconds: int)
    requires ValidFields(f) && Seconds(f) == seconds
    ensures forall g :: ValidFields(g) && Seconds(g) == seconds ==> g == f
  {
    forall g | ValidFields(g) && Seconds(g) == seconds
      ensures g == f
    {
      FieldsUnique(f, g);
    }
  }

  /** The time t, `offset` seconds east of UTC, as its unique date, time of day and weekday. Fails
      only if the year does not fit its field. */
  method Offtime(t: int, offset: int, tp: Tm) returns (ok: bool)
    modifies tp
    ensures ok ==> ValidFields(tp.Time()) && Seconds(tp.Time()) == t + offset
    ensures ok ==> 0 <= tp.mon < 12 && 1 <= tp.mday <= if tp.mon == 1 then (if IsLeap(tp.year + 1900) then 29 else 28)
      else 30 + (tp.mon + tp.mon / 7 + 1) % 2
    ensures ok ==> tp.wday == (4 + DayNumber(tp.Time())) % 7 && tp.yday == DayNumber(tp.Time()) - DaysBefore(tp.year + 1900)
    ensures !ok <==> !(forall f :: ValidFields(f) && Seconds(f) == t + offset ==> -0x8000_0000 <= f.year - 1900 < 0x8000_0000)
  {
    hide DaysBefore, MonthStart, IsLeap, CDiv, CMod;
    var days, rem := DayAndRest(t, offset);
    ghost var day, time := days, rem;
    TimeOfDay(rem);
    tp.hour := CDiv(rem, 3600);
    rem := CMod(rem, 3600);
    tp.min := CDiv(rem, 60);
    tp.sec := CMod(rem, 60);
    WeekDay(days);
    tp.wday := CMod(4 + days, 7);
    if tp.wday < 0 {
      tp.wday := tp.wday + 7;
    }
    var y;
    days, y := YearOf(days);
    ghost var found := FieldsOf(days, y, tp.hour, tp.min, tp.sec);
    OnlyFields(found, t + offset);
    tp.year := Truncated32(y - 1900);
    if tp.year != y - 1900 {
      return false;
    }
    tp.yday := days;
    var mon := MonthOf(days, y);
    days := days - MonthStart(y, mon);
    tp.mon := mon;
    tp.mday := days + 1;
    MonthRule(tp.Time().year, mon);
    ok := true;
  }

  lemma TimeOfDay(rem: int)
    requires 0 <= rem < 86400
    ensures var h, r := CDiv(rem, 3600), CMod(rem, 3600);
      && 0 <= h < 24 && 0 <= CDiv(r, 60) < 60 && 0 <= CMod(r, 60) < 60 && h * 3600 + CDiv(r, 60) * 60 + CMod(r, 60) == rem
  {
  }

  lemma WeekDay(days: int)
    ensures var w := CMod(4 + days, 7); (if w < 0 then w + 7 else w) == (4 + days) % 7
  {
    CDivIs(4 + days, 7);
  }

  /** The day number and the second of the day. */
  method DayAndRest(t: int, offset: int) returns (days: int, rem: int)
    ensures 0 <= rem < 86400 && days * 86400 + rem == t + offset
  {
    CDivIs(t, 86400);
    days := CDiv(t, 86400);
    rem := CMod(t, 86400);
    rem := rem + offset;
    while rem < 0
      invariant days * 86400 + rem == t + offset
    {
      rem := rem + 86400;
      days := days - 1;
    }
    while rem >= 86400
      invariant 0 <= rem && days * 86400 + rem == t + offset
    {
      rem := rem - 86400;
      days := days + 1;
    }
  }

  method YearOf(daysIn: int) returns (days: int, y: int)
    ensures DayOfYear(days, y) && days + DaysBefore(y) == daysIn
  {
    hide DaysBefore, Leaps, YearLength, CDiv, CMod, LeapsThruEndOf;
    days, y := daysIn, 1970;
    YearAfterYear(1970);
    while days < 0 || days >= YearLength(y)
      invariant days + DaysBefore(y) == daysIn
      decreases if DayOfYear(days, y) then 0 else 1 + Magnitude(days)
    {
      GuessConverges(days, y);
      GuessedYear(days, y);
      var yg := y + CDiv(days, 365) - (if CMod(days, 365) < 0 then 1 else 0);
      LeapsThru(yg - 1);
      LeapsThru(y - 1);
      days := days - ((yg - y) * 365 + LeapsThruEndOf(yg - 1) - LeapsThruEndOf(y - 1));
      y := yg;
    }
  }

  lemma GuessedYear(days: int, y: int)
    ensures y + CDiv(days, 365) - (if CMod(days, 365) < 0 then 1 else 0) == YearGuess(days, y)
  {
    FloorDivIs(days, 365);
  }

  method MonthOf(days: int, y: int) returns (mon: int)
    requires DayOfYear(days, y)
    ensures 0 <= mon < 12 && MonthStart(y, mon) <= days < MonthStart(y, mon + 1)
  {
    mon := 11;
    while days < MonthStart(y, mon)
      invariant 0 <= mon < 12 && days < MonthStart(y, mon + 1)
    {
      mon := mon - 1;
    }
  }

  // ----- back to seconds -----

  const MONTH_DAYS := [31, 28, 31, 30, 31, 30, 31, 31, 30, 31, 30, 31]
  const MONTH_DAYS_LEAP := [31, 29, 31, 30, 31, 30, 31, 31, 30, 31, 30, 31]

  function SumDays(days: seq<int>, n: nat): int
    requires n <= |days|
  {
    if n == 0 then 0 else SumDays(days, n - 1) + days[n - 1]
  }

  /** The days before a month, if every fourth year is a leap year and division truncates. */
  function DaysTo(year: int, mon: int): int
    requires mon <= 12
  {
    var tyears := year - 1970;
    var leapThisYear := CMod(tyears + 2, 4) == 0;
    var leaps := CDiv(tyears + 2, 4) - (if leapThisYear then 1 else 0);
    var months := SumDays(if leapThisYear then MONTH_DAYS_LEAP else MONTH_DAYS, Max(mon, 0));
    months + tyears * 365 + leaps
  }

  function ToUtc(f: BrokenDown, utcdiff: int): int
    requires f.mon <= 12
  {
    (DaysTo(f.year, f.mon) + f.mday - 1) * 86400 + (f.hour + utcdiff) * 3600 + f.min * 60 + f.sec
  }

  /** The months and years for which this count of the leap days is right: from 1968 to February 2100,
      and between 1900 and 1968 only in leap years, because the division truncates. In the century before
      that, truncating and taking 1900 for a leap year cancel out except in every fourth year. */
  predicate CountsRight(y: int, mon: int) {
    || 1968 <= y < 2100 || (y == 2100 && mon < 2)
    || (1900 < y < 1968 && y % 4 == 0) || (y == 1900 && mon >= 2)
    || (1800 < y < 1900 && y % 4 != 0)
  }

  /** The seconds of a valid time, utcdiff hours on, exactly if the leap days are counted right. */
  method TmToUtc(ltm: Tm, utcdiff: int) returns (utc: int)
    requires ltm.mon <= 12
    ensures utc == ToUtc(ltm.Time(), utcdiff)
    ensures ValidFields(ltm.Time()) ==>
      (utc == Seconds(ltm.Time()) + utcdiff * 3600 <==> CountsRight(ltm.Time().year, ltm.mon))
  {
    hide CountsRight, DaysBefore, MonthStart, Seconds, ValidFields, SumDays;
    if ValidFields(ltm.Time()) {
      ToUtcIsExact(ltm.Time(), utcdiff);
    }
    var tyears := ltm.year - 70;
    var leaps := CDiv(tyears + 2, 4);
    var leapThisYear := CMod(tyears + 2, 4) == 0;
    var tdays;
    if leapThisYear {
      leaps := leaps - 1;
      tdays := DaysOfMonths(MONTH_DAYS_LEAP, ltm.mon);
    } else {
      tdays := DaysOfMonths(MONTH_DAYS, ltm.mon);
    }
    tdays := tdays + ltm.mday - 1;
    tdays := tdays + tyears * 365 + leaps;
    var utcHours := ltm.hour + utcdiff;
    utc := tdays * 86400 + utcHours * 3600 + ltm.min * 60 + ltm.sec;
  }

  method DaysOfMonths(monthDays: seq<int>, mon: int) returns (tdays: int)
    requires mon <= |monthDays|
    ensures tdays == SumDays(monthDays, Max(mon, 0))
  {
    var i;
    tdays, i := 0, 0;
    while i < mon
      invariant 0 <= i <= Max(mon, 0) && tdays == SumDays(monthDays, i)
    {
      tdays := tdays + monthDays[i];
      i := i + 1;
    }
  }

  lemma {:induction false} MonthSums(mon: nat)
    requires mon <= 12
    ensures SumDays(MONTH_DAYS, mon) == MONTH_STARTS[mon] && SumDays(MONTH_DAYS_LEAP, mon) == MONTH_STARTS_LEAP[mon]
  {
    if mon > 0 {
      MonthSums(mon - 1);
    }
  }

  /** By how many days it is wrong: the centuries that are no leap years, the truncated division before 1968,
      and the 29th of February of such a century. */
  lemma ToUtcDiffers(f: BrokenDown, utcdiff: int)
    requires ValidFields(f)
    ensures ToUtc(f, utcdiff) - Seconds(f) - utcdiff * 3600 == 86400 * ((f.year - 1) / 100 - (f.year - 1) / 400 - 15
      + (if f.year < 1968 && f.year % 4 != 0 then 1 else 0) + (if f.mon >= 2 && f.year % 4 == 0 && !IsLeap(f.year) then 1 else 0))
  {
    hide DaysTo, DaysBefore, MonthStart;
    DaysToDiffers(f.year, f.mon);
  }

  lemma DaysToDiffers(y: int, mon: int)
    requires 0 <= mon < 12
    ensures DaysTo(y, mon) - DaysBefore(y) - MonthStart(y, mon) == (y - 1) / 100 - (y - 1) / 400 - 15
      + (if y < 1968 && y % 4 != 0 then 1 else 0) + (if mon >= 2 && y % 4 == 0 && !IsLeap(y) then 1 else 0)
  {
    hide SumDays, Leaps;
    MonthSums(mon);
    CDivIs(y - 1968, 4);
    LeapDays(y);
    Since1968(y);
  }

  /** In which months of all years the count is right. */
  lemma ToUtcIsExact(f: BrokenDown, utcdiff: int)
    requires ValidFields(f)
    ensures ToUtc(f, utcdiff) == Seconds(f) + utcdiff * 3600 <==> CountsRight(f.year, f.mon)
  {
    hide DaysTo, DaysBefore, MonthStart, CountsRight;
    DaysToIsExact(f.year, f.mon);
  }

  lemma DaysToIsExact(y: int, mon: int)
    requires 0 <= mon < 12
    ensures DaysTo(y, mon) == DaysBefore(y) + MonthStart(y, mon) <==> CountsRight(y, mon)
  {
    hide DaysTo, DaysBefore, MonthStart;
    DaysToDiffers(y, mon);
    CenturiesCounted(y - 1);
  }

  /** The leap days before a year, compared with one every four years: the centuries make the difference. */
  lemma LeapDays(y: int)
    ensures (y - 1968) / 4 - (if (y - 1968) % 4 == 0 then 1 else 0)
      == Leaps(y - 1) - Leaps(1969) + (y - 1) / 100 - (y - 1) / 400 - 15
  {
    OneMore(y, 4);
    Since1968(y);
  }

  lemma Since1968(y: int)
    ensures (y - 1968) / 4 == y / 4 - 492 && (y - 1968) % 4 == y % 4
  {
  }

  /** The centuries without a leap day up to a year. */
  lemma CenturiesCounted(y: int)
    ensures var n := y / 100 - y / 400;
      (n < 14 <==> y < 1800) && (n <= 14 <==> y < 1900) && (n <= 15 <==> y < 2100)
  {
    var c := y / 100;
    assert y / 400 == c / 4 by {
      var q, r, s := y / 400, y % 400, y % 100;
      DivModUnique(y, 400, c / 4, 100 * (c % 4) + s);
    }
  }

  /** Where the seconds from 1970 to February 2100 are. */
  lemma SecondsRange(f: BrokenDown)
    requires ValidFields(f)
    ensures Seconds(f) >= 0 <==> f.year >= 1970
    ensures Seconds(f) < 4107542400 <==> f.year < 2100 || (f.year == 2100 && f.mon < 2)
  {
    hide DaysBefore, MonthStart;
    StartNonNegative(f.year, f.mon);
    MonthsApart(f.year, f.mon, 12);
    MonthsApart(f.year, 0, 12);
    YearAfterYear(f.year);
    assert DaysBefore(1970) == 0 && DaysBefore(2100) == 47482 && MonthStart(2100, 2) == 59 by {
      KnownDays();
    }
    if f.year >= 1970 {
      YearsApart(1970, f.year - 1970);
    } else {
      YearsApart(f.year + 1, 1969 - f.year);
    }
    if f.year > 2100 {
      YearsApart(2100, f.year - 2100);
      YearAfterYear(2100);
    } else if f.year < 2100 {
      YearsApart(f.year + 1, 2099 - f.year);
    } else if f.mon >= 2 {
      FromMarch(f.mon);
    } else {
      BeforeMarch(f.mon);
    }
  }

  lemma KnownDays()
    ensures DaysBefore(1970) == 0 && DaysBefore(2100) == 47482 && MonthStart(2100, 2) == 59 && YearLength(2100) == 365
  {
  }

  lemma FromMarch(mon: int)
    requires 2 <= mon <= 12
    ensures MonthStart(2100, mon) >= 59
  {
  }

  lemma BeforeMarch(mon: int)
    requires 0 <= mon < 2
    ensures MonthStart(2100, mon) + MonthLength(2100, mon) <= 59
  {
  }

  /** The two directions are inverse exactly where the leap days are counted right: from 1970 on, until the
      end of February 2100. */
  method ThereAndBack(t: int, tp: Tm) returns (ok: bool, u: int)
    modifies tp
    ensures ok ==> (u == t <==> CountsRight(tp.Time().year, tp.mon))
    ensures ok && t >= 0 ==> (u == t <==> t < 4107542400)
  {
    hide DaysBefore, ToUtc, Leaps;
    ok := Offtime(t, 0, tp);
    u := 0;
    if ok {
      SecondsRange(tp.Time());
      u := TmToUtc(tp, 0);
    }
  }

  // ----- packed dates -----

  /** YYYYMMDD and HHMMSS. */
  function PackedDate(f: BrokenDown): int { f.year * 10000 + (f.mon + 1) * 100 + f.mday }

  function PackedTime(f: BrokenDown): int { f.hour * 10000 + f.min * 100 + f.sec }

  /** The packed date and time; a date that does not fit 32 bits wraps, and a year that does not gives
      the epoch's date. */
  method UtcToDate(utc: int) returns (date: int, minuSec: int)
    ensures forall f :: ValidFields(f) && Seconds(f) == utc ==>
      if -0x8000_0000 <= f.year - 1900 < 0x8000_0000 then date == Truncated32(PackedDate(f)) && minuSec == PackedTime(f)
      else date == 19700101
  {
    hide DaysBefore, MonthStart;
    var tm := new Tm;
    var ok := Offtime(utc, 0, tm);
    if !ok {
      date, minuSec := 19700101, 0;
      NoDate(utc);
    } else {
      date := Truncated32((tm.year + 1900) * 100 * 100 + (tm.mon + 1) * 100 + tm.mday);
      minuSec := tm.hour * 10000 + tm.min * 100 + tm.sec;
      OnlyFields(tm.Time(), utc);
    }
  }

  /** Five seconds past 3:04 on the first of May 1970, which follows the thirtieth of April and is a Friday. */
  lemma FirstOfMay(f: BrokenDown)
    requires ValidFields(f) && Seconds(f) == 10379045
    ensures f == BrokenDown(1970, 4, 1, 3, 4, 5) && PackedDate(f) == 19700501 && PackedTime(f) == 30405
    ensures (4 + DayNumber(f)) % 7 == 5
  {
    hide Seconds, ValidFields, PackedDate, PackedTime, DayNumber, DaysBefore, MonthStart, MonthLength;
    KnownDays();
    DaysToMay();
    var g := BrokenDown(1970, 4, 1, 3, 4, 5);
    MayFields(g, 1970, 4);
    FieldsUnique(f, g);
  }

  lemma MayFields(g: BrokenDown, y: int, mon: int)
    requires g == BrokenDown(y, mon, 1, 3, 4, 5) && y == 1970 && mon == 4
    requires DaysBefore(y) == 0 && MonthStart(y, mon) == 120 && MonthLength(y, mon) == 31
    ensures ValidFields(g) && Seconds(g) == 10379045 && (4 + DayNumber(g)) % 7 == 5
    ensures PackedDate(g) == 19700501 && PackedTime(g) == 30405
  {
    hide DaysBefore, MonthStart, MonthLength;
  }

  lemma DaysToMay()
    ensures MonthStart(1970, 4) == 120 && MonthLength(1970, 4) == 31
  {
  }

  lemma NoDate(utc: int)
    requires exists g :: ValidFields(g) && Seconds(g) == utc && !(-0x8000_0000 <= g.year - 1900 < 0x8000_0000)
    ensures forall f :: ValidFields(f) && Seconds(f) == utc ==> !(-0x8000_0000 <= f.year - 1900 < 0x8000_0000)
  {
    var g :| ValidFields(g) && Seconds(g) == utc && !(-0x8000_0000 <= g.year - 1900 < 0x8000_0000);
    OnlyFields(g, utc);
  }

  /** The packed date and time taken apart again; the years are those the source accepts. */
  method DateToUtc(date: int, minuSec: int) returns (utc: int)
    requires date < 0 || minuSec < 0 || (date / 10000 > 1980 && date / 100 % 100 <= 13)
    ensures date < 0 || minuSec < 0 ==> utc == 0
    ensures forall f :: ValidFields(f) && f.year > 1980 && date == PackedDate(f) && minuSec == PackedTime(f) ==>
      (utc == Seconds(f) <==> f.year < 2100 || (f.year == 2100 && f.mon < 2))
  {
    hide ToUtc;
    if date < 0 || minuSec < 0 {
      return 0;
    }
    var tm := new Tm;
    var t := minuSec / 100;
    tm.sec := minuSec % 100;
    tm.min := t % 100;
    t := t / 100;
    tm.hour := t;
    t := date / 100;
    tm.mday := date % 100;
    tm.mon := t % 100 - 1;
    t := t / 100;
    tm.year := t - 1900;
    utc := TmToUtc(tm, 0);
    forall f | ValidFields(f) && f.year > 1980 && date == PackedDate(f) && minuSec == PackedTime(f)
      ensures utc == Seconds(f) <==> f.year < 2100 || (f.year == 2100 && f.mon < 2)
    {
      Unpacked(f);
      ToUtcIsExact(f, 0);
    }
  }

  lemma Unpacked(f: BrokenDown)
    requires ValidFields(f) && f.year >= 0
    ensures var date, minuSec := PackedDate(f), PackedTime(f);
      && date % 100 == f.mday && date / 100 % 100 - 1 == f.mon && date / 100 / 100 == f.year
      && minuSec % 100 == f.sec && minuSec / 100 % 100 == f.min && minuSec / 100 / 100 == f.hour
  {
    MonthsApart(f.year, f.mon, 12);
  }

  /** Packing a time of 1981 through February 2100 and unpacking it gives the time back. */
  method PackAndUnpack(utc: int) returns (u: int)
    requires 347155200 <= utc < 4107542400
    ensures u == utc
  {
    hide DaysBefore, ToUtc, MonthStart;
    var tm := new Tm;
    var ok := Offtime(utc, 0, tm);
    ghost var f := tm.Time();
    if ok {
      SecondsRange(f);
      From1981(f);
    } else {
      ghost var g :| ValidFields(g) && Seconds(g) == utc && !(-0x8000_0000 <= g.year - 1900 < 0x8000_0000);
      SecondsRange(g);
      assert false;
    }
    var date, minuSec := UtcToDate(utc);
    Unpacked(f);
    PackedParts(f);
    PackedFits(f);
    ToUtcIsExact(f, 0);
    u := DateToUtc(date, minuSec);
  }

  lemma PackedFits(f: BrokenDown)
    requires ValidFields(f) && 1980 < f.year <= 2100
    ensures Truncated32(PackedDate(f)) == PackedDate(f)
  {
    MonthsApart(f.year, f.mon, 12);
  }

  lemma From1981(f: BrokenDown)
    requires ValidFields(f) && Seconds(f) >= 347155200
    ensures f.year > 1980
  {
    hide DaysBefore, MonthStart;
    MonthsApart(f.year, f.mon, 12);
    MonthsApart(f.year, 0, 12);
    YearAfterYear(f.year);
    assert DaysBefore(1981) == 4018 by {
      Days1981();
    }
    if f.year <= 1980 {
      YearsApart(f.year + 1, 1980 - f.year);
    }
  }

  lemma Days1981()
    ensures DaysBefore(1981) == 4018
  {
  }

  lemma PackedParts(f: BrokenDown)
    requires ValidFields(f) && f.year >= 0
    ensures PackedDate(f) / 10000 == f.year && PackedDate(f) / 100 % 100 == f.mon + 1 && PackedDate(f) >= 0 && PackedTime(f) >= 0
  {
    Unpacked(f);
  }
}
