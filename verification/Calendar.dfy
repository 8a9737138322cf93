/**
 * Civil dates and day numbers: gmtime() walks the calendar day by day, timegm() computes. The two
 * are inverse to each other for all dates of the proleptic Gregorian calendar.
 */
module Calendar {
  datatype Civil = Civil(year: int, month: int, day: int)

  predicate Leap(y: int) {
    y % 4 == 0 && (y % 100 != 0 || y % 400 == 0)
  }

  function DaysIn(y: int, m: int): (n: int)
    ensures 28 <= n <= 31
  {
    if m == 2 then (if Leap(y) then 29 else 28)
    else if m == 4 || m == 6 || m == 9 || m == 11 then 30
    else 31
  }

  predicate ValidCivil(c: Civil) {
    1 <= c.month <= 12 && 1 <= c.day <= DaysIn(c.year, c.month)
  }

  const EPOCH := Civil(1970, 1, 1)

  // ---------------------------------------------------------------- walking

  function NextDay(c: Civil): Civil {
    if c.day < DaysIn(c.year, c.month) then c.(day := c.day + 1)
    else if c.month < 12 then Civil(c.year, c.month + 1, 1)
    else Civil(c.year + 1, 1, 1)
  }

  function PreviousDay(c: Civil): Civil {
    if c.day > 1 then c.(day := c.day - 1)
    else if c.month > 1 then Civil(c.year, c.month - 1, DaysIn(c.year, c.month - 1))
    else Civil(c.year - 1, 12, 31)
  }

  /** The date a number of days after (or before) the epoch. */
  function CivilOf(n: int): (c: Civil)
    ensures ValidCivil(c)
    decreases if n < 0 then -n else n
  {
    if n == 0 then EPOCH
    else if n > 0 then NextDay(CivilOf(n - 1))
    else PreviousDay(CivilOf(n + 1))
  }

  // ---------------------------------------------------------------- computing

  /** Days before the given month in its year. */
  function DaysBefore(y: int, m: int): int {
    var common := if m <= 1 then 0 else if m == 2 then 31 else if m == 3 then 59 else if m == 4 then 90
                  else if m == 5 then 120 else if m == 6 then 151 else if m == 7 then 181 else if m == 8 then 212
                  else if m == 9 then 243 else if m == 10 then 273 else if m == 11 then 304 else 334;
    if m > 2 && Leap(y) then common + 1 else common
  }

  /** Leap days in the years before y, from year 1 on. */
  function LeapsBefore(y: int): int {
    (y - 1) / 4 - (y - 1) / 100 + (y - 1) / 400
  }

  function YearStart(y: int): int {
    365 * (y - 1970) + LeapsBefore(y) - LeapsBefore(1970)
  }

  function DayNumber(y: int, m: int, d: int): int {
    YearStart(y) + DaysBefore(y, m) + d - 1
  }

  lemma FloorStep(y: int, k: int)
    requires k == 4 || k == 100 || k == 400
    ensures y / k - (y - 1) / k == if y % k == 0 then 1 else 0
  {
  }

  lemma YearLength(y: int)
    ensures YearStart(y + 1) == YearStart(y) + if Leap(y) then 366 else 365
  {
    FloorStep(y, 4);
    FloorStep(y, 100);
    FloorStep(y, 400);
    Multiples(y);
    assert LeapsBefore(y + 1) == y / 4 - y / 100 + y / 400;
    assert LeapsBefore(y + 1) - LeapsBefore(y) == if Leap(y) then 1 else 0;
  }

  lemma Multiples(y: int)
    ensures y % 100 == 0 ==> y % 4 == 0
    ensures y % 400 == 0 ==> y % 100 == 0
  {
    if y % 100 == 0 { Remainder4(25 * (y / 100)); }
    if y % 400 == 0 { Remainder100(4 * (y / 400)); }
  }

  lemma Remainder4(k: int)
    ensures (4 * k) % 4 == 0
  {
  }

  lemma Remainder100(k: int)
    ensures (100 * k) % 100 == 0
  {
  }

  lemma MonthLength(y: int, m: int)
    requires 1 <= m < 12
    ensures DaysBefore(y, m + 1) == DaysBefore(y, m) + DaysIn(y, m)
  {
  }

  lemma NextDayNumber(c: Civil)
    requires ValidCivil(c)
    ensures ValidCivil(NextDay(c))
    ensures DayNumber(NextDay(c).year, NextDay(c).month, NextDay(c).day) == DayNumber(c.year, c.month, c.day) + 1
  {
    YearLength(c.year);
    if c.month < 12 { MonthLength(c.year, c.month); }
  }

  lemma PreviousDayNumber(c: Civil)
    requires ValidCivil(c)
    ensures ValidCivil(PreviousDay(c)) && NextDay(PreviousDay(c)) == c
    ensures DayNumber(PreviousDay(c).year, PreviousDay(c).month, PreviousDay(c).day)
         == DayNumber(c.year, c.month, c.day) - 1
  {
    NextDayNumber(PreviousDay(c));
  }

  lemma NextThenPrevious(c: Civil)
    requires ValidCivil(c)
    ensures PreviousDay(NextDay(c)) == c
  {
  }

  /** timegm() undoes gmtime(). */
  lemma {:induction false} NumberOfCivil(n: int)
    ensures var c := CivilOf(n); DayNumber(c.year, c.month, c.day) == n
    decreases if n < 0 then -n else n
  {
    if n > 0 {
      NumberOfCivil(n - 1);
      NextDayNumber(CivilOf(n - 1));
    } else if n < 0 {
      NumberOfCivil(n + 1);
      PreviousDayNumber(CivilOf(n + 1));
    }
  }

  lemma {:induction false} YearsIncrease(y: int, z: int)
    requires y <= z
    ensures YearStart(z) >= YearStart(y) + 365 * (z - y)
    decreases z - y
  {
    if y < z {
      YearsIncrease(y, z - 1);
      YearLength(z - 1);
    }
  }

  lemma WithinYear(c: Civil)
    requires ValidCivil(c)
    ensures YearStart(c.year) <= DayNumber(c.year, c.month, c.day) < YearStart(c.year + 1)
  {
    YearLength(c.year);
  }

  lemma OnlyEpochIsZero(c: Civil)
    requires ValidCivil(c) && DayNumber(c.year, c.month, c.day) == 0
    ensures c == EPOCH
  {
    WithinYear(c);
    assert YearStart(1970) == 0;
    if c.year > 1970 { YearsIncrease(1970, c.year); } else { YearsIncrease(c.year + 1, 1971); }
    assert c.year == 1970 by { YearLength(1970); }
  }

  /** gmtime() undoes timegm(). */
  lemma {:induction false} CivilOfNumber(c: Civil)
    requires ValidCivil(c)
    ensures CivilOf(DayNumber(c.year, c.month, c.day)) == c
    decreases var n := DayNumber(c.year, c.month, c.day); if n < 0 then -n else n
  {
    var n := DayNumber(c.year, c.month, c.day);
    if n == 0 {
      OnlyEpochIsZero(c);
    } else if n > 0 {
      PreviousDayNumber(c);
      CivilOfNumber(PreviousDay(c));
    } else {
      NextDayNumber(c);
      NextThenPrevious(c);
      CivilOfNumber(NextDay(c));
    }
  }
}
