/**
 * A proleptic Gregorian calendar over day numbers. Day 0 is Thursday
 * 1 January 1970; months are numbered 0 (January) to 11 (December) and
 * weekdays 0 (Sunday) to 6 (Saturday), as JavaScript's `Date.getMonth`
 * and `Date.getDay` number them. A local calendar day of the app is one
 * day number; time zones and clock time are not modelled.
 */
module Civil {

  predicate IsLeap(y: int)
  {
    y % 4 == 0 && (y % 100 != 0 || y % 400 == 0)
  }

  function DaysInYear(y: int): nat
  {
    if IsLeap(y) then 366 else 365
  }

  /** Length of month `m` (0-based) of year `y`. */
  function DaysInMonth(y: int, m: int): (n: nat)
    requires 0 <= m < 12
    ensures 28 <= n <= 31
    ensures n == 29 <==> m == 1 && IsLeap(y)
  {
    if m == 1 then (if IsLeap(y) then 29 else 28)
    else if m == 3 || m == 5 || m == 8 || m == 10 then 30
    else 31
  }

  /** Leap years among 1 .. y-1. */
  function LeapsBefore(y: int): int
  {
    (y - 1) / 4 - (y - 1) / 100 + (y - 1) / 400
  }

  /** Day number of 1 January of year `y`. */
  function YearStart(y: int): int
  {
    365 * (y - 1970) + LeapsBefore(y) - LeapsBefore(1970)
  }

  /** Days of year `y` before the first of month `m`. */
  function DaysBeforeMonth(y: int, m: int): (n: nat)
    requires 0 <= m <= 12
    ensures 28 * m <= n <= 31 * m
  {
    if m == 0 then 0 else DaysBeforeMonth(y, m - 1) + DaysInMonth(y, m - 1)
  }

  /** Day number of the first day of month `m` of year `y` (`new Date(y, m, 1)`). */
  function MonthStart(y: int, m: int): int
    requires 0 <= m < 12
  {
    YearStart(y) + DaysBeforeMonth(y, m)
  }

  /** Weekday of a day number, 0 = Sunday (`Date.getDay`). */
  function Weekday(n: int): (w: nat)
    ensures w < 7
    ensures (n - w) % 7 == 3
  {
    (n + 4) % 7
  }

  /** Day `n` lies in month `m` of year `y`. */
  predicate InMonth(n: int, y: int, m: int)
    requires 0 <= m < 12
  {
    MonthStart(y, m) <= n < MonthStart(y, m) + DaysInMonth(y, m)
  }

  /** The month after (y, m), with year carry. */
  function NextMonth(y: int, m: int): (r: (int, int))
    requires 0 <= m < 12
    ensures 0 <= r.1 < 12
  {
    if m == 11 then (y + 1, 0) else (y, m + 1)
  }

  /** The month before (y, m), with year carry. */
  function PrevMonth(y: int, m: int): (r: (int, int))
    requires 0 <= m < 12
    ensures 0 <= r.1 < 12
    ensures NextMonth(r.0, r.1) == (y, m)
  {
    if m == 0 then (y - 1, 11) else (y, m - 1)
  }

  lemma LeapsStep(y: int)
    ensures LeapsBefore(y + 1) - LeapsBefore(y) == (if IsLeap(y) then 1 else 0)
  {
    var q4, r4 := y / 4, y % 4;
    var q100, r100 := y / 100, y % 100;
    var q400, r400 := y / 400, y % 400;
    assert (y - 1) / 4 == (if r4 == 0 then q4 - 1 else q4);
    assert (y - 1) / 100 == (if r100 == 0 then q100 - 1 else q100);
    assert (y - 1) / 400 == (if r400 == 0 then q400 - 1 else q400);
    assert r400 == 0 ==> r100 == 0 && r4 == 0;
    assert r100 == 0 ==> r4 == 0;
  }

  /** Consecutive years are adjacent on the day line. */
  lemma YearStartStep(y: int)
    ensures YearStart(y + 1) == YearStart(y) + DaysInYear(y)
  {
    LeapsStep(y);
  }

  /** The twelve months together make up the year. */
  lemma MonthsFillYear(y: int)
    ensures DaysBeforeMonth(y, 12) == DaysInYear(y)
  {
    var feb := DaysInMonth(y, 1);
    assert DaysBeforeMonth(y, 2) == 31 + feb;
    assert DaysBeforeMonth(y, 4) == 92 + feb;
    assert DaysBeforeMonth(y, 6) == 153 + feb;
    assert DaysBeforeMonth(y, 8) == 215 + feb;
    assert DaysBeforeMonth(y, 10) == 276 + feb;
    assert DaysBeforeMonth(y, 12) == 337 + feb;
  }

  /**
   * Consecutive months are adjacent on the day line: the month after
   * (y, m) starts the day after (y, m) ends, across a year boundary too.
   */
  lemma MonthsAdjacent(y: int, m: int)
    requires 0 <= m < 12
    ensures var (y', m') := NextMonth(y, m);
            MonthStart(y', m') == MonthStart(y, m) + DaysInMonth(y, m)
  {
    if m == 11 {
      YearStartStep(y);
      MonthsFillYear(y);
      assert DaysBeforeMonth(y, 12) == DaysBeforeMonth(y, 11) + DaysInMonth(y, 11);
    }
  }

  /** Pins the day line to the calendar: 1 January 1970 is day 0, a Thursday. */
  lemma EpochIsThursday()
    ensures MonthStart(1970, 0) == 0 && Weekday(0) == 4
  {
  }

  /** A valid civil date: year, 0-based month and day of month. */
  datatype CivilDate = CivilDate(year: int, month: int, day: int)
  {
    predicate Valid()
    {
      0 <= month < 12 && 1 <= day <= DaysInMonth(year, month)
    }

    /** Day number of this date. */
    function DayNumber(): (n: int)
      requires Valid()
      ensures InMonth(n, year, month)
    {
      MonthStart(year, month) + day - 1
    }
  }
}
