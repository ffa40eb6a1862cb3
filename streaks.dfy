/**
 * The consecutive-day streak over a session log, shared by the live
 * milestone check after a completed interval and by the history
 * statistics: the distinct completion days, newest first, are walked
 * while the i-th of them is exactly `today - i`.
 */
module Streaks {
  import opened Sessions

  /** The streak milestones the app celebrates. */
  datatype MilestoneKind = WeekStreak | MonthStreak | CenturyStreak

  predicate StrictlyDescending(s: seq<int>)
  {
    forall i, j :: 0 <= i < j < |s| ==> s[i] > s[j]
  }

  function Elements(s: seq<int>): set<int>
  {
    set x | x in s
  }

  /** `d` inserted into a strictly descending sequence, unless already there. */
  function InsertDescending(s: seq<int>, d: int): (r: seq<int>)
    requires StrictlyDescending(s)
    ensures StrictlyDescending(r)
    ensures forall x :: x in r <==> x in s || x == d
  {
    if s == [] then [d]
    else if d == s[0] then s
    else if d > s[0] then [d] + s
    else
      var t := InsertDescending(s[1..], d);
      assert forall k :: 0 <= k < |t| ==> t[k] in t;
      [s[0]] + t
  }

  /**
   * The distinct completion days of the log, newest first: the source's
   * `[...new Set(days)].sort(descending)`.
   */
  function DistinctDaysDescending(log: seq<SessionRecord>): (r: seq<int>)
    ensures StrictlyDescending(r)
    ensures forall x :: x in r <==> x in DaysOf(log)
  {
    if log == [] then []
    else
      var rest := log[..|log| - 1];
      assert forall i :: 0 <= i < |rest| ==> rest[i] == log[i];
      InsertDescending(DistinctDaysDescending(rest), log[|log| - 1].day)
  }

  /**
   * Length of the run of consecutive days d, d-1, d-2, ... present in
   * `days`, stopping at the first absent day.
   */
  function RunLength(days: set<int>, d: int): (n: nat)
    decreases days
  {
    if d in days then 1 + RunLength(days - {d}, d - 1) else 0
  }

  /**
   * The streak the app shows for a set of completion days: the run of
   * days ending today, or 0 when a day after today is present (a
   * future-dated record is newest and is never equal to today).
   */
  function Streak(days: set<int>, today: int): (n: nat)
    ensures days == {} ==> n == 0
  {
    if exists d :: d in days && d > today then 0 else RunLength(days, today)
  }

  /**
   * A run of length n is exactly: the n days d-n+1 .. d are present and
   * the day d-n before them is absent.
   */
  lemma {:induction false} RunLengthMeaning(days: set<int>, d: int)
    ensures forall x :: d - RunLength(days, d) < x <= d ==> x in days
    ensures d - RunLength(days, d) !in days
    decreases days
  {
    if d in days {
      RunLengthMeaning(days - {d}, d - 1);
    }
  }

  /** A streak never exceeds the number of distinct completion days. */
  lemma {:induction false} RunLengthAtMostDays(days: set<int>, d: int)
    ensures RunLength(days, d) <= |days|
    decreases days
  {
    if d in days {
      RunLengthAtMostDays(days - {d}, d - 1);
    }
  }

  lemma StreakAtMostDays(days: set<int>, today: int)
    ensures Streak(days, today) <= |days|
  {
    RunLengthAtMostDays(days, today);
  }

  /** An empty log has streak 0, and so does a log without a record today. */
  lemma StreakNeedsToday(days: set<int>, today: int)
    requires today !in days
    ensures Streak(days, today) == 0
  {
  }

  /**
   * A further record on a day that already has one leaves the streak as
   * it was: completion days count once however many sessions they hold.
   */
  lemma SameDayCountsOnce(log: seq<SessionRecord>, rec: SessionRecord, today: int)
    requires exists i :: 0 <= i < |log| && log[i].day == rec.day
    ensures DaysOf([rec] + log) == DaysOf(log)
    ensures Streak(DaysOf([rec] + log), today) == Streak(DaysOf(log), today)
  {
    var longer := [rec] + log;
    forall d | d in DaysOf(log)
      ensures d in DaysOf(longer)
    {
      var i :| 0 <= i < |log| && log[i].day == d;
      assert longer[i + 1] == log[i];
    }
    forall d | d in DaysOf(longer)
      ensures d in DaysOf(log)
    {
      var i :| 0 <= i < |longer| && longer[i].day == d;
      if i > 0 {
        assert longer[i] == log[i - 1];
      }
    }
  }

  /** The examples: days {today, today-1, today-2} give 3, and {today, today-2} give 1. */
  lemma StreakExamples(today: int)
    ensures Streak({today, today - 1, today - 2}, today) == 3
    ensures Streak({today, today - 2}, today) == 1
  {
    assert RunLength({}, today - 3) == 0;
    assert {today - 2} - {today - 2} == {};
    assert RunLength({today - 2}, today - 2) == 1;
    assert {today - 1, today - 2} - {today - 1} == {today - 2};
    assert RunLength({today - 1, today - 2}, today - 1) == 2;
    assert {today, today - 1, today - 2} - {today} == {today - 1, today - 2};
    assert RunLength({today, today - 1, today - 2}, today) == 3;
    assert {today - 2} !! {today - 1};
    assert RunLength({today - 2}, today - 1) == 0;
    assert {today, today - 2} - {today} == {today - 2};
    assert RunLength({today, today - 2}, today) == 1;
  }

  /**
   * The walk of the source's loop over the sorted distinct days: count
   * while the next day equals the expected one, stop at the first that
   * does not.
   */
  function Walk(dates: seq<int>, expected: int): (n: nat)
    ensures n <= |dates|
  {
    if dates == [] || dates[0] != expected then 0 else 1 + Walk(dates[1..], expected - 1)
  }

  /** Having matched i days, the walk's count is i plus the walk of the rest. */
  lemma {:induction false} WalkPrefix(dates: seq<int>, today: int, i: nat)
    requires i <= |dates|
    requires forall j :: 0 <= j < i ==> dates[j] == today - j
    ensures Walk(dates, today) == i + Walk(dates[i..], today - i)
  {
    if i > 0 {
      assert dates[0] == today;
      WalkPrefix(dates[1..], today - 1, i - 1);
      assert dates[1..][i - 1..] == dates[i..];
    }
  }

  /**
   * On strictly descending days none of which is after `expected`, the
   * walk counts exactly the run of consecutive days ending at `expected`.
   */
  lemma {:induction false} WalkIsRun(dates: seq<int>, expected: int)
    requires StrictlyDescending(dates)
    requires forall j :: 0 <= j < |dates| ==> dates[j] <= expected
    ensures Walk(dates, expected) == RunLength(Elements(dates), expected)
  {
    if dates != [] {
      var rest := dates[1..];
      assert Elements(dates) == {dates[0]} + Elements(rest) by {
        assert dates == [dates[0]] + rest;
      }
      if dates[0] == expected {
        assert forall j :: 0 <= j < |rest| ==> rest[j] < expected;
        WalkIsRun(rest, expected - 1);
        assert Elements(dates) - {expected} == Elements(rest);
        assert Walk(dates, expected) == 1 + Walk(rest, expected - 1);
        assert RunLength(Elements(dates), expected) == 1 + RunLength(Elements(rest), expected - 1);
      } else {
        assert forall x :: x in Elements(dates) ==> x < expected;
        assert RunLength(Elements(dates), expected) == 0;
      }
    } else {
      assert Elements(dates) == {};
    }
  }

  /** On strictly descending days the walk from today is the streak. */
  lemma WalkIsStreak(dates: seq<int>, today: int)
    requires StrictlyDescending(dates)
    ensures Walk(dates, today) == Streak(Elements(dates), today)
  {
    if exists d :: d in Elements(dates) && d > today {
      assert dates[0] > today;
    } else {
      assert forall j :: 0 <= j < |dates| ==> dates[j] in Elements(dates);
      WalkIsRun(dates, today);
    }
  }

  /**
   * The source's streak walk (`calculateStreak`, and the loop in
   * `checkStreakMilestones`): an empty log gives 0; otherwise count the
   * distinct days, newest first, while the i-th equals `today - i`.
   */
  method CalculateStreak(log: seq<SessionRecord>, today: int) returns (streak: nat)
    ensures streak == Streak(DaysOf(log), today)
  {
    if |log| == 0 {
      return 0;
    }
    var dates := DistinctDaysDescending(log);
    streak := 0;
    var i := 0;
    while i < |dates|
      invariant 0 <= i <= |dates|
      invariant streak == i
      invariant forall j :: 0 <= j < i ==> dates[j] == today - j
    {
      if dates[i] == today - i {
        streak := streak + 1;
      } else {
        break;
      }
      i := i + 1;
    }
    WalkPrefix(dates, today, i);
    WalkIsStreak(dates, today);
    assert Elements(dates) == DaysOf(log);
  }
}
