/**
 * The statistics the history screen shows over the loaded session log
 * (components/history-view.tsx): record count, minutes, streak and
 * today's count; the streak milestone celebration decided against the
 * persisted "last shown" streak; and the "1h 5m" duration text.
 */
module HistoryStats {
  import opened Sessions
  import opened Streaks
  import Decimal

  /** Sum of the recorded minutes of the log. */
  function TotalMinutes(log: seq<SessionRecord>): nat
  {
    if log == [] then 0 else log[0].duration + TotalMinutes(log[1..])
  }

  /** Every record's minutes are part of the total, which is 0 exactly when every record has 0 minutes. */
  lemma {:induction false} TotalMinutesBounds(log: seq<SessionRecord>)
    ensures forall i :: 0 <= i < |log| ==> log[i].duration <= TotalMinutes(log)
    ensures TotalMinutes(log) == 0 <==> forall i :: 0 <= i < |log| ==> log[i].duration == 0
  {
    if log != [] {
      TotalMinutesBounds(log[1..]);
      assert forall i :: 1 <= i < |log| ==> log[i] == log[1..][i - 1];
    }
  }

  lemma {:induction false} TotalMinutesAppend(a: seq<SessionRecord>, b: seq<SessionRecord>)
    ensures TotalMinutes(a + b) == TotalMinutes(a) + TotalMinutes(b)
  {
    if a != [] {
      assert (a + b)[1..] == a[1..] + b;
      TotalMinutesAppend(a[1..], b);
    } else {
      assert a + b == b;
    }
  }

  /** Removing the record at index k takes away exactly its minutes. */
  lemma TotalMinutesRemove(s: seq<SessionRecord>, k: nat)
    requires k < |s|
    ensures TotalMinutes(s) == TotalMinutes(s[..k] + s[k + 1..]) + s[k].duration
  {
    assert s == s[..k] + ([s[k]] + s[k + 1..]);
    TotalMinutesAppend(s[..k], [s[k]] + s[k + 1..]);
    TotalMinutesAppend(s[..k], s[k + 1..]);
  }

  /** The minutes total does not depend on the order of the records. */
  lemma {:induction false} TotalMinutesPermutation(a: seq<SessionRecord>, b: seq<SessionRecord>)
    requires multiset(a) == multiset(b)
    ensures TotalMinutes(a) == TotalMinutes(b)
    decreases |a|
  {
    if a != [] {
      var x := a[0];
      assert x in multiset(b);
      var k :| 0 <= k < |b| && b[k] == x;
      var rest := b[..k] + b[k + 1..];
      MultisetRemove(b, k);
      MultisetRemove(a, 0);
      assert a[..0] + a[1..] == a[1..];
      assert multiset(a[1..]) == multiset(rest);
      TotalMinutesPermutation(a[1..], rest);
      TotalMinutesRemove(b, k);
    } else {
      assert |b| == |multiset(b)| == 0;
    }
  }

  /** Removing the element at index k removes one occurrence of it. */
  lemma MultisetRemove(s: seq<SessionRecord>, k: nat)
    requires k < |s|
    ensures multiset(s[..k] + s[k + 1..]) == multiset(s) - multiset{s[k]}
  {
    assert s == s[..k] + [s[k]] + s[k + 1..];
  }

  /** The records completed on day `d`, in log order. */
  function SessionsOn(log: seq<SessionRecord>, d: int): (r: seq<SessionRecord>)
    ensures |r| <= |log|
    ensures forall x :: x in r <==> x in log && x.day == d
  {
    if log == [] then []
    else
      assert log == [log[0]] + log[1..];
      (if log[0].day == d then [log[0]] else []) + SessionsOn(log[1..], d)
  }

  /** Each record of day `d` occurs as often among the day's records as in the log. */
  lemma {:induction false} SessionsOnCounts(log: seq<SessionRecord>, d: int)
    ensures forall x :: multiset(SessionsOn(log, d))[x] == if x.day == d then multiset(log)[x] else 0
  {
    if log != [] {
      SessionsOnCounts(log[1..], d);
      assert log == [log[0]] + log[1..];
    }
  }

  /** The four figures at the top of the history screen. */
  datatype Stats = Stats(totalSessions: nat, totalMinutes: nat, streak: nat, todaySessions: nat)

  /**
   * Statistics of a log on day `today`: the record count, the minutes
   * total, the streak, and the records completed today.
   */
  method CalculateStats(log: seq<SessionRecord>, today: int) returns (s: Stats)
    ensures s.totalSessions == |log| && s.totalMinutes == TotalMinutes(log)
    ensures s.streak == Streak(DaysOf(log), today)
    ensures s.todaySessions == |SessionsOn(log, today)| <= s.totalSessions
    ensures forall x :: x in SessionsOn(log, today) <==> x in log && x.day == today
  {
    var todaySessions := SessionsOn(log, today);
    var streak := CalculateStreak(log, today);
    s := Stats(|log|, TotalMinutes(log), streak, |todaySessions|);
  }

  /**
   * Reordering the stored records changes none of the statistics: the
   * count, the minutes, the set of days (hence the streak) and today's
   * count all depend only on the multiset of records.
   */
  lemma StatsPermutation(a: seq<SessionRecord>, b: seq<SessionRecord>, today: int)
    requires multiset(a) == multiset(b)
    ensures |a| == |b| && TotalMinutes(a) == TotalMinutes(b)
    ensures DaysOf(a) == DaysOf(b)
    ensures Streak(DaysOf(a), today) == Streak(DaysOf(b), today)
    ensures |SessionsOn(a, today)| == |SessionsOn(b, today)|
  {
    assert |a| == |multiset(a)| == |multiset(b)| == |b|;
    TotalMinutesPermutation(a, b);
    DaysPermutation(a, b);
    SessionsOnPermutation(a, b, today);
  }

  lemma DaysPermutation(a: seq<SessionRecord>, b: seq<SessionRecord>)
    requires multiset(a) == multiset(b)
    ensures DaysOf(a) == DaysOf(b)
  {
    forall d | d in DaysOf(a)
      ensures d in DaysOf(b)
    {
      var i :| 0 <= i < |a| && a[i].day == d;
      assert a[i] in multiset(b);
    }
    forall d | d in DaysOf(b)
      ensures d in DaysOf(a)
    {
      var i :| 0 <= i < |b| && b[i].day == d;
      assert b[i] in multiset(a);
    }
  }

  lemma SessionsOnPermutation(a: seq<SessionRecord>, b: seq<SessionRecord>, d: int)
    requires multiset(a) == multiset(b)
    ensures |SessionsOn(a, d)| == |SessionsOn(b, d)|
  {
    var sa, sb := SessionsOn(a, d), SessionsOn(b, d);
    SessionsOnCounts(a, d);
    SessionsOnCounts(b, d);
    assert multiset(sa) == multiset(sb);
    assert |sa| == |multiset(sa)| == |multiset(sb)| == |sb|;
  }

  /**
   * The celebration on opening the history: the month milestone when the
   * streak is at least 30 and the last shown streak is absent or below
   * 30; otherwise the week milestone when the streak is at least 7 and
   * the last shown streak is absent or below 7; otherwise none.
   */
  function CelebrationFor(streak: nat, lastShown: Option<int>): (c: Option<MilestoneKind>)
    ensures c.Some? ==> streak >= 7 && c.value != CenturyStreak
    ensures c == Some(MonthStreak) <==> streak >= 30 && (lastShown.None? || lastShown.value < 30)
    ensures c == Some(WeekStreak) <==>
              && streak >= 7 && (lastShown.None? || lastShown.value < 7)
              && !(streak >= 30 && (lastShown.None? || lastShown.value < 30))
    ensures lastShown.None? ==> (c.Some? <==> streak >= 7)
  {
    if streak >= 30 && (lastShown.None? || lastShown.value < 30) then Some(MonthStreak)
    else if streak >= 7 && (lastShown.None? || lastShown.value < 7) then Some(WeekStreak)
    else None
  }

  /**
   * Once a celebration at streak s1 has been shown (and s1 stored as
   * last shown), a later streak s2 brings only the month milestone, and
   * only when s1 was below 30 and s2 reached 30: the week milestone never
   * shows twice, nor the month one.
   */
  lemma CelebrationNoRefire(s1: nat, last: Option<int>, s2: nat)
    requires CelebrationFor(s1, last).Some?
    ensures CelebrationFor(s2, Some(s1)) == if s1 < 30 && s2 >= 30 then Some(MonthStreak) else None
  {
  }

  /** Index of the first `c` in `s`, or |s| when there is none. */
  function IndexOf(s: string, c: char): (k: nat)
    ensures k <= |s|
    ensures k < |s| ==> s[k] == c
    ensures forall i :: 0 <= i < k ==> s[i] != c
  {
    if s == [] then 0 else if s[0] == c then 0 else 1 + IndexOf(s[1..], c)
  }

  /**
   * Minutes as text: "{h}h {r}m" with h whole hours and r the remaining
   * minutes when there is at least one hour, just "{m}m" otherwise.
   */
  function FormatDuration(minutes: nat): (r: string)
    ensures |r| >= 2 && r[|r| - 1] == 'm'
    ensures minutes >= 60 <==> 'h' in r
  {
    var hours, mins := minutes / 60, minutes % 60;
    assert forall i :: 0 <= i < |Decimal.Show(mins)| ==> Decimal.Show(mins)[i] != 'h';
    if hours > 0 then
      var r := Decimal.Show(hours) + "h " + Decimal.Show(mins) + "m";
      assert r[|Decimal.Show(hours)|] == 'h';
      r
    else
      Decimal.Show(mins) + "m"
  }

  /** Minutes denoted by a duration text: hours before an 'h', minutes before the final 'm'. */
  function ReadDuration(s: string): nat
  {
    if s == [] then 0
    else
      var body := s[..|s| - 1];
      var k := IndexOf(body, 'h');
      if k + 2 <= |body| then Decimal.Read(body[..k]) * 60 + Decimal.Read(body[k + 2..])
      else Decimal.Read(body)
  }

  /**
   * The duration text reads back as the minutes it was made from. From
   * an hour on, the digits before the 'h' are the whole hours and the
   * digits after "h " the remaining minutes, below 60; under an hour the
   * text holds no 'h' and its digits are the minutes.
   */
  lemma FormatDurationReadsBack(minutes: nat)
    ensures ReadDuration(FormatDuration(minutes)) == minutes
    ensures var r := FormatDuration(minutes);
            var body := r[..|r| - 1];
            var k := IndexOf(body, 'h');
            && (minutes >= 60 ==>
                  && k + 2 <= |body| && body[k + 1] == ' '
                  && Decimal.AllDigits(body[..k]) && Decimal.AllDigits(body[k + 2..])
                  && Decimal.Read(body[..k]) == minutes / 60
                  && Decimal.Read(body[k + 2..]) == minutes % 60 < 60)
            && (minutes < 60 ==> k == |body| && Decimal.AllDigits(body) && Decimal.Read(body) == minutes)
  {
    var hours, mins := minutes / 60, minutes % 60;
    HoursAndMinutes(minutes);
    if hours > 0 {
      assert FormatDuration(minutes) == Decimal.Show(hours) + "h " + Decimal.Show(mins) + "m";
      HoursText(hours, mins);
    } else {
      assert FormatDuration(minutes) == Decimal.Show(mins) + "m";
      MinutesText(mins);
    }
  }

  /** The text with hours: the 'h' splits it into the hours and the minutes. */
  lemma HoursText(hours: nat, mins: nat)
    requires hours > 0
    ensures var r := Decimal.Show(hours) + "h " + Decimal.Show(mins) + "m";
            var body := r[..|r| - 1];
            var k := IndexOf(body, 'h');
            && k + 2 <= |body| && body[k + 1] == ' '
            && Decimal.AllDigits(body[..k]) && Decimal.AllDigits(body[k + 2..])
            && Decimal.Read(body[..k]) == hours && Decimal.Read(body[k + 2..]) == mins
            && ReadDuration(r) == hours * 60 + mins
  {
    var h, m := Decimal.Show(hours), Decimal.Show(mins);
    DurationParts(h, m);
    Decimal.ReadShow(hours);
    Decimal.ReadShow(mins);
  }

  /** The text without hours: no 'h', and its digits are the minutes. */
  lemma MinutesText(mins: nat)
    ensures var r := Decimal.Show(mins) + "m";
            var body := r[..|r| - 1];
            && IndexOf(body, 'h') == |body| && Decimal.AllDigits(body) && Decimal.Read(body) == mins
            && ReadDuration(r) == mins
  {
    var m := Decimal.Show(mins);
    var r := m + "m";
    assert r[..|r| - 1] == m;
    assert forall i :: 0 <= i < |m| ==> m[i] != 'h';
    Decimal.ReadShow(mins);
  }

  lemma HoursAndMinutes(minutes: nat)
    ensures minutes / 60 * 60 + minutes % 60 == minutes && minutes % 60 < 60
    ensures minutes >= 60 <==> minutes / 60 > 0
  {
  }

  /** In "{h}h {m}m" with h all digits, the first 'h' splits the text before the final 'm' into h and m. */
  lemma DurationParts(h: string, m: string)
    requires Decimal.AllDigits(h)
    ensures var s := h + "h " + m + "m";
            var body := s[..|s| - 1];
            && body == h + ("h " + m)
            && IndexOf(body, 'h') == |h|
            && body[|h| + 1] == ' ' && body[..|h|] == h && body[|h| + 2..] == m
  {
    var s := h + "h " + m + "m";
    var body := s[..|s| - 1];
    assert body == h + ("h " + m);
    IndexAfterDigits(h, "h " + m);
  }

  /** In digits followed by an 'h', the first 'h' is right after the digits. */
  lemma {:induction false} IndexAfterDigits(digits: string, rest: string)
    requires Decimal.AllDigits(digits) && rest != [] && rest[0] == 'h'
    ensures IndexOf(digits + rest, 'h') == |digits|
  {
    if digits != [] {
      assert (digits + rest)[1..] == digits[1..] + rest;
      assert Decimal.IsDigit(digits[0]);
      IndexAfterDigits(digits[1..], rest);
    }
  }
}
