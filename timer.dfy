/**
 * The countdown of one themed session (components/pomodoro-timer.tsx):
 * settings lookup with defaults, the one-second tick, pause, reset and
 * manual mode switching, the completion path that records the interval
 * in a newest-first history capped at 100 records, and the exact-match
 * streak milestone check that follows it.
 */
module Timer {
  import opened Sessions
  import opened Streaks
  import Decimal

  /** The persisted settings: minutes per session type, possibly missing entries. */
  type SettingsStore = map<SessionType, Durations>

  /** Most records the session history keeps. */
  const MaxHistory: nat := 100

  /**
   * Effective settings of a session type: the stored entry when the
   * store and the entry exist, the built-in defaults otherwise.
   */
  function SessionSettings(store: Option<SettingsStore>, t: SessionType): (d: Durations)
    ensures store.Some? && t in store.value ==> d == store.value[t]
    ensures store.None? || t !in store.value ==> d == DefaultDurations(t)
  {
    match store
    case Some(all) => if t in all then all[t] else DefaultDurations(t)
    case None => DefaultDurations(t)
  }

  /** `n.toString().padStart(2, "0")`: at least two digits, reading back as n. */
  function TwoDigits(n: nat): (r: string)
    ensures 2 <= |r| && (n < 100 ==> |r| == 2)
    ensures Decimal.AllDigits(r) && Decimal.Read(r) == n
  {
    assert n >= 10 ==> |Decimal.Show(n / 10)| == 1 || n >= 100;
    Decimal.ReadPadded(n, 2);
    Decimal.PadStart(Decimal.Show(n), 2, '0')
  }

  lemma ClockParts(mins: string, secs: string)
    requires |secs| == 2
    requires Decimal.AllDigits(mins) && Decimal.AllDigits(secs)
    ensures var r := mins + ":" + secs;
            && |r| == |mins| + 3 && r[..|r| - 3] == mins && r[|r| - 3] == ':' && r[|r| - 2..] == secs
            && forall i :: 0 <= i < |r| && i != |r| - 3 ==> Decimal.IsDigit(r[i])
  {
    var r := mins + ":" + secs;
    forall i | 0 <= i < |r| && i != |r| - 3
      ensures Decimal.IsDigit(r[i])
    {
      if i < |mins| {
        assert r[i] == mins[i];
      } else {
        assert r[i] == secs[i - |mins| - 1];
      }
    }
  }

  /**
   * "MM:SS": whole minutes and remaining seconds, each zero-padded to two
   * digits; the minutes part grows past two digits from 100 minutes on.
   */
  function FormatTime(seconds: nat): (r: string)
    ensures 5 <= |r| && r[|r| - 3] == ':'
  {
    TwoDigits(seconds / 60) + ":" + TwoDigits(seconds % 60)
  }

  /** Seconds in `mins` minutes and `secs` seconds. */
  function ClockValue(mins: nat, secs: nat): nat
  {
    mins * 60 + secs
  }

  /** Seconds denoted by a "M...M:SS" text: minutes before the colon, seconds after it. */
  function ReadClock(r: string): nat
    requires |r| >= 3
  {
    ClockValue(Decimal.Read(r[..|r| - 3]), Decimal.Read(r[|r| - 2..]))
  }

  /**
   * The clock text reads back as the number of seconds: digits around a
   * colon three places from the end, a seconds part below 60, and
   * exactly five characters below 100 minutes.
   */
  lemma FormatTimeReadsBack(seconds: nat)
    ensures var r := FormatTime(seconds);
            && (seconds < 6000 ==> |r| == 5)
            && (forall i :: 0 <= i < |r| && i != |r| - 3 ==> Decimal.IsDigit(r[i]))
            && Decimal.Read(r[|r| - 2..]) < 60
            && ReadClock(r) == seconds
  {
    var q, rem := seconds / 60, seconds % 60;
    MinutesAndSeconds(seconds);
    ClockReadsBack(q, rem);
    var r := TwoDigits(q) + ":" + TwoDigits(rem);
    assert FormatTime(seconds) == r;
  }

  lemma MinutesAndSeconds(seconds: nat)
    ensures seconds % 60 < 60 && ClockValue(seconds / 60, seconds % 60) == seconds
    ensures seconds < 6000 ==> seconds / 60 < 100
  {
  }

  lemma ClockReadsBack(q: nat, rem: nat)
    requires rem < 100
    ensures var r := TwoDigits(q) + ":" + TwoDigits(rem);
            && |r| >= 5 && r[|r| - 3] == ':'
            && (q < 100 ==> |r| == 5)
            && (forall i :: 0 <= i < |r| && i != |r| - 3 ==> Decimal.IsDigit(r[i]))
            && Decimal.Read(r[|r| - 2..]) == rem
            && ReadClock(r) == ClockValue(q, rem)
  {
    var mins, secs := TwoDigits(q), TwoDigits(rem);
    ClockParts(mins, secs);
  }

  /** What one tick of the interval does to the remaining seconds. */
  datatype TickOutcome = Counting(left: nat) | Completed

  /** A tick with more than one second left counts down; otherwise it completes. */
  function TickStep(timeLeft: nat): (r: TickOutcome)
    ensures r.Completed? <==> timeLeft <= 1
    ensures r.Counting? ==> r.left + 1 == timeLeft
  {
    if timeLeft <= 1 then Completed else Counting(timeLeft - 1)
  }

  /** The outcome of k ticks from `t` seconds; once completed the interval is cleared. */
  function AfterTicks(t: nat, k: nat): (r: TickOutcome)
    ensures r.Counting? ==> r.left + k == t
    ensures k > t ==> r == Completed
  {
    if k == 0 then Counting(t)
    else match AfterTicks(t, k - 1)
      case Completed => Completed
      case Counting(p) => TickStep(p)
  }

  /**
   * From t >= 1 seconds the countdown completes on exactly the t-th
   * tick and shows t-k after k < t ticks; from 0 it completes on the
   * very next tick.
   */
  lemma {:induction false} CompletesOnTick(t: nat, k: nat)
    ensures AfterTicks(t, k) == if k == 0 then Counting(t) else if k < t then Counting(t - k) else Completed
  {
    if k > 0 {
      CompletesOnTick(t, k - 1);
    }
  }

  /** `s` cut to its first `n` elements when longer (`Array.splice(n)`). */
  function Take<T>(s: seq<T>, n: nat): (r: seq<T>)
    ensures |r| == if |s| <= n then |s| else n
    ensures r == s[..|r|]
  {
    if |s| <= n then s else s[..n]
  }

  /**
   * Recording a session: the new record goes first, the old ones follow
   * in order, and the oldest beyond 100 are evicted.
   */
  function Record(log: seq<SessionRecord>, rec: SessionRecord): (r: seq<SessionRecord>)
    ensures |r| == if |log| + 1 <= MaxHistory then |log| + 1 else MaxHistory
    ensures r[0] == rec
    ensures forall i :: 1 <= i < |r| ==> r[i] == log[i - 1]
  {
    Take([rec] + log, MaxHistory)
  }

  function Reversed<T>(s: seq<T>): (r: seq<T>)
    ensures |r| == |s|
  {
    if s == [] then [] else [s[|s| - 1]] + Reversed(s[..|s| - 1])
  }

  lemma TakeAfterPrepend<T>(x: T, s: seq<T>, n: nat)
    requires n >= 1
    ensures Take([x] + Take(s, n), n) == Take([x] + s, n)
  {
    if |s| > n {
      assert ([x] + s[..n])[..n] == ([x] + s)[..n];
    }
  }

  /** Recording each of `recs` in turn, oldest first. */
  function RecordAll(log: seq<SessionRecord>, recs: seq<SessionRecord>): seq<SessionRecord>
  {
    if recs == [] then log else Record(RecordAll(log, recs[..|recs| - 1]), recs[|recs| - 1])
  }

  /**
   * After recording several sessions the history holds the newest 100 of
   * them all, newest first: recording 101 sessions onto an empty history
   * keeps the last 100 and evicts the first.
   */
  lemma {:induction false} RecordAllKeepsNewest(log: seq<SessionRecord>, recs: seq<SessionRecord>)
    requires |log| <= MaxHistory
    ensures RecordAll(log, recs) == Take(Reversed(recs) + log, MaxHistory)
  {
    if recs != [] {
      var init, last := recs[..|recs| - 1], recs[|recs| - 1];
      RecordAllKeepsNewest(log, init);
      var older := Reversed(init) + log;
      assert Reversed(recs) == [last] + Reversed(init);
      assert Reversed(recs) + log == [last] + older;
      assert RecordAll(log, recs) == Take([last] + Take(older, MaxHistory), MaxHistory);
      TakeAfterPrepend(last, older, MaxHistory);
    }
  }

  /**
   * The live milestone signal after a completion: a week at a streak of
   * exactly 7, a month at exactly 30, a century at every positive
   * multiple of 100, nothing otherwise.
   */
  function MilestoneFor(streak: nat): (m: Option<MilestoneKind>)
    ensures m == Some(WeekStreak) <==> streak == 7
    ensures m == Some(MonthStreak) <==> streak == 30
    ensures m == Some(CenturyStreak) <==> streak > 0 && streak % 100 == 0
  {
    if streak == 7 then Some(WeekStreak)
    else if streak == 30 then Some(MonthStreak)
    else if streak % 100 == 0 && streak > 0 then Some(CenturyStreak)
    else None
  }

  /**
   * The streak milestone check on the stored history: nothing when no
   * history is stored, otherwise the milestone of the current streak.
   */
  method CheckStreakMilestones(stored: Option<seq<SessionRecord>>, today: int) returns (m: Option<MilestoneKind>)
    ensures stored.None? ==> m == None
    ensures stored.Some? ==> m == MilestoneFor(Streak(DaysOf(stored.value), today))
  {
    if stored.None? {
      return None;
    }
    var streak := CalculateStreak(stored.value, today);
    m := MilestoneFor(streak);
  }

  /** The timer's visible state, for stating what a transition leaves unchanged. */
  datatype TimerState = TimerState(
    settings: Durations,
    mode: TimerMode,
    timeLeft: nat,
    isRunning: bool,
    completedPomodoros: nat,
    completedMode: TimerMode,
    showCongratulations: bool,
    milestone: Option<MilestoneKind>,
    history: seq<SessionRecord>,
    intervalSettings: Durations)

  class PomodoroTimer {
    const sessionType: SessionType
    var settings: Durations
    var mode: TimerMode
    var timeLeft: nat
    var isRunning: bool
    var completedPomodoros: nat
    /** Mode of the last completed interval, shown by the congratulations dialog. */
    var completedMode: TimerMode
    var showCongratulations: bool
    /** The streak milestone announced by the last completion, if any. */
    var milestone: Option<MilestoneKind>
    /** The persisted session history, newest first. */
    var history: seq<SessionRecord>
    /**
     * The settings the running interval's completion handler sees: the
     * interval calls the handler created in the render where Start was
     * pressed, so settings changed while it runs do not reach it.
     */
    var intervalSettings: Durations

    function State(): TimerState
      reads this
    {
      TimerState(settings, mode, timeLeft, isRunning, completedPomodoros,
                 completedMode, showCongratulations, milestone, history, intervalSettings)
    }

    /**
     * Seconds elapsed in the current interval (the numerator of the
     * progress percentage): 0 at the full time, never more than the full
     * time, and negative when the time left exceeds the current settings.
     */
    function Elapsed(): (e: int)
      reads this
      ensures e <= settings.Minutes(mode) * 60
      ensures e == 0 <==> timeLeft == settings.Minutes(mode) * 60
      ensures e < 0 <==> timeLeft > settings.Minutes(mode) * 60
    {
      settings.Minutes(mode) * 60 - timeLeft
    }

    /** Mounting the timer for a session type with the stored settings and history. */
    constructor (t: SessionType, store: Option<SettingsStore>, storedHistory: seq<SessionRecord>)
      ensures sessionType == t
      ensures settings == SessionSettings(store, t)
      ensures mode == Work && timeLeft == settings.work * 60 && !isRunning
      ensures completedPomodoros == 0
      ensures !showCongratulations && milestone == None && completedMode == Work
      ensures history == storedHistory && intervalSettings == settings
    {
      sessionType := t;
      settings := SessionSettings(store, t);
      timeLeft := SessionSettings(store, t).work * 60;
      isRunning := false;
      mode := Work;
      completedPomodoros := 0;
      completedMode := Work;
      showCongratulations := false;
      milestone := None;
      history := storedHistory;
      intervalSettings := settings;
    }

    /**
     * Start: the interval begins ticking from the current remaining time,
     * with a completion handler that sees the current settings.
     */
    method Start()
      modifies this
      ensures State() == old(State()).(isRunning := true, intervalSettings := old(settings))
    {
      isRunning, intervalSettings := true, settings;
    }

    /** Pause: ticking stops and the remaining time is frozen. */
    method Pause()
      modifies this
      ensures State() == old(State()).(isRunning := false)
    {
      isRunning := false;
    }

    /** Reset: stop and refill the current mode's full duration. */
    method Reset()
      modifies this
      ensures State() == old(State()).(isRunning := false, timeLeft := old(settings.Minutes(mode)) * 60)
      ensures Elapsed() == 0
    {
      Pause();
      timeLeft := settings.Minutes(mode) * 60;
    }

    /** Manual mode switch: stop, change mode and load its full duration. */
    method SwitchMode(newMode: TimerMode)
      modifies this
      ensures State() == old(State()).(isRunning := false, mode := newMode, timeLeft := old(settings.Minutes(newMode)) * 60)
      ensures Elapsed() == 0
    {
      Pause();
      mode := newMode;
      timeLeft := settings.Minutes(newMode) * 60;
    }

    /**
     * Writes one record of this timer's session type at the head of the
     * stored history, evicting the oldest beyond 100.
     */
    method SaveSessionToHistory(m: TimerMode, duration: nat, interrupted: bool, now: int, today: int)
      modifies this`history
      ensures history == Record(old(history), SessionRecord(now, sessionType, m, duration, today, interrupted))
    {
      var session := SessionRecord(now, sessionType, m, duration, today, interrupted);
      history := Record(history, session);
    }

    /**
     * The bookkeeping of a completion: stop, record the interval with the
     * minutes configured when it was started, count it if it was a work
     * interval and open the congratulations dialog for the completed mode.
     */
    method RecordCompletion(now: int, today: int)
      modifies this
      ensures State() == old(State()).(
                isRunning := false,
                history := Record(old(history), SessionRecord(now, sessionType, old(mode), old(intervalSettings.Minutes(mode)), today, false)),
                completedPomodoros := old(completedPomodoros) + (if old(mode) == Work then 1 else 0),
                completedMode := old(mode),
                showCongratulations := true)
    {
      var completed := mode;
      SaveSessionToHistory(completed, intervalSettings.Minutes(completed), false, now, today);
      var count := completedPomodoros + if completed == Work then 1 else 0;
      isRunning, completedPomodoros, completedMode, showCongratulations := false, count, completed, true;
    }

    /**
     * Completion: the bookkeeping above, then the streak milestone check
     * on the updated history. The mode does not advance.
     */
    method HandleTimerComplete(now: int, today: int)
      modifies this
      ensures var rec := SessionRecord(now, sessionType, old(mode), old(intervalSettings.Minutes(mode)), today, false);
              State() == old(State()).(
                isRunning := false,
                history := Record(old(history), rec),
                completedPomodoros := old(completedPomodoros) + (if old(mode) == Work then 1 else 0),
                completedMode := old(mode),
                showCongratulations := true,
                milestone := MilestoneFor(Streak(DaysOf(Record(old(history), rec)), today)))
    {
      RecordCompletion(now, today);
      milestone := CheckStreakMilestones(Some(history), today);
    }

    /**
     * One second of the running interval, at instant `now` on day
     * `today`: more than one second left counts down by one; otherwise
     * the time drops to 0 and the completion path runs.
     */
    method Tick(now: int, today: int)
      requires isRunning
      modifies this
      ensures TickStep(old(timeLeft)).Counting? ==>
                && State() == old(State()).(timeLeft := TickStep(old(timeLeft)).left)
                && Elapsed() == old(Elapsed()) + 1
      ensures TickStep(old(timeLeft)).Completed? ==>
                var rec := SessionRecord(now, sessionType, old(mode), old(intervalSettings.Minutes(mode)), today, false);
                && State() == old(State()).(
                     timeLeft := 0,
                     isRunning := false,
                     history := Record(old(history), rec),
                     completedPomodoros := old(completedPomodoros) + (if old(mode) == Work then 1 else 0),
                     completedMode := old(mode),
                     showCongratulations := true,
                     milestone := MilestoneFor(Streak(DaysOf(Record(old(history), rec)), today)))
    {
      if timeLeft <= 1 {
        HandleTimerComplete(now, today);
        timeLeft := 0;
      } else {
        timeLeft := timeLeft - 1;
      }
    }

    /**
     * A settings-changed broadcast: the entry for this session type (or
     * the defaults) replaces the settings; a stopped timer also reloads
     * the current mode's duration, a running one keeps counting.
     */
    method HandleSettingsChange(detail: SettingsStore)
      modifies this
      ensures var s := SessionSettings(Some(detail), sessionType);
              State() == old(State()).(settings := s,
                                       timeLeft := if old(isRunning) then old(timeLeft) else s.Minutes(mode) * 60)
    {
      var newSettings := SessionSettings(Some(detail), sessionType);
      settings := newSettings;
      if !isRunning {
        timeLeft := newSettings.Minutes(mode) * 60;
      }
    }

    /** A storage event from another tab: re-read the stored settings, same reconciliation. */
    method HandleStorageChange(store: Option<SettingsStore>)
      modifies this
      ensures var s := SessionSettings(store, sessionType);
              State() == old(State()).(settings := s,
                                       timeLeft := if old(isRunning) then old(timeLeft) else s.Minutes(mode) * 60)
    {
      var newSettings := SessionSettings(store, sessionType);
      settings := newSettings;
      if !isRunning {
        timeLeft := newSettings.Minutes(mode) * 60;
      }
    }

    /** Closing the congratulations dialog. */
    method CloseCongratulations()
      modifies this
      ensures State() == old(State()).(showCongratulations := false)
    {
      showCongratulations := false;
    }
  }

  /**
   * Pause then start resumes from exactly the remaining time at the
   * pause; only the settings the new interval's handler sees are
   * refreshed to the current ones.
   */
  method PauseResumeKeepsTime(timer: PomodoroTimer)
    requires timer.isRunning
    modifies timer
    ensures timer.isRunning
    ensures timer.State() == old(timer.State()).(intervalSettings := old(timer.settings))
  {
    timer.Pause();
    timer.Start();
  }

  /**
   * Settings read from storage while an interval runs change the timer's
   * settings but not what its completion records: the interval completing
   * on the next tick records the minutes configured when it was started.
   */
  method SettingsChangeWhileRunning(timer: PomodoroTimer, store: Option<SettingsStore>, now: int, today: int)
    requires timer.timeLeft <= 1
    modifies timer
    ensures timer.settings == SessionSettings(store, timer.sessionType)
    ensures timer.history == Record(old(timer.history),
              SessionRecord(now, timer.sessionType, old(timer.mode), old(timer.settings.Minutes(timer.mode)), today, false))
  {
    timer.Start();
    timer.HandleStorageChange(store);
    timer.Tick(now, today);
  }
}
