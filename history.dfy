/**
 * The history screen (components/history-view.tsx) as an object: the
 * loaded session log, its statistics, the month the calendar shows, and
 * the persisted "last shown milestone" streak that keeps a streak
 * celebration from showing twice.
 */
module History {
  import opened Sessions
  import opened Streaks
  import opened Civil
  import opened HistoryStats
  import opened CalendarGrid

  class HistoryView {
    /** The loaded session log, newest first. */
    var sessions: seq<SessionRecord>
    var stats: Stats
    /** A date in the month the calendar shows. */
    var currentDate: CivilDate
    /** The persisted streak of the last celebration shown, if any. */
    var lastShownMilestone: Option<int>

    predicate Valid()
      reads this
    {
      currentDate.Valid()
    }

    /** Opening the screen on date `today` with the persisted last-shown streak. */
    constructor (today: CivilDate, lastShown: Option<int>)
      requires today.Valid()
      ensures Valid()
      ensures sessions == [] && stats == Stats(0, 0, 0, 0)
      ensures currentDate == today && lastShownMilestone == lastShown
    {
      sessions := [];
      stats := Stats(0, 0, 0, 0);
      currentDate := today;
      lastShownMilestone := lastShown;
    }

    /**
     * Decides the streak celebration for `log` on day `today`; when one
     * is shown, the current streak is stored as the last shown one.
     */
    method CheckForMilestoneCelebration(log: seq<SessionRecord>, today: int) returns (shown: Option<MilestoneKind>)
      modifies this`lastShownMilestone
      ensures var streak := Streak(DaysOf(log), today);
              && shown == CelebrationFor(streak, old(lastShownMilestone))
              && lastShownMilestone == if shown.Some? then Some(streak) else old(lastShownMilestone)
    {
      var currentStreak := CalculateStreak(log, today);
      shown := CelebrationFor(currentStreak, lastShownMilestone);
      if shown.Some? {
        lastShownMilestone := Some(currentStreak);
      }
    }

    /**
     * Loading the stored log on day `today`: when a log is stored it
     * becomes the sessions, its statistics are computed and the streak
     * celebration is decided; with nothing stored nothing changes.
     */
    method Load(stored: Option<seq<SessionRecord>>, today: int) returns (shown: Option<MilestoneKind>)
      requires Valid()
      modifies this
      ensures Valid() && currentDate == old(currentDate)
      ensures stored.None? ==> shown == None && sessions == old(sessions) && stats == old(stats)
                               && lastShownMilestone == old(lastShownMilestone)
      ensures stored.Some? ==>
                var log := stored.value;
                var streak := Streak(DaysOf(log), today);
                && sessions == log
                && stats == Stats(|log|, TotalMinutes(log), streak, |SessionsOn(log, today)|)
                && shown == CelebrationFor(streak, old(lastShownMilestone))
                && lastShownMilestone == if shown.Some? then Some(streak) else old(lastShownMilestone)
    {
      shown := None;
      if stored.Some? {
        var log := stored.value;
        sessions := log;
        stats := CalculateStats(log, today);
        shown := CheckForMilestoneCelebration(log, today);
      }
    }

    /** Shows the month before or after, one month exactly, clamping the day of month. */
    method NavigateMonth(dir: Direction)
      requires Valid()
      modifies this`currentDate
      ensures Valid()
      ensures currentDate == CalendarGrid.NavigateMonth(old(currentDate), dir)
    {
      currentDate := CalendarGrid.NavigateMonth(currentDate, dir);
    }

    /**
     * The 42 day cells of the shown month on day `today`: consecutive days
     * from the Sunday on or before the first of the month, covering every
     * day of the month, exactly those marked as in the current month, and
     * at most one marked as today.
     */
    method RenderCalendar(today: int) returns (days: seq<DayCell>)
      requires Valid()
      ensures var (y, m) := (currentDate.year, currentDate.month);
              && IsGrid(days, sessions, y, m, today)
              && |days| == GridCells
              && Weekday(days[0].date) == 0
              && MonthStart(y, m) - 6 <= days[0].date <= MonthStart(y, m)
              && (forall i :: 0 <= i < GridCells ==> days[i].date == days[0].date + i)
              && (forall i :: 0 <= i < GridCells ==> (days[i].isCurrentMonth <==> InMonth(days[i].date, y, m)))
              && (forall d :: InMonth(d, y, m) ==> exists i :: 0 <= i < GridCells && days[i].date == d)
              && (forall i, j :: 0 <= i < j < GridCells && days[i].isToday ==> !days[j].isToday)
    {
      var y, m := currentDate.year, currentDate.month;
      var start := GridStart(y, m);
      var date := start;
      days := [];
      for i := 0 to GridCells
        invariant date == start + i
        invariant days == Grid(sessions, y, m, today, start, i)
      {
        GridSnoc(sessions, y, m, today, start, i, date);
        days := days + [CellFor(sessions, y, m, date, today)];
        date := date + 1;
      }
      GridShape(days, sessions, y, m, today);
    }
  }

  /**
   * Opening the history twice on the same day with the same log shows a
   * streak celebration at most the first time.
   */
  method CelebrationShowsOnce(view: HistoryView, log: seq<SessionRecord>, today: int)
    returns (first: Option<MilestoneKind>, second: Option<MilestoneKind>)
    modifies view
    ensures first == CelebrationFor(Streak(DaysOf(log), today), old(view.lastShownMilestone))
    ensures second == None
  {
    first := view.CheckForMilestoneCelebration(log, today);
    second := view.CheckForMilestoneCelebration(log, today);
  }
}
