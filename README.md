# Marvodoro core in Dafny

A verified model of the core of Marvodoro, a themed Pomodoro timer web app:

- The countdown screen (`components/pomodoro-timer.tsx`). It covers:
  - settings lookup with per-type defaults;
  - the one-second tick, pause, reset and manual mode switch;
  - the completion path, which records the interval in a newest-first
    history capped at 100 records, counts work intervals and runs the
    exact-match streak milestone check;
  - reconciliation of settings broadcasts and storage events;
  - the "MM:SS" clock text.
- The history screen (`components/history-view.tsx`). It covers:
  - the statistics;
  - the consecutive-day streak;
  - the "celebrate once" milestone logic backed by the persisted
    last-shown streak;
  - the "1h 5m" duration text;
  - the 42-day month calendar with its per-day `type-mode` grouping;
  - month navigation.
- The settings screen (`components/settings-view.tsx`). It covers:
  - field edits clamped to 1–120 minutes;
  - reset to defaults;
  - the guarded save, which persists the settings and broadcasts them to
    running timers.
- The page (`app/page.tsx`): view switching, the session type chosen for
  the timer, and the persisted user name.

Dates are day numbers, with day 0 = 1 January 1970, a Thursday.
`Civil` gives the proleptic Gregorian calendar on them:
- month starts;
- month lengths;
- weekdays, where 0 = Sunday, as `Date.getDay` returns them.

A record's `completedAt` is kept as the instant `id` and the calendar day
`day` on which it was completed. Every comparison the source makes through
`toDateString()` is a comparison of `day`.

Modules, one per file:
- `sessions.dfy` (Sessions): the shared record and duration types.
- `civil.dfy` (Civil): calendar arithmetic.
- `decimal.dfy` (Decimal): decimal text of naturals.
- `streaks.dfy` (Streaks): the streak.
- `timer.dfy` (Timer): the countdown screen, as the class `PomodoroTimer`.
- `history_stats.dfy` (HistoryStats): the history screen's statistics and texts.
- `calendar_grid.dfy` (CalendarGrid): the history screen's calendar.
- `history.dfy` (History): the history screen, as the class `HistoryView`.
- `settings.dfy` (Settings): the settings screen, as the class `SettingsEditor`.
- `app.dfy` (App): the page, as the class `Page`.

## Model

| member | source | states |
|---|---|---|
| Sessions.DefaultDurations | components/pomodoro-timer.tsx:39-50 | The per-type defaults are 25/5/15, 30/10/20 and 15/5/10. Each lies within 1–120 and has short break < long break < work. |
| Sessions.DaysOf | components/history-view.tsx:128-130 | A day is among a log's completion days exactly when some record of the log was completed on it. |
| Timer.SessionSettings | components/pomodoro-timer.tsx:30-37 | A timer uses the stored entry for its session type when a store and that entry exist. Otherwise it uses that type's defaults. |
| Timer.TwoDigits | components/pomodoro-timer.tsx:116 | `padStart(2, "0")` of a number gives at least two digits, exactly two below 100, and reads back as the number. |
| Timer.FormatTime | components/pomodoro-timer.tsx:113-117 | The clock text has at least five characters with the colon three places from the end. |
| Timer.FormatTimeReadsBack | components/pomodoro-timer.tsx:113-117 | The clock text has digits around a colon three places from the end and seconds below 60. It is exactly five characters below 100 minutes and reads back as the seconds it shows. |
| Timer.TickStep | components/pomodoro-timer.tsx:128-133 | One tick completes exactly when at most one second is left; otherwise it leaves one second less. |
| Timer.AfterTicks | components/pomodoro-timer.tsx:128-133 | While counting, the ticks taken and the seconds left add up to the starting seconds; more ticks than seconds always complete. |
| Timer.CompletesOnTick | components/pomodoro-timer.tsx:127-135 | From t ≥ 1 seconds the countdown shows t−k after k < t ticks and completes on exactly the t-th tick. From 0 it completes on the next tick. |
| Timer.Take | components/pomodoro-timer.tsx:167-169 | `splice(100)` keeps the first min(n, length) elements in order. |
| Timer.Record | components/pomodoro-timer.tsx:163-171 | Recording puts the new record first and the old ones after it in order. The length is capped at 100. |
| Timer.RecordAllKeepsNewest | components/pomodoro-timer.tsx:163-171 | After any number of recordings the history is the newest 100 of all records, newest first. |
| Timer.MilestoneFor | components/pomodoro-timer.tsx:236-240 | The live milestone is week exactly at a streak of 7, month exactly at 30, century exactly at positive multiples of 100, and none otherwise. |
| Timer.CheckStreakMilestones | components/pomodoro-timer.tsx:209-241 | With no stored history there is no milestone. Otherwise the result is the milestone of the stored history's streak on the current day. |
| Timer.PomodoroTimer.constructor | components/pomodoro-timer.tsx:52-59 | Mounting gives the effective settings, work mode with its full time, stopped, no completions, no dialog and the stored history. |
| Timer.PomodoroTimer.Start | components/pomodoro-timer.tsx:124-136 | Starting sets running and fixes the settings the new interval's completion handler sees to the current ones. Nothing else changes. |
| Timer.PomodoroTimer.Pause | components/pomodoro-timer.tsx:138-145 | Pausing clears running and freezes everything else, including the remaining time. |
| Timer.PomodoroTimer.Reset | components/pomodoro-timer.tsx:147-151 | Reset stops and refills the current mode's full time, so elapsed time is 0. Nothing else changes. |
| Timer.PomodoroTimer.SwitchMode | components/pomodoro-timer.tsx:325-330 | A manual switch stops, sets the mode and loads that mode's full time, so elapsed time is 0. Nothing else changes. |
| Timer.PomodoroTimer.SaveSessionToHistory | components/pomodoro-timer.tsx:153-172 | The history becomes `Record` of the old history and a record of this timer's session type with the given mode, minutes and interrupted flag. |
| Timer.PomodoroTimer.RecordCompletion | components/pomodoro-timer.tsx:294-304 | Completion bookkeeping stops the timer and records the mode's minutes as configured when the timer was started. It counts the interval only when it is a work interval and opens the dialog for the completed mode. The mode does not advance. |
| Timer.PomodoroTimer.HandleTimerComplete | components/pomodoro-timer.tsx:294-323 | Completion does the bookkeeping above. It then sets the milestone of the streak of the updated history. Nothing else changes. |
| Timer.PomodoroTimer.Tick | components/pomodoro-timer.tsx:127-135 | A tick with more than one second left lowers it by one and raises elapsed time by one. Otherwise the time becomes 0 and the whole completion path runs, recording the minutes of the settings seen at start. |
| Timer.PomodoroTimer.HandleSettingsChange | components/pomodoro-timer.tsx:82-101 | A broadcast's entry for this type, or the defaults, becomes the settings. A stopped timer reloads the current mode's time; a running one keeps its time. |
| Timer.PomodoroTimer.HandleStorageChange | components/pomodoro-timer.tsx:74-80 | A storage event re-reads the stored settings with the same reconciliation. |
| Timer.PomodoroTimer.Elapsed | components/pomodoro-timer.tsx:119-122 | The elapsed seconds, the numerator of the progress, never exceed the mode's full time. They are 0 exactly at the full time and negative exactly above it. |
| Timer.PomodoroTimer.CloseCongratulations | components/pomodoro-timer.tsx:944 | Closing the dialog changes nothing else. |
| Timer.PauseResumeKeepsTime | components/pomodoro-timer.tsx:124-145 | Pause then start leaves the whole state as it was, including the remaining time. Only the settings the new interval's handler sees are refreshed to the current ones. |
| Timer.SettingsChangeWhileRunning | components/pomodoro-timer.tsx:124-136 | Settings stored while a timer runs become its settings, but the interval that completes still records the minutes configured at start. |
| Streaks.InsertDescending | components/history-view.tsx:128-130 | Insertion keeps a strictly descending sequence strictly descending and adds exactly the one day. |
| Streaks.DistinctDaysDescending | components/history-view.tsx:128-130 | The distinct completion days, strictly descending: the same days as the log, without duplicates, newest first. |
| Streaks.RunLengthMeaning | components/history-view.tsx:135-145 | A run of n from day d means days d−n+1 … d are present and day d−n is absent. |
| Streaks.StreakAtMostDays | components/history-view.tsx:125-148 | A streak never exceeds the number of distinct completion days. |
| Streaks.StreakNeedsToday | components/history-view.tsx:135-145 | Without a record today the streak is 0. |
| Streaks.SameDayCountsOnce | components/history-view.tsx:128-130 | Another record on an existing completion day leaves the days, and so the streak, unchanged. |
| Streaks.StreakExamples | components/history-view.tsx:125-148 | Days {today, today−1, today−2} give 3. Days {today, today−2} give 1. |
| Streaks.WalkIsStreak | components/history-view.tsx:135-145 | The source's walk over strictly descending days, counting while the i-th is today−i, equals the streak. |
| Streaks.CalculateStreak | components/history-view.tsx:125-148 | The loop returns `Streak(DaysOf(log), today)`: 0 for an empty log or a future-dated newest day, else the run of days ending today. |
| HistoryStats.TotalMinutesBounds | components/history-view.tsx:119 | Every record's minutes are part of the total, and the total is 0 exactly when every record has 0 minutes. |
| HistoryStats.TotalMinutesAppend | components/history-view.tsx:119 | The minutes total of a concatenation is the sum of the totals. |
| HistoryStats.TotalMinutesPermutation | components/history-view.tsx:119 | The minutes total depends only on the multiset of records. |
| HistoryStats.SessionsOn | components/history-view.tsx:115 | Today's records are exactly the log's records of that day. There are no more of them than records. |
| HistoryStats.CalculateStats | components/history-view.tsx:113-123 | The statistics give the record count, the minutes total and the streak. Today's count is that of exactly the log's records of today, and it is at most the total. |
| HistoryStats.StatsPermutation | components/history-view.tsx:113-123 | Reordering the stored records changes none of the four statistics. |
| HistoryStats.CelebrationFor | components/history-view.tsx:44-49 | Month is shown iff the streak is ≥ 30 and the last shown streak is absent or < 30. Week is shown iff the streak is ≥ 7, the last shown streak is absent or < 7, and month is not shown. Anything shown needs a streak ≥ 7 and is never the century milestone. With nothing shown before, something is shown iff the streak is ≥ 7. |
| HistoryStats.CelebrationNoRefire | components/history-view.tsx:39-68 | Once a celebration at streak s1 is stored, a later streak s2 brings only the month milestone, and only if s1 < 30 ≤ s2. |
| HistoryStats.FormatDuration | components/history-view.tsx:150-154 | The text ends in "m" and holds an "h" iff there is at least one hour. |
| HistoryStats.FormatDurationReadsBack | components/history-view.tsx:150-154 | Reading the hours before "h" and the minutes before the final "m" gives back the minutes. From an hour on, the digits before "h" are the whole hours and those after "h " the remaining minutes, below 60. Under an hour there is no "h" and the digits are the minutes. |
| History.HistoryView.constructor | components/history-view.tsx:14-22 | The screen opens with no sessions, zero statistics, today's date and the persisted last-shown streak. |
| History.HistoryView.CheckForMilestoneCelebration | components/history-view.tsx:39-68 | The celebration is `CelebrationFor` of the log's streak and the stored last-shown streak. A shown celebration stores the current streak as last shown. |
| History.HistoryView.Load | components/history-view.tsx:24-37 | A stored log becomes the sessions with its statistics and celebration. With nothing stored nothing changes. |
| History.HistoryView.NavigateMonth | components/history-view.tsx:182-190 | The shown date moves exactly one month, with the day of month clamped: the corrected navigation (see Findings). |
| History.HistoryView.RenderCalendar | components/history-view.tsx:192-233 | The 42 cells are consecutive days from a Sunday at most 6 days before the 1st, covering every day of the month. Exactly the month's days are marked current. At most one cell is marked today. |
| History.CelebrationShowsOnce | components/history-view.tsx:39-68 | Checking twice with the same log on the same day celebrates at most the first time. |
| Civil.MonthsFillYear | components/history-view.tsx:195-196 | The twelve month lengths add up to the year's length. |
| Civil.MonthsAdjacent | components/history-view.tsx:195-196 | The next month starts the day after the last day of the month (`new Date(y, m + 1, 0)`). |
| Civil.EpochIsThursday | components/history-view.tsx:198 | Day 0 is a Thursday, which anchors `getDay`. |
| Civil.CivilDate.DayNumber | components/history-view.tsx:195 | A valid date's day number lies within its month. |
| Decimal.Show | components/history-view.tsx:153 | `toString()` of a natural is non-empty digits with no leading zero, and one digit exactly below 10. |
| Decimal.ReadShow | components/history-view.tsx:153 | The decimal text reads back as the number. |
| Decimal.PadStart | components/pomodoro-timer.tsx:116 | `padStart(width, c)` reaches the width when shorter, ends with the original text and fills the front with `c`. |
| Decimal.ReadPadded | components/pomodoro-timer.tsx:116 | Zero-padding keeps the value. |
| CalendarGrid.GridStart | components/history-view.tsx:195-198 | The grid's first day is a Sunday at most 6 days before the first of the month. |
| CalendarGrid.GridMonth | components/history-view.tsx:206 | A grid day's `getMonth()` is the shown month iff the day lies in the shown month, so comparing month numbers equals the in-month test. |
| CalendarGrid.AddToGroups | components/history-view.tsx:209-220 | One reduce step leaves a non-empty list with at most one group more. |
| CalendarGrid.AddToGroupsSums | components/history-view.tsx:209-220 | One reduce step adds one record and its minutes, and adds a group only for a new key. |
| CalendarGrid.AddToGroupsKeys | components/history-view.tsx:209-220 | One reduce step adds the record's key to the keys. |
| CalendarGrid.AddToGroupsDistinct | components/history-view.tsx:209-220 | One reduce step keeps the keys distinct. |
| CalendarGrid.AddToGroupsElements | components/history-view.tsx:209-220 | One reduce step changes only the record's group, by one record and its minutes. A new key gets a one-record group at the end. |
| CalendarGrid.AddToGroupsOthers | components/history-view.tsx:209-220 | One reduce step leaves every group of another key in place. |
| CalendarGrid.AddToGroupsHit | components/history-view.tsx:209-220 | With distinct keys, one reduce step adds the record and its minutes to its key's group. |
| CalendarGrid.AddToGroupsNew | components/history-view.tsx:209-220 | A record of a new key gets a one-record group right after the existing ones. |
| CalendarGrid.GroupBy | components/history-view.tsx:209-220 | There are no more groups than records, and none exactly when there are no records. |
| CalendarGrid.GroupByPartition | components/history-view.tsx:209-220 | The groups have distinct keys that are exactly the records' keys. Each group holds the count and minutes of its key's records, and they add up to the day's count and minutes. |
| CalendarGrid.CellFor | components/history-view.tsx:204-230 | A cell holds exactly the log's records of its day, its count and minutes. It is current-month iff the day is in the month and today iff it is today. |
| CalendarGrid.CellSessionsCounts | components/history-view.tsx:204 | A cell holds each record of its day as many times as the log does, and no other record. |
| CalendarGrid.CellGroups | components/history-view.tsx:209-229 | A cell's `sessionsByType` partitions its records by type and mode. |
| CalendarGrid.GridSnoc | components/history-view.tsx:203-231 | One more loop iteration appends the cell of the next day to the cells before. |
| CalendarGrid.GridAt | components/history-view.tsx:203-233 | Cell i is the cell of the i-th day after the start. |
| CalendarGrid.GridShape | components/history-view.tsx:192-233 | The grid has 42 consecutive days from a Sunday, covers the month, marks exactly its days as current and marks at most one day as today. |
| CalendarGrid.NavigateMonthAsWritten | components/history-view.tsx:182-190 | `setMonth(m ± 1)` keeps the day of month, so it lands on that day counted from the 1st of the target month, even past its end. |
| CalendarGrid.NavigateMonthOverflows | components/history-view.tsx:182-190 | As written, "next" from 31 January 2026 shows March and "prev" from 31 March 2026 stays in March. |
| CalendarGrid.NavigateMonth | components/history-view.tsx:182-190 | Navigation goes exactly one month with year carry, clamping the day of month to the target month's length. |
| CalendarGrid.NavigateMonthRoundTrip | components/history-view.tsx:182-190 | "next" then "prev", or "prev" then "next", shows the starting month again. |
| CalendarGrid.NavigateMonthAgreesEarly | components/history-view.tsx:182-190 | Up to day 28 the as-written and corrected navigations agree. |
| Settings.DefaultSettings | components/settings-view.tsx:24-28 | The editor's defaults are the timer's defaults for every session type. |
| Settings.Clamp | components/settings-view.tsx:81 | `max(1, min(120, v))` lies in 1–120, is v when v is in range, 1 below it and 120 above it. |
| Settings.InputValue | components/settings-view.tsx:143 | `parseInt(text) \|\| 1` is 1 for text that does not parse or parses to 0, and the parsed number otherwise. |
| Settings.UpdateSetting | components/settings-view.tsx:76-84 | The edited field becomes the clamped value. Every other field of every session type is unchanged. |
| Settings.UpdateSettingIdempotent | components/settings-view.tsx:76-84 | Entering the same value twice equals entering it once. |
| Settings.UpdateSettingKeepsBounds | components/settings-view.tsx:76-84 | Edits keep every field of every type within 1–120. |
| Settings.TypedValueStored | components/settings-view.tsx:143-171 | Non-numbers, 0 and negatives store 1. Numbers above 120 store 120. Numbers in range are stored as typed. |
| Settings.ToStore | components/settings-view.tsx:46-50 | The persisted and broadcast settings have an entry for every session type, holding that type's durations. |
| Settings.TimerReadsSaved | components/settings-view.tsx:46-50 | A timer reading the saved or broadcast settings gets exactly its session type's durations. |
| Settings.SettingsEditor.constructor | components/settings-view.tsx:30-39 | The screen opens with the saved settings when there are any, else the defaults. |
| Settings.SettingsEditor.EditField | components/settings-view.tsx:143-171 | Typing into a field applies `UpdateSetting` to the parsed input value. |
| Settings.SettingsEditor.ResetToDefaults | components/settings-view.tsx:68-74 | Reset restores the defaults on screen without persisting or broadcasting. |
| Settings.SettingsEditor.SaveSettings | components/settings-view.tsx:41-66 | A save while saving does nothing. Otherwise it marks saving, persists the settings and broadcasts exactly them, keeping the last broadcast equal to what is persisted. |
| Settings.SettingsEditor.SavingDone | components/settings-view.tsx:65 | The delayed end of a save clears the saving flag. |
| Settings.DoubleSaveBroadcastsOnce | components/settings-view.tsx:41-43 | Two save clicks before the first ends broadcast once. |
| Settings.SaveReachesTimer | components/settings-view.tsx:41-46 | After a save, a stopped timer in another tab hears the storage event and has its type's saved durations and the current mode's full time. |
| Settings.SaveThenOpenTimer | components/settings-view.tsx:41-46 | After a save, a timer opened for any session type starts in work mode from its saved work duration. |
| App.ScreenFor | app/page.tsx:72-93 | The timer renders only with a chosen session type, and for that type. Otherwise the timer view renders nothing. |
| App.Page.Rendered | app/page.tsx:72-93 | With the page invariant, something is always rendered. |
| App.Page.constructor | app/page.tsx:23-26 | The page opens on the welcome view with no type, no name and a first visit. |
| App.Page.LoadSavedName | app/page.tsx:28-34 | A non-empty stored name becomes the name and ends the first visit. Otherwise nothing changes. |
| App.Page.HandleNameSubmit | app/page.tsx:36-41 | A submitted name is set and persisted, ends the first visit and opens the selector. |
| App.Page.HandleContinue | app/page.tsx:43-45 | Continue opens the selector. |
| App.Page.HandleSessionSelect | app/page.tsx:47-50 | Choosing a type opens the timer for that type. |
| App.Page.HandleBackToHome | app/page.tsx:52-55 | Back opens the selector and clears the chosen type. |
| App.Page.HandleViewHistory | app/page.tsx:57-59 | Opens the history view. |
| App.Page.HandleViewSettings | app/page.tsx:61-63 | Opens the settings view. |
| App.Page.HandleGoHome | app/page.tsx:65-68 | Opens the welcome view and clears the chosen type. |
| App.ReturningUser | app/page.tsx:28-34 | A returning user with a stored name sees the welcome view with that name and no first-visit flag. |
| App.Dispatch | app/page.tsx:36-68 | Any handler leaves the page rendering a screen. |
| App.Navigate | app/page.tsx:36-93 | Any sequence of handlers from a valid page keeps it rendering a screen. |

## Left out

- Audio, confetti, toasts, tips, breathing and meditation exercises, nature sounds and the YouTube player: presentation with no effect on the modelled state.
- `getProgress` (pomodoro-timer.tsx:119-122): a floating-point percentage. `Timer.PomodoroTimer.Elapsed` gives its numerator as an unclamped integer instead.
- JSON parsing and serialisation of stored values: a store is `Option` of an already decoded value, and malformed JSON is not modelled.
- `id` (`Date.now().toString()`): modelled as an integer instant supplied by the caller. Uniqueness of ids is not claimed.
- The clock and time zones: the current instant and the current day are parameters. `toDateString()` is the record's day number, so two records share a date exactly when their day numbers are equal.
- React closures, effects and `setTimeout`: handlers are methods applied in order. The one closure whose staleness shows is the interval's completion handler: the field `intervalSettings` holds the settings it was created with. The delayed `lastShownMilestone` write is applied at once. The one-second delayed end of a save is the separate method `SavingDone`.
- `Timer.PomodoroTimer.Tick`: requires a running timer. A tick can only come from the interval that `startTimer` creates and `pauseTimer` clears, which the model does not represent.
- `Timer.PomodoroTimer.constructor` and `Timer.PomodoroTimer.HandleSettingsChange`: minutes are natural numbers, so a stored non-numeric or negative duration is not modelled.
- A stored `lastShownMilestone` that does not parse as a number (a `NaN` comparison): the stored value is `Option<int>`.
- `App.Page.HandleNameSubmit`: accepts any name. The non-empty trimmed-name guard lives in components/welcome-home.tsx, which is not part of this model.
- components/session-selector.tsx, components/congratulations-modal.tsx, components/welcome-home.tsx and the UI library are not part of this model.
- The cell's `isCurrentMonth` test is modelled as `InMonth`. `CalendarGrid.GridMonth` proves this equals comparing `getMonth()` with the shown month on every grid day.
- `sessionsByType` is the derived member `DayCell.Groups()`, an ordered list of groups in order of first appearance, rather than a stored field of the cell. `CalendarGrid.CellGroups` states its properties.
- History.HistoryView.NavigateMonth: applies the corrected navigation `CalendarGrid.NavigateMonth`, not the screen's own `setMonth` rollover (`CalendarGrid.NavigateMonthAsWritten`). From day 29, 30 or 31 the class does not show the month the source shows; up to day 28 the two agree (`CalendarGrid.NavigateMonthAgreesEarly`).
- The same-tab `pomodoroSettingsChanged` broadcast while the settings screen is shown: the page unmounts the timer then, so no timer hears it. `Timer.PomodoroTimer.HandleSettingsChange` models the listener for any timer that is mounted.
- The list view of the history screen and its rendering are not modelled. Its per-record texts use `HistoryStats.FormatDuration`.

## Findings

| source | as written | input that shows it | evidently intended | confidence | as-written member | corrected member |
|---|---|---|---|---|---|---|
| components/history-view.tsx:182-190 | `setMonth(getMonth() ± 1)` keeps the day of month, so a day missing from the target month rolls over into the month after it | viewing 31 January 2026 and pressing "next" shows March 2026; viewing 31 March 2026 and pressing "prev" stays in March | move exactly one month, keeping the day when the target month has it | not executed | CalendarGrid.NavigateMonthOverflows | CalendarGrid.NavigateMonth |
