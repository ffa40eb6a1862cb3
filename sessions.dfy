/**
 * The vocabulary every part of the timer app shares: the three themed
 * session types, the three timer modes, the minutes configured per mode,
 * the record written for each completed interval, and the built-in
 * default durations.
 */
module Sessions {

  datatype Option<T> = None | Some(value: T)

  /** The theme chosen for a whole session ("work", "school", "relaxation"). */
  datatype SessionType = WorkSession | SchoolSession | RelaxationSession

  /** Which interval of the cycle is counting ("work", "shortBreak", "longBreak"). */
  datatype TimerMode = Work | ShortBreak | LongBreak

  /** Minutes configured for each timer mode of one session type. */
  datatype Durations = Durations(work: nat, shortBreak: nat, longBreak: nat)
  {
    /** The configured minutes of `mode` (the source's `settings[mode]`). */
    function Minutes(mode: TimerMode): nat
    {
      match mode
      case Work => work
      case ShortBreak => shortBreak
      case LongBreak => longBreak
    }
  }

  /**
   * One completed interval. `id` is the completion instant in milliseconds
   * (the app renders it as a decimal string); `day` is the local calendar
   * day of completion as a day number (see module Civil), which is all the
   * app ever reads of the completion timestamp.
   */
  datatype SessionRecord = SessionRecord(
    id: int,
    sessionType: SessionType,
    mode: TimerMode,
    duration: nat,
    day: int,
    interrupted: bool)

  const MinMinutes: nat := 1
  const MaxMinutes: nat := 120

  /** Every field lies in the range the settings editor enforces. */
  predicate InBounds(d: Durations)
  {
    && MinMinutes <= d.work <= MaxMinutes
    && MinMinutes <= d.shortBreak <= MaxMinutes
    && MinMinutes <= d.longBreak <= MaxMinutes
  }

  /** The built-in durations of each session type. */
  function DefaultDurations(t: SessionType): (d: Durations)
    ensures InBounds(d)
    ensures d.shortBreak < d.longBreak < d.work
    ensures t == WorkSession ==> d == Durations(25, 5, 15)
    ensures t == SchoolSession ==> d == Durations(30, 10, 20)
    ensures t == RelaxationSession ==> d == Durations(15, 5, 10)
  {
    match t
    case WorkSession => Durations(25, 5, 15)
    case SchoolSession => Durations(30, 10, 20)
    case RelaxationSession => Durations(15, 5, 10)
  }

  /** The calendar days on which the log holds at least one record. */
  function DaysOf(log: seq<SessionRecord>): (days: set<int>)
    ensures forall d :: d in days <==> exists i :: 0 <= i < |log| && log[i].day == d
  {
    set i | 0 <= i < |log| :: log[i].day
  }
}
