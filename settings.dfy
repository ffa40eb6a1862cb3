/**
 * The settings screen (components/settings-view.tsx): minutes for the
 * three modes of each of the three session types, edited field by field
 * with every value clamped to [1, 120], reset to the built-in defaults,
 * and saved under a re-entrancy guard that persists the settings and
 * broadcasts them to the running timers.
 */
module Settings {
  import opened Sessions
  import opened Timer

  /** The minutes of every mode of every session type. */
  datatype AllSettings = AllSettings(work: Durations, school: Durations, relaxation: Durations)
  {
    /** The durations of session type `t` (`settings[character]`). */
    function Get(t: SessionType): Durations
    {
      match t
      case WorkSession => work
      case SchoolSession => school
      case RelaxationSession => relaxation
    }

    /** These settings with the durations of `t` replaced by `d`. */
    function With(t: SessionType, d: Durations): (r: AllSettings)
      ensures r.Get(t) == d
      ensures forall u :: u != t ==> r.Get(u) == Get(u)
    {
      match t
      case WorkSession => this.(work := d)
      case SchoolSession => this.(school := d)
      case RelaxationSession => this.(relaxation := d)
    }
  }

  /** The editor's built-in defaults: the timer's defaults for every session type. */
  function DefaultSettings(): (s: AllSettings)
    ensures forall t :: s.Get(t) == DefaultDurations(t)
  {
    AllSettings(DefaultDurations(WorkSession), DefaultDurations(SchoolSession), DefaultDurations(RelaxationSession))
  }

  /** Every field of every session type lies in [1, 120]. */
  predicate AllInBounds(s: AllSettings)
  {
    forall t :: InBounds(s.Get(t))
  }

  /** `Math.max(1, Math.min(120, value))`. */
  function Clamp(value: int): (r: nat)
    ensures MinMinutes <= r <= MaxMinutes
    ensures MinMinutes <= value <= MaxMinutes ==> r == value
    ensures value < MinMinutes ==> r == MinMinutes
    ensures value > MaxMinutes ==> r == MaxMinutes
  {
    if value < MinMinutes then MinMinutes else if value > MaxMinutes then MaxMinutes else value
  }

  /**
   * The number an input field hands to the editor, `parseInt(text) || 1`:
   * the parsed integer, or 1 when the text does not parse (None) or
   * parses to 0.
   */
  function InputValue(parsed: Option<int>): (v: int)
    ensures parsed.None? ==> v == 1
    ensures parsed.Some? ==> v == if parsed.value == 0 then 1 else parsed.value
  {
    match parsed
    case None => 1
    case Some(n) => if n == 0 then 1 else n
  }

  /** `d` with the minutes of `mode` replaced by `v`. */
  function WithMinutes(d: Durations, mode: TimerMode, v: nat): (r: Durations)
    ensures r.Minutes(mode) == v
    ensures forall m :: m != mode ==> r.Minutes(m) == d.Minutes(m)
  {
    match mode
    case Work => d.(work := v)
    case ShortBreak => d.(shortBreak := v)
    case LongBreak => d.(longBreak := v)
  }

  /**
   * Editing one field: the field `mode` of session type `t` becomes the
   * clamped value; every other field of every session type is kept.
   */
  function UpdateSetting(s: AllSettings, t: SessionType, mode: TimerMode, value: int): (r: AllSettings)
    ensures r.Get(t).Minutes(mode) == Clamp(value)
    ensures forall u, m :: u != t || m != mode ==> r.Get(u).Minutes(m) == s.Get(u).Minutes(m)
  {
    s.With(t, WithMinutes(s.Get(t), mode, Clamp(value)))
  }

  /** Durations are equal when their minutes agree for every mode. */
  lemma DurationsByMinutes(a: Durations, b: Durations)
    requires forall m :: a.Minutes(m) == b.Minutes(m)
    ensures a == b
  {
    assert a.Minutes(Work) == b.Minutes(Work);
    assert a.Minutes(ShortBreak) == b.Minutes(ShortBreak);
    assert a.Minutes(LongBreak) == b.Minutes(LongBreak);
  }

  /** Settings are equal when their minutes agree for every session type and mode. */
  lemma SettingsByMinutes(a: AllSettings, b: AllSettings)
    requires forall t, m :: a.Get(t).Minutes(m) == b.Get(t).Minutes(m)
    ensures a == b
  {
    DurationsByMinutes(a.Get(WorkSession), b.Get(WorkSession));
    DurationsByMinutes(a.Get(SchoolSession), b.Get(SchoolSession));
    DurationsByMinutes(a.Get(RelaxationSession), b.Get(RelaxationSession));
  }

  /** Entering the same value twice leaves the settings as entering it once. */
  lemma UpdateSettingIdempotent(s: AllSettings, t: SessionType, mode: TimerMode, value: int)
    ensures UpdateSetting(UpdateSetting(s, t, mode, value), t, mode, value) == UpdateSetting(s, t, mode, value)
  {
    var once := UpdateSetting(s, t, mode, value);
    SettingsByMinutes(UpdateSetting(once, t, mode, value), once);
  }

  /** Edits keep every field within [1, 120], starting from the defaults or any in-range settings. */
  lemma UpdateSettingKeepsBounds(s: AllSettings, t: SessionType, mode: TimerMode, value: int)
    requires AllInBounds(s)
    ensures AllInBounds(UpdateSetting(s, t, mode, value))
  {
    var r := UpdateSetting(s, t, mode, value);
    forall u
      ensures InBounds(r.Get(u))
    {
      assert InBounds(s.Get(u));
      assert r.Get(u).work == r.Get(u).Minutes(Work) && s.Get(u).work == s.Get(u).Minutes(Work);
      assert r.Get(u).shortBreak == r.Get(u).Minutes(ShortBreak) && s.Get(u).shortBreak == s.Get(u).Minutes(ShortBreak);
      assert r.Get(u).longBreak == r.Get(u).Minutes(LongBreak) && s.Get(u).longBreak == s.Get(u).Minutes(LongBreak);
    }
  }

  /**
   * Text typed into a field: a non-number or 0 stores 1, a negative
   * number stores 1, a number above 120 stores 120, and a number in
   * range is stored as typed.
   */
  lemma TypedValueStored(s: AllSettings, t: SessionType, mode: TimerMode, parsed: Option<int>)
    ensures var stored := UpdateSetting(s, t, mode, InputValue(parsed)).Get(t).Minutes(mode);
            && (parsed.None? || parsed.value <= 0 ==> stored == 1)
            && (parsed.Some? && parsed.value > MaxMinutes ==> stored == MaxMinutes)
            && (parsed.Some? && MinMinutes <= parsed.value <= MaxMinutes ==> stored == parsed.value)
  {
  }

  /** The settings as persisted and broadcast: an entry for every session type. */
  function ToStore(s: AllSettings): (store: SettingsStore)
    ensures WorkSession in store && SchoolSession in store && RelaxationSession in store
    ensures forall t :: t in store ==> store[t] == s.Get(t)
  {
    map[WorkSession := s.work, SchoolSession := s.school, RelaxationSession := s.relaxation]
  }

  /** A timer reading the saved or broadcast settings gets exactly its session type's entry. */
  lemma TimerReadsSaved(s: AllSettings, t: SessionType)
    ensures SessionSettings(Some(ToStore(s)), t) == s.Get(t)
  {
    match t
    case WorkSession =>
    case SchoolSession =>
    case RelaxationSession =>
  }

  lemma DefaultsInBounds()
    ensures AllInBounds(DefaultSettings())
  {
  }

  class SettingsEditor {
    /** The settings as edited on screen. */
    var settings: AllSettings
    /** Set while a save is in progress; cleared a second later. */
    var isSaving: bool
    /** The persisted settings ("pomodoro-settings"), if any. */
    var stored: Option<AllSettings>
    /** The settings broadcast to listening timers so far, oldest first. */
    var broadcasts: seq<AllSettings>

    /** Whatever was broadcast last is also what is persisted. */
    predicate Valid()
      reads this
    {
      broadcasts != [] ==> stored == Some(broadcasts[|broadcasts| - 1])
    }

    /** Opening the screen: the saved settings when there are any, the defaults otherwise. */
    constructor (saved: Option<AllSettings>)
      ensures Valid()
      ensures settings == if saved.Some? then saved.value else DefaultSettings()
      ensures !isSaving && stored == saved && broadcasts == []
    {
      settings := if saved.Some? then saved.value else DefaultSettings();
      isSaving := false;
      stored := saved;
      broadcasts := [];
    }

    /** Typing into the field `mode` of session type `t`; nothing is persisted. */
    method EditField(t: SessionType, mode: TimerMode, parsed: Option<int>)
      modifies this`settings
      ensures settings == UpdateSetting(old(settings), t, mode, InputValue(parsed))
    {
      settings := UpdateSetting(settings, t, mode, InputValue(parsed));
    }

    /** Restoring the defaults on screen; nothing is persisted or broadcast. */
    method ResetToDefaults()
      modifies this`settings
      ensures settings == DefaultSettings()
    {
      settings := DefaultSettings();
    }

    /**
     * Saving: ignored while a save is in progress; otherwise marks the
     * save in progress, persists the current settings and broadcasts
     * exactly them.
     */
    method SaveSettings()
      requires Valid()
      modifies this
      ensures Valid() && settings == old(settings) && isSaving
      ensures old(isSaving) ==> stored == old(stored) && broadcasts == old(broadcasts)
      ensures !old(isSaving) ==> stored == Some(settings) && broadcasts == old(broadcasts) + [settings]
    {
      if isSaving {
        return;
      }
      isSaving := true;
      stored := Some(settings);
      broadcasts := broadcasts + [settings];
    }

    /** The delayed end of a save. */
    method SavingDone()
      modifies this`isSaving
      ensures !isSaving
    {
      isSaving := false;
    }
  }

  /** Two save clicks before the first save ends broadcast once. */
  method DoubleSaveBroadcastsOnce(editor: SettingsEditor)
    requires editor.Valid() && !editor.isSaving
    modifies editor
    ensures editor.Valid() && editor.broadcasts == old(editor.broadcasts) + [old(editor.settings)]
  {
    editor.SaveSettings();
    editor.SaveSettings();
  }

  /**
   * A save reaches a stopped timer open in another tab: the storage
   * event makes it re-read the persisted settings, so it takes its
   * session type's durations from the save and reloads the current
   * mode's time. (The same-tab broadcast has no listener while the
   * settings screen is shown, since the page unmounts the timer.)
   */
  method SaveReachesTimer(editor: SettingsEditor, timer: PomodoroTimer)
    requires editor.Valid() && !editor.isSaving && !timer.isRunning
    modifies editor, timer
    ensures timer.settings == old(editor.settings).Get(timer.sessionType)
    ensures timer.timeLeft == timer.settings.Minutes(timer.mode) * 60
  {
    editor.SaveSettings();
    TimerReadsSaved(editor.stored.value, timer.sessionType);
    timer.HandleStorageChange(Some(ToStore(editor.stored.value)));
  }

  /** After a save, a timer opened for any session type starts from its saved work duration. */
  method SaveThenOpenTimer(editor: SettingsEditor, t: SessionType, storedHistory: seq<SessionRecord>) returns (timer: PomodoroTimer)
    requires editor.Valid() && !editor.isSaving
    modifies editor
    ensures timer.settings == old(editor.settings).Get(t)
    ensures timer.mode == Work && timer.timeLeft == old(editor.settings).Get(t).work * 60 && !timer.isRunning
  {
    editor.SaveSettings();
    TimerReadsSaved(editor.stored.value, t);
    timer := new PomodoroTimer(t, Some(ToStore(editor.stored.value)), storedHistory);
  }
}
