/**
 * The page (app/page.tsx): which screen is shown, the session type chosen
 * for the timer, and the user's name, persisted as "pomodoroUserName".
 */
module App {
  import opened Sessions

  datatype ViewType = WelcomeView | HomeView | TimerView | HistoryView | SettingsView

  /** What the page renders. */
  datatype Screen =
    | WelcomeScreen(userName: string, isFirstTime: bool)
    | SelectorScreen(userName: string)
    | TimerScreen(sessionType: SessionType)
    | HistoryScreen
    | SettingsScreen
    | Blank

  /**
   * The screen for a view: the timer needs a chosen session type and
   * renders nothing without one.
   */
  function ScreenFor(view: ViewType, selected: Option<SessionType>, userName: string, isFirstTime: bool): (s: Screen)
    ensures s == Blank <==> view == TimerView && selected.None?
    ensures s.TimerScreen? <==> view == TimerView && selected.Some?
    ensures s.TimerScreen? ==> s.sessionType == selected.value
    ensures s.WelcomeScreen? <==> view == WelcomeView
  {
    match view
    case WelcomeView => WelcomeScreen(userName, isFirstTime)
    case HomeView => SelectorScreen(userName)
    case TimerView => if selected.Some? then TimerScreen(selected.value) else Blank
    case HistoryView => HistoryScreen
    case SettingsView => SettingsScreen
  }

  class Page {
    var currentView: ViewType
    var selectedSessionType: Option<SessionType>
    var userName: string
    var isFirstTime: bool
    /** The persisted name, if any. */
    var storedName: Option<string>

    /** The timer view always has a session type to run. */
    predicate Valid()
      reads this
    {
      currentView == TimerView ==> selectedSessionType.Some?
    }

    function Rendered(): (s: Screen)
      reads this
      ensures Valid() ==> s != Blank
    {
      ScreenFor(currentView, selectedSessionType, userName, isFirstTime)
    }

    /** A first visit: the welcome screen, no session type, no name. */
    constructor (stored: Option<string>)
      ensures Valid()
      ensures currentView == WelcomeView && selectedSessionType == None
      ensures userName == "" && isFirstTime && storedName == stored
    {
      currentView := WelcomeView;
      selectedSessionType := None;
      userName := "";
      isFirstTime := true;
      storedName := stored;
    }

    /** Picking up the persisted name: a non-empty one is the user's name and ends the first visit. */
    method LoadSavedName()
      modifies this`userName, this`isFirstTime
      ensures storedName.Some? && storedName.value != "" ==> userName == storedName.value && !isFirstTime
      ensures storedName.None? || storedName.value == "" ==> userName == old(userName) && isFirstTime == old(isFirstTime)
    {
      if storedName.Some? && storedName.value != "" {
        userName := storedName.value;
        isFirstTime := false;
      }
    }

    /** Entering a name: it is shown and persisted, and the session selector opens. */
    method HandleNameSubmit(name: string)
      modifies this`userName, this`storedName, this`isFirstTime, this`currentView
      ensures Valid()
      ensures userName == name && storedName == Some(name) && !isFirstTime && currentView == HomeView
    {
      userName := name;
      storedName := Some(name);
      isFirstTime := false;
      currentView := HomeView;
    }

    method HandleContinue()
      modifies this`currentView
      ensures Valid() && currentView == HomeView
    {
      currentView := HomeView;
    }

    /** Choosing a session type opens the timer for it. */
    method HandleSessionSelect(t: SessionType)
      modifies this`selectedSessionType, this`currentView
      ensures Valid() && Rendered() == TimerScreen(t)
      ensures selectedSessionType == Some(t) && currentView == TimerView
    {
      selectedSessionType := Some(t);
      currentView := TimerView;
    }

    /** Back from the timer, history or settings: the selector, with no session type chosen. */
    method HandleBackToHome()
      modifies this`selectedSessionType, this`currentView
      ensures Valid() && currentView == HomeView && selectedSessionType == None
    {
      currentView := HomeView;
      selectedSessionType := None;
    }

    method HandleViewHistory()
      modifies this`currentView
      ensures Valid() && currentView == HistoryView
    {
      currentView := HistoryView;
    }

    method HandleViewSettings()
      modifies this`currentView
      ensures Valid() && currentView == SettingsView
    {
      currentView := SettingsView;
    }

    /** The welcome screen again, with no session type chosen. */
    method HandleGoHome()
      modifies this`selectedSessionType, this`currentView
      ensures Valid() && currentView == WelcomeView && selectedSessionType == None
    {
      currentView := WelcomeView;
      selectedSessionType := None;
    }
  }

  /** A returning user with a stored name skips the first-visit greeting and keeps the name. */
  method ReturningUser(name: string) returns (page: Page)
    requires name != ""
    ensures page.Valid() && page.Rendered() == WelcomeScreen(name, false)
  {
    page := new Page(Some(name));
    page.LoadSavedName();
  }

  /** One of the page's handlers, as a user triggers it. */
  datatype Action =
    | NameSubmit(name: string)
    | Continue
    | SessionSelect(t: SessionType)
    | BackToHome
    | ViewHistory
    | ViewSettings
    | GoHome

  /** Whatever handler runs, the page goes on rendering a screen. */
  method Dispatch(page: Page, a: Action)
    modifies page
    ensures page.Valid() && page.Rendered() != Blank
  {
    match a
    case NameSubmit(name) => page.HandleNameSubmit(name);
    case Continue => page.HandleContinue();
    case SessionSelect(t) => page.HandleSessionSelect(t);
    case BackToHome => page.HandleBackToHome();
    case ViewHistory => page.HandleViewHistory();
    case ViewSettings => page.HandleViewSettings();
    case GoHome => page.HandleGoHome();
  }

  /** Running navigation steps from a valid page never leaves it rendering nothing. */
  method Navigate(page: Page, actions: seq<Action>)
    requires page.Valid()
    modifies page
    ensures page.Valid() && page.Rendered() != Blank
  {
    for i := 0 to |actions|
      invariant page.Valid()
    {
      Dispatch(page, actions[i]);
    }
  }
}
