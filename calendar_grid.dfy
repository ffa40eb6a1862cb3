/**
 * The month calendar of the history screen (components/history-view.tsx):
 * a grid of 42 consecutive days starting on the Sunday on or before the
 * first of the shown month, each day cell carrying that day's records,
 * their count and minutes, and their grouping by (session type, mode);
 * and the previous/next month navigation.
 */
module CalendarGrid {
  import opened Sessions
  import opened Civil
  import opened HistoryStats

  /** Six weeks of seven days. */
  const GridCells: nat := 42

  /** The first grid day: the Sunday on or before the first of month m of year y. */
  function GridStart(y: int, m: int): (s: int)
    requires 0 <= m < 12
    ensures Weekday(s) == 0
    ensures MonthStart(y, m) - 6 <= s <= MonthStart(y, m)
  {
    var first := MonthStart(y, m);
    SundayOnOrBefore(first);
    first - Weekday(first)
  }

  lemma SundayOnOrBefore(n: int)
    ensures Weekday(n - Weekday(n)) == 0
  {
    var w := Weekday(n);
    assert n + 4 == 7 * ((n + 4) / 7) + w;
    assert n - w + 4 == 7 * ((n + 4) / 7);
  }

  /**
   * The (year, month) a grid day falls in: the month before, the shown
   * month, or the month after, since the grid starts at most 6 days
   * before the shown month and ends at most 14 days after it.
   */
  function GridMonth(y: int, m: int, date: int): (r: (int, int))
    requires 0 <= m < 12
    requires GridStart(y, m) <= date < GridStart(y, m) + GridCells
    ensures 0 <= r.1 < 12 && InMonth(date, r.0, r.1)
    ensures r.1 == m <==> InMonth(date, y, m)
  {
    var first := MonthStart(y, m);
    if date < first then
      var p := PrevMonth(y, m);
      MonthsAdjacent(p.0, p.1);
      p
    else if date < first + DaysInMonth(y, m) then
      (y, m)
    else
      MonthsAdjacent(y, m);
      NextMonth(y, m)
  }

  /** The grouping key of a record: its session type and mode ("type-mode"). */
  type Key = (SessionType, TimerMode)

  function KeyOf(rec: SessionRecord): Key
  {
    (rec.sessionType, rec.mode)
  }

  /** Records of one key within a day: how many and how many minutes. */
  datatype Group = Group(sessionType: SessionType, mode: TimerMode, count: nat, duration: nat)
  {
    function Key(): Key
    {
      (sessionType, mode)
    }
  }

  function Keys(gs: seq<Group>): set<Key>
  {
    set g | g in gs :: g.Key()
  }

  function KeysOf(recs: seq<SessionRecord>): set<Key>
  {
    set r | r in recs :: KeyOf(r)
  }

  /** Each key occurs in at most one group. */
  predicate DistinctKeys(gs: seq<Group>)
  {
    forall i, j :: 0 <= i < j < |gs| ==> gs[i].Key() != gs[j].Key()
  }

  function SumCounts(gs: seq<Group>): nat
  {
    if gs == [] then 0 else gs[0].count + SumCounts(gs[1..])
  }

  function SumDurations(gs: seq<Group>): nat
  {
    if gs == [] then 0 else gs[0].duration + SumDurations(gs[1..])
  }

  /** Number of records of key k. */
  function KeyCount(recs: seq<SessionRecord>, k: Key): nat
  {
    if recs == [] then 0
    else KeyCount(recs[..|recs| - 1], k) + (if KeyOf(recs[|recs| - 1]) == k then 1 else 0)
  }

  /** Minutes of the records of key k. */
  function KeyMinutes(recs: seq<SessionRecord>, k: Key): nat
  {
    if recs == [] then 0
    else KeyMinutes(recs[..|recs| - 1], k) + (if KeyOf(recs[|recs| - 1]) == k then recs[|recs| - 1].duration else 0)
  }

  /** The group the records of key k make up. */
  function GroupOf(recs: seq<SessionRecord>, k: Key): Group
  {
    Group(k.0, k.1, KeyCount(recs, k), KeyMinutes(recs, k))
  }

  /**
   * One step of the grouping reduce: the record's group gains one
   * record and its minutes, or a new group for its key is appended
   * (object keys keep their insertion order).
   */
  function AddToGroups(gs: seq<Group>, rec: SessionRecord): (r: seq<Group>)
    ensures |gs| <= |r| <= |gs| + 1 && r != []
  {
    if gs == [] then
      [Group(rec.sessionType, rec.mode, 1, rec.duration)]
    else if gs[0].Key() == KeyOf(rec) then
      [gs[0].(count := gs[0].count + 1, duration := gs[0].duration + rec.duration)] + gs[1..]
    else
      [gs[0]] + AddToGroups(gs[1..], rec)
  }

  /** The grouping step adds one record and its minutes, and a group only for a new key. */
  lemma {:induction false} AddToGroupsSums(gs: seq<Group>, rec: SessionRecord)
    ensures var r := AddToGroups(gs, rec);
            && SumCounts(r) == SumCounts(gs) + 1
            && SumDurations(r) == SumDurations(gs) + rec.duration
            && |r| == if KeyOf(rec) in Keys(gs) then |gs| else |gs| + 1
  {
    if gs != [] {
      assert gs == [gs[0]] + gs[1..];
      assert Keys(gs) == {gs[0].Key()} + Keys(gs[1..]);
      if gs[0].Key() == KeyOf(rec) {
        assert gs[0] in gs;
        var r := AddToGroups(gs, rec);
        assert r[1..] == gs[1..];
      } else {
        AddToGroupsSums(gs[1..], rec);
        var r := AddToGroups(gs, rec);
        assert r[1..] == AddToGroups(gs[1..], rec);
      }
    }
  }

  lemma KeysCons(g: Group, gs: seq<Group>)
    ensures Keys([g] + gs) == {g.Key()} + Keys(gs)
  {
    assert forall h :: h in [g] + gs <==> h == g || h in gs;
  }

  /** The grouping step adds the record's key to the keys. */
  lemma {:induction false} AddToGroupsKeys(gs: seq<Group>, rec: SessionRecord)
    ensures Keys(AddToGroups(gs, rec)) == Keys(gs) + {KeyOf(rec)}
  {
    var r := AddToGroups(gs, rec);
    if gs == [] {
      KeysCons(r[0], []);
      assert r == [r[0]] + [];
    } else {
      KeysCons(gs[0], gs[1..]);
      assert gs == [gs[0]] + gs[1..];
      if gs[0].Key() == KeyOf(rec) {
        KeysCons(r[0], gs[1..]);
      } else {
        AddToGroupsKeys(gs[1..], rec);
        KeysCons(gs[0], AddToGroups(gs[1..], rec));
      }
    }
  }

  /** The grouping step keeps the keys distinct. */
  lemma {:induction false} AddToGroupsDistinct(gs: seq<Group>, rec: SessionRecord)
    requires DistinctKeys(gs)
    ensures DistinctKeys(AddToGroups(gs, rec))
  {
    if gs != [] && gs[0].Key() != KeyOf(rec) {
      var t := AddToGroups(gs[1..], rec);
      AddToGroupsDistinct(gs[1..], rec);
      AddToGroupsKeys(gs[1..], rec);
      KeysCons(gs[0], gs[1..]);
      assert gs == [gs[0]] + gs[1..];
      assert gs[0].Key() !in Keys(t);
      forall j | 0 <= j < |t|
        ensures gs[0].Key() != t[j].Key()
      {
        assert t[j] in t;
      }
    }
  }

  /**
   * The grouping step changes only the record's group, by one record and
   * its minutes, or appends a new group of that one record.
   */
  lemma AddToGroupsElements(gs: seq<Group>, rec: SessionRecord)
    requires DistinctKeys(gs)
    ensures var r := AddToGroups(gs, rec);
            && |r| == (if KeyOf(rec) in Keys(gs) then |gs| else |gs| + 1)
            && (forall i :: 0 <= i < |gs| && gs[i].Key() != KeyOf(rec) ==> r[i] == gs[i])
            && (forall i :: 0 <= i < |gs| && gs[i].Key() == KeyOf(rec) ==>
                  r[i] == gs[i].(count := gs[i].count + 1, duration := gs[i].duration + rec.duration))
            && (KeyOf(rec) !in Keys(gs) ==> r[|gs|] == Group(rec.sessionType, rec.mode, 1, rec.duration))
  {
    AddToGroupsSums(gs, rec);
    AddToGroupsOthers(gs, rec);
    AddToGroupsHit(gs, rec);
    AddToGroupsNew(gs, rec);
  }

  /** The grouping step leaves every group of another key where it was. */
  lemma {:induction false} AddToGroupsOthers(gs: seq<Group>, rec: SessionRecord)
    ensures var r := AddToGroups(gs, rec);
            forall i :: 0 <= i < |gs| && gs[i].Key() != KeyOf(rec) ==> r[i] == gs[i]
  {
    if gs != [] && gs[0].Key() != KeyOf(rec) {
      var t := gs[1..];
      AddToGroupsOthers(t, rec);
      var r, rt := AddToGroups(gs, rec), AddToGroups(t, rec);
      assert r == [gs[0]] + rt;
      assert forall i :: 1 <= i < |gs| ==> r[i] == rt[i - 1] && gs[i] == t[i - 1];
    }
  }

  /** With distinct keys, the grouping step adds the record to its key's group. */
  lemma {:induction false} AddToGroupsHit(gs: seq<Group>, rec: SessionRecord)
    requires DistinctKeys(gs)
    ensures var r := AddToGroups(gs, rec);
            forall i :: 0 <= i < |gs| && gs[i].Key() == KeyOf(rec) ==>
              r[i] == gs[i].(count := gs[i].count + 1, duration := gs[i].duration + rec.duration)
  {
    if gs != [] {
      var t := gs[1..];
      if gs[0].Key() == KeyOf(rec) {
        assert forall i :: 0 < i < |gs| ==> gs[0].Key() != gs[i].Key();
        assert AddToGroups(gs, rec)[0] == gs[0].(count := gs[0].count + 1, duration := gs[0].duration + rec.duration);
      } else {
        assert DistinctKeys(t) by {
          assert forall i, j :: 0 <= i < j < |t| ==> t[i] == gs[i + 1] && t[j] == gs[j + 1];
        }
        AddToGroupsHit(t, rec);
        var r, rt := AddToGroups(gs, rec), AddToGroups(t, rec);
        assert r == [gs[0]] + rt;
        assert forall i :: 1 <= i < |gs| ==> r[i] == rt[i - 1] && gs[i] == t[i - 1];
      }
    }
  }

  /** A record of a new key gets a one-record group at the end. */
  lemma {:induction false} AddToGroupsNew(gs: seq<Group>, rec: SessionRecord)
    ensures var r := AddToGroups(gs, rec);
            KeyOf(rec) !in Keys(gs) ==> |r| > |gs| && r[|gs|] == Group(rec.sessionType, rec.mode, 1, rec.duration)
  {
    if gs != [] && KeyOf(rec) !in Keys(gs) {
      var t := gs[1..];
      assert gs[0] in gs;
      KeysCons(gs[0], t);
      assert gs == [gs[0]] + t;
      AddToGroupsNew(t, rec);
      var r, rt := AddToGroups(gs, rec), AddToGroups(t, rec);
      assert r == [gs[0]] + rt;
    }
  }

  /**
   * The grouping of a day's records by (session type, mode), in order of
   * first appearance.
   */
  function GroupBy(recs: seq<SessionRecord>): (r: seq<Group>)
    ensures |r| <= |recs|
    ensures r == [] <==> recs == []
  {
    if recs == [] then [] else AddToGroups(GroupBy(recs[..|recs| - 1]), recs[|recs| - 1])
  }

  /**
   * The groups partition the records: distinct keys, every record's key
   * present, and each group holding exactly the count and minutes of its
   * key's records; so the counts add up to the records and the minutes
   * to theirs.
   */
  lemma {:induction false} GroupByPartition(recs: seq<SessionRecord>)
    ensures var r := GroupBy(recs);
            && DistinctKeys(r) && Keys(r) == KeysOf(recs)
            && SumCounts(r) == |recs| && SumDurations(r) == TotalMinutes(recs)
            && forall i :: 0 <= i < |r| ==> r[i] == GroupOf(recs, r[i].Key())
  {
    if recs != [] {
      GroupByPartition(recs[..|recs| - 1]);
      GroupByStep(GroupBy(recs[..|recs| - 1]), recs);
    }
  }

  /** Grouping one more record keeps the groups a partition of the records. */
  lemma GroupByStep(gs: seq<Group>, recs: seq<SessionRecord>)
    requires recs != []
    requires var init := recs[..|recs| - 1];
             && DistinctKeys(gs) && Keys(gs) == KeysOf(init)
             && SumCounts(gs) == |init| && SumDurations(gs) == TotalMinutes(init)
             && forall i :: 0 <= i < |gs| ==> gs[i] == GroupOf(init, gs[i].Key())
    ensures var r := AddToGroups(gs, recs[|recs| - 1]);
            && DistinctKeys(r) && Keys(r) == KeysOf(recs)
            && SumCounts(r) == |recs| && SumDurations(r) == TotalMinutes(recs)
            && forall i :: 0 <= i < |r| ==> r[i] == GroupOf(recs, r[i].Key())
  {
    var init, last := recs[..|recs| - 1], recs[|recs| - 1];
    assert recs == init + [last];
    SnocFacts(init, last);
    AddToGroupsSums(gs, last);
    AddToGroupsKeys(gs, last);
    AddToGroupsDistinct(gs, last);
    AddToGroupsKeepsGroups(gs, init, last);
  }

  lemma SnocFacts(init: seq<SessionRecord>, last: SessionRecord)
    ensures KeysOf(init + [last]) == KeysOf(init) + {KeyOf(last)}
    ensures TotalMinutes(init + [last]) == TotalMinutes(init) + last.duration
  {
    TotalMinutesAppend(init, [last]);
    assert TotalMinutes([last]) == last.duration + TotalMinutes([]);
    assert last in init + [last];
  }

  /** Appending a record adds to its own key's group and to no other. */
  lemma GroupOfSnoc(recs: seq<SessionRecord>, rec: SessionRecord, k: Key)
    ensures GroupOf(recs + [rec], k) ==
            if k == KeyOf(rec) then GroupOf(recs, k).(count := KeyCount(recs, k) + 1,
                                                      duration := KeyMinutes(recs, k) + rec.duration)
            else GroupOf(recs, k)
  {
    var all := recs + [rec];
    assert all[..|all| - 1] == recs;
  }

  /** No record of a key outside the records' keys. */
  lemma {:induction false} AbsentKey(recs: seq<SessionRecord>, k: Key)
    requires k !in KeysOf(recs)
    ensures KeyCount(recs, k) == 0 && KeyMinutes(recs, k) == 0
  {
    if recs != [] {
      var init := recs[..|recs| - 1];
      assert recs[|recs| - 1] in recs;
      assert forall r :: r in init ==> r in recs;
      AbsentKey(init, k);
    }
  }

  /** The grouping step keeps every group equal to the group of its key. */
  lemma AddToGroupsKeepsGroups(gs: seq<Group>, recs: seq<SessionRecord>, rec: SessionRecord)
    requires DistinctKeys(gs) && Keys(gs) == KeysOf(recs)
    requires forall i :: 0 <= i < |gs| ==> gs[i] == GroupOf(recs, gs[i].Key())
    ensures var r := AddToGroups(gs, rec);
            forall i :: 0 <= i < |r| ==> r[i] == GroupOf(recs + [rec], r[i].Key())
  {
    var r := AddToGroups(gs, rec);
    AddToGroupsElements(gs, rec);
    forall i | 0 <= i < |r|
      ensures r[i] == GroupOf(recs + [rec], r[i].Key())
    {
      GroupOfSnoc(recs, rec, r[i].Key());
      if i >= |gs| {
        AbsentKey(recs, KeyOf(rec));
      }
    }
  }

  /**
   * One cell of the month grid. The per-(type, mode) summary of the
   * day's records is the function Groups of the cell's records.
   */
  datatype DayCell = DayCell(
    date: int,
    sessions: seq<SessionRecord>,
    isCurrentMonth: bool,
    isToday: bool,
    sessionCount: nat,
    totalMinutes: nat)
  {
    /** The day's records grouped by (session type, mode). */
    function Groups(): seq<Group>
    {
      GroupBy(sessions)
    }
  }

  /**
   * The cell of grid day `date` when month m of year y is shown on day
   * `today`: the day's records, whether the day lies in the shown month,
   * whether it is today, and the day's count and minutes. The source
   * compares month numbers; on the grid's days that is the same test
   * (GridMonth).
   */
  function CellFor(log: seq<SessionRecord>, y: int, m: int, date: int, today: int): (c: DayCell)
    requires 0 <= m < 12
    ensures c.date == date
    ensures forall x :: x in c.sessions <==> x in log && x.day == date
    ensures c.isCurrentMonth <==> InMonth(date, y, m)
    ensures c.isToday <==> date == today
    ensures c.sessionCount == |c.sessions| && c.totalMinutes == TotalMinutes(c.sessions)
  {
    var daySessions := SessionsOn(log, date);
    DayCell(date, daySessions, InMonth(date, y, m), date == today, |daySessions|, TotalMinutes(daySessions))
  }

  /** A cell holds each of the day's records as many times as the log does, and nothing else. */
  lemma CellSessionsCounts(log: seq<SessionRecord>, y: int, m: int, date: int, today: int)
    requires 0 <= m < 12
    ensures var c := CellFor(log, y, m, date, today);
            forall x :: multiset(c.sessions)[x] == if x.day == date then multiset(log)[x] else 0
  {
    SessionsOnCounts(log, date);
  }

  /**
   * A cell's groups partition its records: distinct keys covering the
   * records' keys, each group the count and minutes of its key, adding
   * up to the cell's count and minutes.
   */
  lemma CellGroups(c: DayCell, log: seq<SessionRecord>, y: int, m: int, date: int, today: int)
    requires 0 <= m < 12 && c == CellFor(log, y, m, date, today)
    ensures var gs := c.Groups();
            && DistinctKeys(gs) && Keys(gs) == KeysOf(c.sessions)
            && c.sessionCount == SumCounts(gs) && c.totalMinutes == SumDurations(gs)
            && forall i :: 0 <= i < |gs| ==> gs[i] == GroupOf(c.sessions, gs[i].Key())
  {
    GroupByPartition(c.sessions);
  }

  /**
   * The cells of the n days from day `start` in the calendar of month m
   * of year y over `log` on day `today`.
   */
  function Grid(log: seq<SessionRecord>, y: int, m: int, today: int, start: int, n: nat): (r: seq<DayCell>)
    requires 0 <= m < 12
    ensures |r| == n
  {
    if n == 0 then [] else Grid(log, y, m, today, start, n - 1) + [CellFor(log, y, m, start + n - 1, today)]
  }

  /** One more cell: the cell of the next day, `date`, after the ones before. */
  lemma GridSnoc(log: seq<SessionRecord>, y: int, m: int, today: int, start: int, n: nat, date: int)
    requires 0 <= m < 12 && date == start + n
    ensures Grid(log, y, m, today, start, n + 1) == Grid(log, y, m, today, start, n) + [CellFor(log, y, m, date, today)]
  {
  }

  /** Cell i is the cell of day i after `start`. */
  lemma {:induction false} GridAt(log: seq<SessionRecord>, y: int, m: int, today: int, start: int, n: nat, i: nat)
    requires 0 <= m < 12 && i < n
    ensures Grid(log, y, m, today, start, n)[i] == CellFor(log, y, m, start + i, today)
  {
    if i < n - 1 {
      GridAt(log, y, m, today, start, n - 1, i);
    }
  }

  /** `cells` is the grid of month m of year y over `log` on day `today`. */
  predicate IsGrid(cells: seq<DayCell>, log: seq<SessionRecord>, y: int, m: int, today: int)
    requires 0 <= m < 12
  {
    cells == Grid(log, y, m, today, GridStart(y, m), GridCells)
  }

  /**
   * The grid starts on a Sunday at most 6 days before the first of the
   * month, covers every day of the month, marks exactly those as in the
   * current month, and marks at most one cell as today.
   */
  lemma GridShape(cells: seq<DayCell>, log: seq<SessionRecord>, y: int, m: int, today: int)
    requires 0 <= m < 12 && IsGrid(cells, log, y, m, today)
    ensures |cells| == GridCells
    ensures Weekday(cells[0].date) == 0
    ensures MonthStart(y, m) - 6 <= cells[0].date <= MonthStart(y, m)
    ensures forall i :: 0 <= i < GridCells ==> cells[i].date == cells[0].date + i
    ensures forall i :: 0 <= i < GridCells ==> (cells[i].isCurrentMonth <==> InMonth(cells[i].date, y, m))
    ensures forall d :: InMonth(d, y, m) ==> exists i :: 0 <= i < GridCells && cells[i].date == d
    ensures forall i, j :: 0 <= i < j < GridCells && cells[i].isToday ==> !cells[j].isToday
  {
    var start := GridStart(y, m);
    forall i | 0 <= i < GridCells
      ensures cells[i].date == start + i
      ensures cells[i].isCurrentMonth <==> InMonth(cells[i].date, y, m)
      ensures cells[i].isToday <==> start + i == today
    {
      GridAt(log, y, m, today, start, GridCells, i);
    }
    forall d | InMonth(d, y, m)
      ensures exists i :: 0 <= i < GridCells && cells[i].date == d
    {
      assert cells[d - start].date == d;
    }
  }

  /** Direction of a month navigation click. */
  datatype Direction = Prev | Next

  /** The (year, month) one month away in direction `dir`, with year carry. */
  function Shift(y: int, m: int, dir: Direction): (r: (int, int))
    requires 0 <= m < 12
    ensures 0 <= r.1 < 12
  {
    match dir
    case Prev => PrevMonth(y, m)
    case Next => NextMonth(y, m)
  }

  /**
   * Month navigation as written: the month number moves by one and the
   * day of month is kept, so a day past the end of the target month
   * rolls over into the month after it, as `Date.setMonth` does.
   */
  function NavigateMonthAsWritten(date: CivilDate, dir: Direction): (r: CivilDate)
    requires date.Valid()
    ensures r.Valid()
    ensures var (y, m) := Shift(date.year, date.month, dir);
            r.DayNumber() == MonthStart(y, m) + date.day - 1
  {
    var (y, m) := Shift(date.year, date.month, dir);
    var len := DaysInMonth(y, m);
    if date.day <= len then CivilDate(y, m, date.day)
    else
      var (y', m') := NextMonth(y, m);
      MonthsAdjacent(y, m);
      CivilDate(y', m', date.day - len)
  }

  /**
   * The navigation as written skips a month or stays put from the end of
   * a long month: "next" from 31 January 2026 shows March, and "prev"
   * from 31 March 2026 shows March again.
   */
  lemma NavigateMonthOverflows()
    ensures NavigateMonthAsWritten(CivilDate(2026, 0, 31), Next) == CivilDate(2026, 2, 3)
    ensures NavigateMonthAsWritten(CivilDate(2026, 2, 31), Prev) == CivilDate(2026, 2, 3)
  {
    assert !IsLeap(2026);
  }

  /**
   * Month navigation as intended: exactly one month back or forward with
   * year carry, the day of month kept when the target month has it and
   * clamped to the target month's last day otherwise.
   */
  function NavigateMonth(date: CivilDate, dir: Direction): (r: CivilDate)
    requires date.Valid()
    ensures r.Valid()
    ensures (r.year, r.month) == Shift(date.year, date.month, dir)
    ensures r.day == if date.day <= DaysInMonth(r.year, r.month) then date.day else DaysInMonth(r.year, r.month)
  {
    var (y, m) := Shift(date.year, date.month, dir);
    var len := DaysInMonth(y, m);
    CivilDate(y, m, if date.day <= len then date.day else len)
  }

  /** "next" then "prev" shows the starting month again, and so does "prev" then "next". */
  lemma NavigateMonthRoundTrip(date: CivilDate)
    requires date.Valid()
    ensures var back := NavigateMonth(NavigateMonth(date, Next), Prev);
            back.year == date.year && back.month == date.month
    ensures var fwd := NavigateMonth(NavigateMonth(date, Prev), Next);
            fwd.year == date.year && fwd.month == date.month
  {
    var n := NavigateMonth(date, Next);
    assert PrevMonth(n.year, n.month) == (date.year, date.month);
  }

  /** Up to day 28 the navigation as written and as intended agree. */
  lemma NavigateMonthAgreesEarly(date: CivilDate, dir: Direction)
    requires date.Valid() && date.day <= 28
    ensures NavigateMonthAsWritten(date, dir) == NavigateMonth(date, dir)
  {
  }
}
