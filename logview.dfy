/**
 * The client's view of the completion log and the figures derived from it:
 * the `activeLogs` filter and the monthly and weekly statistics of
 * components/Dashboard.tsx, the cells and per-day rows of
 * components/WeeklyGrid.tsx and the chart series of components/StatsChart.tsx.
 */
module LogView {
  import opened Wrappers
  import opened Calendar
  import opened Records

  /**
   * An element of the client's `logs` array: a record, or the error body a
   * POST answered with, which the client stores as if it were a record.
   */
  datatype ClientLog = Entry(log: HabitLog) | ErrorBody(error: string)

  /** `l.habitId === habitId && isSameDay(parseISO(l.date), day)`; an error body has neither field, so it never matches. */
  predicate IsFor(e: ClientLog, habitId: Id, day: Day) {
    e.Entry? && e.log.habitId == habitId && DayOf(e.log.date) == day
  }

  predicate OnDay(e: ClientLog, day: Day) {
    e.Entry? && DayOf(e.log.date) == day
  }

  /** `l.completed` is truthy. */
  predicate Done(e: ClientLog) {
    e.Entry? && e.log.completed
  }

  /** `logs.findIndex(...)`: the first position holding a log of that habit on that day, or -1. */
  function FindIndex(logs: seq<ClientLog>, habitId: Id, day: Day): (i: int)
    ensures -1 <= i < |logs|
    ensures i >= 0 ==> IsFor(logs[i], habitId, day)
    ensures forall j :: 0 <= j < |logs| && (i < 0 || j < i) ==> !IsFor(logs[j], habitId, day)
  {
    if logs == [] then -1
    else if IsFor(logs[0], habitId, day) then 0
    else
      var k := FindIndex(logs[1..], habitId, day);
      if k < 0 then -1 else k + 1
  }

  /** Whether the first log of that habit on that day is completed (false when there is none). */
  predicate FirstCompleted(logs: seq<ClientLog>, habitId: Id, day: Day) {
    var i := FindIndex(logs, habitId, day);
    i >= 0 && Done(logs[i])
  }

  /**
   * An element of the client's `habits` array: a record, or the error body a
   * POST /api/habits answered with, which the client appends like a habit.
   */
  datatype ClientHabit = Shown(habit: Habit) | ErrorEntry(error: string)

  /** The element's `_id`; an error body has none (`undefined`). */
  function HabitId(c: ClientHabit): Option<Id> {
    if c.Shown? then Some(c.habit.id) else None
  }

  /** `habits.some(h => h._id === id)`. */
  predicate HasHabit(habits: seq<ClientHabit>, id: Id) {
    exists k :: 0 <= k < |habits| && HabitId(habits[k]) == Some(id)
  }

  /** The log's `habitId`; an error body has none (`undefined`). */
  function LogHabitId(e: ClientLog): Option<Id> {
    if e.Entry? then Some(e.log.habitId) else None
  }

  /**
   * `habits.some(h => h._id === log.habitId)`: an error body has no `habitId`
   * and an error entry no `_id`, and `undefined === undefined` holds, so an
   * error body is active exactly when the habit list holds an error entry.
   */
  predicate IsActive(e: ClientLog, habits: seq<ClientHabit>) {
    exists k :: 0 <= k < |habits| && HabitId(habits[k]) == LogHabitId(e)
  }

  /** `activeLogs`: the logs whose habitId belongs to a current habit, in their original order. */
  function ActiveLogs(logs: seq<ClientLog>, habits: seq<ClientHabit>): (r: seq<ClientLog>)
    ensures |r| <= |logs|
    ensures forall e :: e in r <==> e in logs && IsActive(e, habits)
    decreases |logs|
  {
    if logs == [] then []
    else
      var init := ActiveLogs(logs[..|logs| - 1], habits);
      var last := logs[|logs| - 1];
      assert logs == logs[..|logs| - 1] + [last];
      if IsActive(last, habits) then init + [last] else init
  }

  /** An error body passes the filter next to an error entry, since both lack the compared id. */
  lemma ErrorBodyMatchesErrorEntry(body: string, entry: string)
    ensures ActiveLogs([ErrorBody(body)], [ErrorEntry(entry)]) == [ErrorBody(body)]
    ensures ActiveLogs([ErrorBody(body)], []) == []
  {
    assert HabitId([ErrorEntry(entry)][0]) == LogHabitId(ErrorBody(body));
    assert [ErrorBody(body)][..0] == [];
  }

  /** The filter keeps order: filtering a concatenation concatenates the filtered parts. */
  lemma {:induction false} ActiveLogsAppend(a: seq<ClientLog>, b: seq<ClientLog>, habits: seq<ClientHabit>)
    ensures ActiveLogs(a + b, habits) == ActiveLogs(a, habits) + ActiveLogs(b, habits)
    decreases |b|
  {
    if b == [] {
      assert a + b == a;
    } else {
      var b' := b[..|b| - 1];
      assert (a + b)[..|a + b| - 1] == a + b';
      assert (a + b)[|a + b| - 1] == b[|b| - 1];
      ActiveLogsAppend(a, b', habits);
    }
  }

  /** The number of completed logs. */
  function CountDone(logs: seq<ClientLog>): (n: nat)
    ensures n <= |logs|
    decreases |logs|
  {
    if logs == [] then 0
    else CountDone(logs[..|logs| - 1]) + (if Done(logs[|logs| - 1]) then 1 else 0)
  }

  /**
   * `Math.round((completed / possible) * 100)` taken over the exact rational
   * quotient: the percentage rounded half up, and 0 when nothing is possible.
   */
  function RoundedRate(completed: int, possible: int): int {
    if possible > 0 then (200 * completed + possible) / (2 * possible) else 0
  }

  /** The rate is the percentage rounded half up, and lies in 0..100 whenever 0 <= completed <= possible. */
  lemma RoundedRateBounds(completed: int, possible: int)
    ensures possible > 0 ==>
      2 * possible * RoundedRate(completed, possible) <= 200 * completed + possible < 2 * possible * (RoundedRate(completed, possible) + 1)
    ensures 0 <= completed <= possible ==> 0 <= RoundedRate(completed, possible) <= 100
    ensures completed >= 0 && possible > 0 && 200 * completed >= 201 * possible ==> RoundedRate(completed, possible) > 100
  {
    if possible > 0 {
      var a, b := 200 * completed + possible, 2 * possible;
      var q := a / b;
      assert q == RoundedRate(completed, possible);
      DivBounds(a, b);
      if 0 <= completed <= possible {
        assert 0 <= a < b * 101;
        DivMonotone(a, b, 0);
        DivBelow(a, b, 101);
      }
      if completed >= 0 && 200 * completed >= 201 * possible {
        assert a >= b * 101;
        DivMonotone(a, b, 101);
      }
    }
  }

  lemma DivBounds(a: int, b: int)
    requires b > 0
    ensures b * (a / b) <= a < b * (a / b + 1)
  {
  }

  lemma DivMonotone(a: int, b: int, m: int)
    requires b > 0 && a >= b * m
    ensures a / b >= m
  {
    DivBounds(a, b);
  }

  lemma DivBelow(a: int, b: int, m: int)
    requires b > 0 && a < b * m
    ensures a / b < m
  {
    DivBounds(a, b);
  }

  datatype MonthStats = MonthStats(completed: int, possible: int, completionRate: int)

  /**
   * `totalPossible`, `totalCompleted` and `completionRate`: possible is habits
   * times days in the month, completed counts every completed active log the
   * client holds, padding days included.
   */
  function MonthlyStats(logs: seq<ClientLog>, habits: seq<ClientHabit>, ym: YearMonth): (r: MonthStats)
    ensures r.possible == |habits| * DaysInMonth(ym.year, ym.month)
    ensures r.completed == CountDone(ActiveLogs(logs, habits))
    ensures r.completionRate == RoundedRate(r.completed, r.possible)
    ensures habits == [] ==> r == MonthStats(0, 0, 0)
  {
    var possible := |habits| * DaysInMonth(ym.year, ym.month);
    var completed := CountDone(ActiveLogs(logs, habits));
    NoHabitsNoActiveLogs(logs, habits);
    MonthStats(completed, possible, RoundedRate(completed, possible))
  }

  lemma NoHabitsNoActiveLogs(logs: seq<ClientLog>, habits: seq<ClientHabit>)
    ensures habits == [] ==> ActiveLogs(logs, habits) == []
  {
  }

  lemma {:induction false} CountDoneAll(logs: seq<ClientLog>)
    requires forall i :: 0 <= i < |logs| ==> Done(logs[i])
    ensures CountDone(logs) == |logs|
    decreases |logs|
  {
    if logs != [] {
      CountDoneAll(logs[..|logs| - 1]);
    }
  }

  lemma {:induction false} ActiveLogsAll(logs: seq<ClientLog>, habits: seq<ClientHabit>)
    requires forall i :: 0 <= i < |logs| ==> IsActive(logs[i], habits)
    ensures ActiveLogs(logs, habits) == logs
    decreases |logs|
  {
    if logs != [] {
      ActiveLogsAll(logs[..|logs| - 1], habits);
      assert logs == logs[..|logs| - 1] + [logs[|logs| - 1]];
    }
  }

  /** One completed log of habit h at midnight of every day of the padded range of ym. */
  function OneLogPerPaddedDay(ym: YearMonth, h: Habit): seq<ClientLog> {
    seq(PaddedEnd(ym) - PaddedStart(ym) + 1, i => Entry(HabitLog("log", h.id, MidnightOf(PaddedStart(ym) + i), true, None)))
  }

  /**
   * The monthly count includes completions on padding days, so with one habit
   * completed on every day the client loads, a month with any padding reports
   * more completions than are possible and a rate above 100.
   */
  lemma MonthlyRateCanExceed100(ym: YearMonth, h: Habit)
    requires PaddedStart(ym) < FirstOfMonth(ym) || LastOfMonth(ym) < PaddedEnd(ym)
    ensures var r := MonthlyStats(OneLogPerPaddedDay(ym, h), [Shown(h)], ym);
      r.completed > r.possible && r.completionRate > 100
  {
    var logs := OneLogPerPaddedDay(ym, h);
    PaddedBounds(ym);
    assert forall i :: 0 <= i < |logs| ==> IsActive(logs[i], [Shown(h)]) by {
      forall i | 0 <= i < |logs| ensures IsActive(logs[i], [Shown(h)]) {
        assert HabitId([Shown(h)][0]) == Some(logs[i].log.habitId);
      }
    }
    ActiveLogsAll(logs, [Shown(h)]);
    CountDoneAll(logs);
    var r := MonthlyStats(logs, [Shown(h)], ym);
    assert r.completed == |logs| >= DaysInMonth(ym.year, ym.month) + 1;
    RoundedRateBounds(r.completed, r.possible);
  }

  /** How many of the habits have a completed first log on the day (the inner `habits.forEach` of `weeklyStats`). */
  function HabitsDoneOn(active: seq<ClientLog>, habits: seq<ClientHabit>, day: Day): (n: nat)
    ensures n <= |habits|
    decreases |habits|
  {
    if habits == [] then 0
    else
      HabitsDoneOn(active, habits[..|habits| - 1], day)
        + (var c := habits[|habits| - 1]; if c.Shown? && FirstCompleted(active, c.habit.id, day) then 1 else 0)
  }

  /** The (day, habit) pairs of a week whose first matching active log is completed. */
  function WeekCompleted(active: seq<ClientLog>, habits: seq<ClientHabit>, days: seq<Day>): (n: nat)
    ensures n <= |habits| * |days|
    decreases |days|
  {
    if days == [] then 0
    else
      var n := WeekCompleted(active, habits, days[..|days| - 1]) + HabitsDoneOn(active, habits, days[|days| - 1]);
      assert |habits| * |days| == |habits| * (|days| - 1) + |habits|;
      n
  }

  datatype WeekStat = WeekStat(weekIndex: int, completed: int, possible: int, completionRate: int)

  /** The entry `weeklyStats` computes for the week at `index`; its counts are bounded and its rate is a percentage. */
  function WeekStatOf(index: nat, days: seq<Day>, habits: seq<ClientHabit>, active: seq<ClientLog>): (r: WeekStat)
    ensures r.weekIndex == index + 1
    ensures r.possible == |habits| * |days|
    ensures r.completed == WeekCompleted(active, habits, days)
    ensures 0 <= r.completed <= r.possible
    ensures 0 <= r.completionRate <= 100
  {
    var possible := |habits| * |days|;
    var completed := WeekCompleted(active, habits, days);
    RoundedRateBounds(completed, possible);
    WeekStat(index + 1, completed, possible, RoundedRate(completed, possible))
  }

  /** `weeklyStats`: for each week, the nested `forEach` that increments `weekCompleted`. */
  method WeeklyStats(weeks: seq<seq<Day>>, habits: seq<ClientHabit>, active: seq<ClientLog>) returns (stats: seq<WeekStat>)
    ensures |stats| == |weeks|
    ensures forall i :: 0 <= i < |weeks| ==> stats[i] == WeekStatOf(i, weeks[i], habits, active)
  {
    stats := [];
    for w := 0 to |weeks|
      invariant |stats| == w
      invariant forall i :: 0 <= i < w ==> stats[i] == WeekStatOf(i, weeks[i], habits, active)
    {
      var weekDays := weeks[w];
      var weekPossible := |habits| * |weekDays|;
      var weekCompleted := 0;
      for d := 0 to |weekDays|
        invariant weekCompleted == WeekCompleted(active, habits, weekDays[..d])
      {
        var day := weekDays[d];
        assert weekDays[..d + 1][..d] == weekDays[..d];
        for h := 0 to |habits|
          invariant weekCompleted == WeekCompleted(active, habits, weekDays[..d]) + HabitsDoneOn(active, habits[..h], day)
        {
          assert habits[..h + 1][..h] == habits[..h];
          if habits[h].Shown? {
            var i := FindIndex(active, habits[h].habit.id, day);
            if i >= 0 && Done(active[i]) {
              weekCompleted := weekCompleted + 1;
            }
          }
        }
        assert habits[..|habits|] == habits;
      }
      assert weekDays[..|weekDays|] == weekDays;
      var pct := if weekPossible > 0 then (200 * weekCompleted + weekPossible) / (2 * weekPossible) else 0;
      stats := stats + [WeekStat(w + 1, weekCompleted, weekPossible, pct)];
    }
  }

  /** A grid cell shows completed: some log, at any position, of that habit on that day is completed. */
  predicate CellCompleted(logs: seq<ClientLog>, habitId: Id, day: Day) {
    exists i :: 0 <= i < |logs| && IsFor(logs[i], habitId, day) && Done(logs[i])
  }

  /** What the weekly statistics count for a (habit, day) pair always shows as completed in the grid. */
  lemma FirstCompletedShowsInGrid(logs: seq<ClientLog>, habitId: Id, day: Day)
    requires FirstCompleted(logs, habitId, day)
    ensures CellCompleted(logs, habitId, day)
  {
    var i := FindIndex(logs, habitId, day);
    assert IsFor(logs[i], habitId, day) && Done(logs[i]);
  }

  /** When a habit has at most one log per day, the grid's `some` and the statistics' `find` agree. */
  lemma GridAgreesWithStatsWhenUnique(logs: seq<ClientLog>, habitId: Id, day: Day)
    requires forall i, j :: 0 <= i < |logs| && 0 <= j < |logs| && IsFor(logs[i], habitId, day) && IsFor(logs[j], habitId, day) ==> i == j
    ensures CellCompleted(logs, habitId, day) <==> FirstCompleted(logs, habitId, day)
  {
    if CellCompleted(logs, habitId, day) {
      var i :| 0 <= i < |logs| && IsFor(logs[i], habitId, day) && Done(logs[i]);
      assert FindIndex(logs, habitId, day) == i;
    }
  }

  /** Two logs of one habit on one day, the first not completed: the grid shows a tick the weekly statistics do not count. */
  lemma GridAndStatsCanDisagree()
    ensures var logs := [Entry(HabitLog("a", "h", 0, false, None)), Entry(HabitLog("b", "h", 1000, true, None))];
      CellCompleted(logs, "h", DayOf(0)) && !FirstCompleted(logs, "h", DayOf(0))
  {
    var logs := [Entry(HabitLog("a", "h", 0, false, None)), Entry(HabitLog("b", "h", 1000, true, None))];
    assert IsFor(logs[1], "h", DayOf(0)) && Done(logs[1]);
    assert FindIndex(logs, "h", DayOf(0)) == 0;
  }

  /** The per-day count row: completed logs on that day across all habitIds, current habits or not. */
  function DayCount(logs: seq<ClientLog>, day: Day): (n: nat)
    ensures n <= |logs|
    decreases |logs|
  {
    if logs == [] then 0
    else DayCount(logs[..|logs| - 1], day) + (if OnDay(logs[|logs| - 1], day) && Done(logs[|logs| - 1]) then 1 else 0)
  }

  /** The per-day percentage row: the day's count over the number of habits, rounded. */
  function DayPercent(logs: seq<ClientLog>, habitCount: nat, day: Day): (r: int)
    ensures habitCount == 0 ==> r == 0
    ensures habitCount > 0 ==> 2 * habitCount * r <= 200 * DayCount(logs, day) + habitCount < 2 * habitCount * (r + 1)
  {
    RoundedRateBounds(DayCount(logs, day), habitCount);
    RoundedRate(DayCount(logs, day), habitCount)
  }

  /** Logs of a deleted habit still count, so one habit can show 200% on a day. */
  lemma DayPercentCanExceed100()
    ensures var logs := [Entry(HabitLog("a", "h", 0, true, None)), Entry(HabitLog("b", "gone", 0, true, None))];
      DayCount(logs, DayOf(0)) == 2 && DayPercent(logs, 1, DayOf(0)) == 200
  {
    var logs := [Entry(HabitLog("a", "h", 0, true, None)), Entry(HabitLog("b", "gone", 0, true, None))];
    assert logs[..1] == [logs[0]];
    assert logs[..1][..0] == [];
  }

  /** A cell or count is dimmed exactly when its day lies outside the month: a padding day. */
  predicate IsPaddingDay(ym: YearMonth, d: Day) {
    !InMonth(d, ym)
  }

  /** Padding days occur only in the grid's first week (before the 1st) and its last week (after the last day). */
  lemma PaddingOnlyInEdgeWeeks(ym: YearMonth, i: int, j: int)
    requires 0 <= i < |MonthWeeks(ym)| && 0 <= j < 7
    ensures j < |MonthWeeks(ym)[i]|
    ensures IsPaddingDay(ym, MonthWeeks(ym)[i][j]) ==>
      (i == 0 && MonthWeeks(ym)[i][j] < FirstOfMonth(ym)) || (i == |MonthWeeks(ym)| - 1 && MonthWeeks(ym)[i][j] > LastOfMonth(ym))
  {
    var w := MonthWeeks(ym);
    MonthWeeksShape(ym);
    PaddedBounds(ym);
    FullChunksLength(w);
    assert 7 * |w| == PaddedEnd(ym) - PaddedStart(ym) + 1;
  }

  /** The header letters, Sunday first. */
  const DayLetters: string := "SMTWTFS"

  /** The j-th header letter names the weekday of the j-th day of every grid week. */
  lemma HeaderLettersMatchDays(ym: YearMonth, i: int, j: int)
    requires 0 <= i < |MonthWeeks(ym)| && 0 <= j < 7
    ensures j < |MonthWeeks(ym)[i]| && DayLetters[j] == DayLetters[Weekday(MonthWeeks(ym)[i][j])]
  {
    MonthWeeksShape(ym);
  }

  /** Clicking a cell toggles that habit at that day's midnight, an instant that falls on that day. */
  function CellToggleTarget(habit: Habit, day: Day): (r: (Id, Instant))
    ensures r.0 == habit.id && DayOf(r.1) == day
  {
    MidnightOfDay(day, 0);
    (habit.id, MidnightOf(day))
  }

  datatype ChartPoint = ChartPoint(date: Day, dateStr: int, completed: nat)

  /** The chart's `data`: one point per day of the month, first to last, with that day's completed logs. */
  function ChartData(logs: seq<ClientLog>, ym: YearMonth): (r: seq<ChartPoint>)
    ensures |r| == DaysInMonth(ym.year, ym.month)
    ensures forall i :: 0 <= i < |r| ==>
      && r[i].date == FirstOfMonth(ym) + i && InMonth(r[i].date, ym)
      && r[i].dateStr == r[i].date - FirstOfMonth(ym) + 1
      && r[i].completed == DayCount(logs, r[i].date)
  {
    seq(DaysInMonth(ym.year, ym.month), i => ChartPoint(FirstOfMonth(ym) + i, i + 1, DayCount(logs, FirstOfMonth(ym) + i)))
  }

  /** The Y-axis domain's upper bound. */
  function YAxisMax(totalHabits: int): (m: int)
    ensures m > 0
    ensures totalHabits > 0 ==> m == totalHabits
    ensures totalHabits <= 0 ==> m == 5
  {
    if totalHabits > 0 then totalHabits else 5
  }

  function SumCompleted(points: seq<ChartPoint>): nat
    decreases |points|
  {
    if points == [] then 0 else SumCompleted(points[..|points| - 1]) + points[|points| - 1].completed
  }

  /** Completed logs dated from day lo to day hi inclusive. */
  function CountDoneBetween(logs: seq<ClientLog>, lo: Day, hi: Day): nat
    decreases |logs|
  {
    if logs == [] then 0
    else
      var e := logs[|logs| - 1];
      CountDoneBetween(logs[..|logs| - 1], lo, hi) + (if e.Entry? && Done(e) && lo <= DayOf(e.log.date) <= hi then 1 else 0)
  }

  lemma {:induction false} CountDoneBetweenExtend(logs: seq<ClientLog>, lo: Day, hi: Day)
    requires lo <= hi + 1
    ensures CountDoneBetween(logs, lo, hi + 1) == CountDoneBetween(logs, lo, hi) + DayCount(logs, hi + 1)
    decreases |logs|
  {
    if logs != [] {
      CountDoneBetweenExtend(logs[..|logs| - 1], lo, hi);
    }
  }

  /** Points holding the completion counts of consecutive days from f sum, over a prefix, to the completions of those days. */
  lemma {:induction false} SumPrefix(pts: seq<ChartPoint>, logs: seq<ClientLog>, f: Day, n: nat)
    requires n <= |pts|
    requires forall i :: 0 <= i < |pts| ==> pts[i].completed == DayCount(logs, f + i)
    ensures SumCompleted(pts[..n]) == CountDoneBetween(logs, f, f + n - 1)
    decreases n
  {
    if n == 0 {
      CountDoneBetweenEmpty(logs, f);
    } else {
      SumPrefix(pts, logs, f, n - 1);
      assert pts[..n][..n - 1] == pts[..n - 1];
      CountDoneBetweenExtend(logs, f, f + n - 2);
    }
  }

  /** Summed over the month, the chart's points are the completed logs dated inside the month. */
  lemma ChartSumsMonth(logs: seq<ClientLog>, ym: YearMonth)
    ensures SumCompleted(ChartData(logs, ym)) == CountDoneBetween(logs, FirstOfMonth(ym), LastOfMonth(ym))
  {
    var pts := ChartData(logs, ym);
    SumPrefix(pts, logs, FirstOfMonth(ym), |pts|);
    assert pts[..|pts|] == pts;
  }

  lemma {:induction false} CountDoneBetweenEmpty(logs: seq<ClientLog>, lo: Day)
    ensures CountDoneBetween(logs, lo, lo - 1) == 0
    decreases |logs|
  {
    if logs != [] {
      CountDoneBetweenEmpty(logs[..|logs| - 1], lo);
    }
  }
}
