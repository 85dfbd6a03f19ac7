/**
 * Calendar arithmetic and the month partitioner of lib/dateUtils.ts.
 *
 * A day is a Rata Die number: day 1 is Monday, 1 January of year 1 in the
 * proleptic Gregorian calendar, so day 0 is a Sunday and `d % 7` is the
 * weekday with 0 = Sunday .. 6 = Saturday (Dafny's `%` never goes negative).
 * An instant is a count of milliseconds of local wall-clock time since
 * 1970-01-01T00:00; time zones and daylight saving are abstracted away, so
 * every day is exactly 86 400 000 ms long.
 */
module Calendar {

  type Day = int
  type Instant = int
  type Month = m: int | 1 <= m <= 12 witness 1

  const MsPerDay: int := 86_400_000
  /** The day number of 1970-01-01, where instant 0 falls. */
  const UnixEpochDay: Day := 719163

  /** The calendar day an instant falls on (`isSameDay` compares these). */
  function DayOf(t: Instant): Day {
    UnixEpochDay + t / MsPerDay
  }

  /** The first instant of a day (`startOfDay`, and the dates `eachDayOfInterval` yields). */
  function MidnightOf(d: Day): Instant {
    (d - UnixEpochDay) * MsPerDay
  }

  /** Midnight of a day falls on that day, and every instant lies in the day of its own midnight. */
  lemma MidnightOfDay(d: Day, t: Instant)
    ensures DayOf(MidnightOf(d)) == d
    ensures MidnightOf(DayOf(t)) <= t < MidnightOf(DayOf(t)) + MsPerDay
    ensures DayOf(t) == d <==> MidnightOf(d) <= t < MidnightOf(d) + MsPerDay
  {
    var k := d - UnixEpochDay;
    assert (k * MsPerDay) / MsPerDay == k;
    var q := t / MsPerDay;
    assert MsPerDay * q <= t < MsPerDay * q + MsPerDay;
  }

  /** Instants from the midnight of lo up to the last millisecond of hi are exactly those whose day lies in lo..hi. */
  lemma DaySpan(lo: Day, hi: Day, t: Instant)
    ensures MidnightOf(lo) <= t <= MidnightOf(hi + 1) - 1 <==> lo <= DayOf(t) <= hi
  {
    var q := t / MsPerDay;
    assert MsPerDay * q <= t < MsPerDay * q + MsPerDay;
  }

  /** 0 = Sunday .. 6 = Saturday. */
  function Weekday(d: Day): int {
    d % 7
  }

  predicate IsLeapYear(y: int) {
    y % 4 == 0 && (y % 100 != 0 || y % 400 == 0)
  }

  function DaysInMonth(y: int, m: Month): (n: int)
    ensures 28 <= n <= 31
    ensures m == 2 ==> (n == 29 <==> IsLeapYear(y))
  {
    if m == 2 then (if IsLeapYear(y) then 29 else 28)
    else if m == 4 || m == 6 || m == 9 || m == 11 then 30
    else 31
  }

  /** Days in the months of year y that come before month m. */
  function DaysBeforeMonth(y: int, m: Month): int {
    [0, 31, 59, 90, 120, 151, 181, 212, 243, 273, 304, 334][m - 1]
      + (if m > 2 && IsLeapYear(y) then 1 else 0)
  }

  /** Days in the years before year y (day 0 is 31 December of year 0). */
  function DaysBeforeYear(y: int): int {
    365 * (y - 1) + (y - 1) / 4 - (y - 1) / 100 + (y - 1) / 400
  }

  datatype YearMonth = YearMonth(year: int, month: Month)

  /** `startOfMonth`: the day number of the 1st of the month. */
  function FirstOfMonth(ym: YearMonth): Day {
    DaysBeforeYear(ym.year) + DaysBeforeMonth(ym.year, ym.month) + 1
  }

  /** `endOfMonth`: the day number of the month's last day. */
  function LastOfMonth(ym: YearMonth): Day {
    FirstOfMonth(ym) + DaysInMonth(ym.year, ym.month) - 1
  }

  /** `isSameMonth(day, currentDate)`. */
  predicate InMonth(d: Day, ym: YearMonth) {
    FirstOfMonth(ym) <= d <= LastOfMonth(ym)
  }

  /** A valid calendar date, such as the reference date the grid is drawn for. */
  datatype CalendarDate = CalendarDate(year: int, month: Month, day: int) {
    predicate Valid() {
      1 <= day <= DaysInMonth(year, month)
    }
    function Of(): YearMonth {
      YearMonth(year, month)
    }
    function DayNumber(): Day {
      FirstOfMonth(Of()) + day - 1
    }
  }

  lemma DateInItsMonth(date: CalendarDate)
    requires date.Valid()
    ensures InMonth(date.DayNumber(), date.Of())
  {
  }

  /** Multiples of 4, 100 and 400 up to y outnumber those up to y - 1 exactly when y is one. */
  lemma MultipleCounts(y: int)
    ensures y / 4 - (y - 1) / 4 == if y % 4 == 0 then 1 else 0
    ensures y / 100 - (y - 1) / 100 == if y % 100 == 0 then 1 else 0
    ensures y / 400 - (y - 1) / 400 == if y % 400 == 0 then 1 else 0
    ensures y % 100 == 0 ==> y % 4 == 0
    ensures y % 400 == 0 ==> y % 100 == 0
  {
  }

  /** Leap days before year y + 1 and before year y differ by one exactly in a leap year. */
  lemma YearLength(y: int)
    ensures DaysBeforeYear(y + 1) - DaysBeforeYear(y) == if IsLeapYear(y) then 366 else 365
  {
    MultipleCounts(y);
    assert DaysBeforeYear(y + 1) == 365 * y + y / 4 - y / 100 + y / 400;
  }

  /** addMonths(currentDate, 1), at month granularity. */
  function NextMonth(ym: YearMonth): (r: YearMonth)
    ensures FirstOfMonth(r) == LastOfMonth(ym) + 1
  {
    YearLength(ym.year);
    if ym.month == 12 then YearMonth(ym.year + 1, 1) else YearMonth(ym.year, ym.month + 1)
  }

  /** subMonths(currentDate, 1), at month granularity. */
  function PrevMonth(ym: YearMonth): (r: YearMonth)
    ensures LastOfMonth(r) + 1 == FirstOfMonth(ym)
    ensures NextMonth(r) == ym
  {
    YearLength(ym.year - 1);
    if ym.month == 1 then YearMonth(ym.year - 1, 12) else YearMonth(ym.year, ym.month - 1)
  }

  /**
   * addMonths(date, 1) when forward, subMonths(date, 1) otherwise: the same
   * day number in the neighbouring month, clamped to that month's last day.
   */
  function ShiftMonth(date: CalendarDate, forward: bool): (r: CalendarDate)
    requires date.Valid()
    ensures r.Valid()
    ensures r.Of() == if forward then NextMonth(date.Of()) else PrevMonth(date.Of())
    ensures date.day <= DaysInMonth(r.year, r.month) ==> r.day == date.day
    ensures date.day > DaysInMonth(r.year, r.month) ==> r.day == DaysInMonth(r.year, r.month)
  {
    var ym := if forward then NextMonth(date.Of()) else PrevMonth(date.Of());
    var n := DaysInMonth(ym.year, ym.month);
    CalendarDate(ym.year, ym.month, if date.day <= n then date.day else n)
  }

  /** Forward then back returns to the same month, and to the same date whenever the day number exists in every month. */
  lemma ShiftMonthRoundTrip(date: CalendarDate)
    requires date.Valid()
    ensures ShiftMonth(ShiftMonth(date, true), false).Of() == date.Of()
    ensures date.day <= 28 ==> ShiftMonth(ShiftMonth(date, true), false) == date
  {
    var there := ShiftMonth(date, true);
    assert PrevMonth(NextMonth(date.Of())) == date.Of() by {
      var p := PrevMonth(NextMonth(date.Of()));
      assert NextMonth(p) == NextMonth(date.Of());
    }
  }

  /** The clamp loses the day: 31 March 2025 forward and back is 30 March 2025. */
  lemma ShiftMonthLosesDay()
    ensures ShiftMonth(ShiftMonth(CalendarDate(2025, 3, 31), true), false) == CalendarDate(2025, 3, 30)
  {
  }

  /** startOfWeek(startOfMonth(date), { weekStartsOn: 0 }). */
  function PaddedStart(ym: YearMonth): Day {
    FirstOfMonth(ym) - Weekday(FirstOfMonth(ym))
  }

  /** endOfWeek(endOfMonth(date), { weekStartsOn: 0 }), as a day. */
  function PaddedEnd(ym: YearMonth): Day {
    LastOfMonth(ym) + (6 - Weekday(LastOfMonth(ym)))
  }

  /** The week arithmetic behind PaddedBounds, for a month of n days starting on day f. */
  lemma PaddedArithmetic(f: int, n: int)
    requires 28 <= n <= 31
    ensures var s, e := f - f % 7, (f + n - 1) + (6 - (f + n - 1) % 7);
      && s % 7 == 0 && e % 7 == 6
      && s <= f <= s + 6 && f + n - 1 <= e <= f + n + 5
      && (e - s + 1) % 7 == 0 && 28 <= e - s + 1 <= 42
  {
  }

  /** The padded range starts on the Sunday on or before the 1st and ends on the Saturday on or after the last day. */
  lemma PaddedBounds(ym: YearMonth)
    ensures Weekday(PaddedStart(ym)) == 0 && Weekday(PaddedEnd(ym)) == 6
    ensures PaddedStart(ym) <= FirstOfMonth(ym) <= PaddedStart(ym) + 6
    ensures LastOfMonth(ym) <= PaddedEnd(ym) <= LastOfMonth(ym) + 6
    ensures (PaddedEnd(ym) - PaddedStart(ym) + 1) % 7 == 0
    ensures 28 <= PaddedEnd(ym) - PaddedStart(ym) + 1 <= 42
  {
    PaddedArithmetic(FirstOfMonth(ym), DaysInMonth(ym.year, ym.month));
  }

  /** eachDayOfInterval({ start, end }): the days start..end, in order. */
  function DayRange(start: Day, end: Day): (r: seq<Day>)
    ensures |r| == if start <= end then end - start + 1 else 0
    ensures forall i :: 0 <= i < |r| ==> r[i] == start + i
  {
    if start <= end then seq(end - start + 1, i => start + i) else []
  }

  /** Consecutive groups of at most seven, the way the `forEach` loop of getWeeksInMonth cuts a list. */
  function Chunks<T>(s: seq<T>): seq<seq<T>>
    decreases |s|
  {
    if |s| == 0 then []
    else if |s| <= 7 then [s]
    else [s[..7]] + Chunks(s[7..])
  }

  function Concat<T>(ss: seq<seq<T>>): seq<T> {
    if ss == [] then [] else ss[0] + Concat(ss[1..])
  }

  lemma ConcatAppend<T>(a: seq<seq<T>>, b: seq<seq<T>>)
    ensures Concat(a + b) == Concat(a) + Concat(b)
  {
    if a == [] {
      assert a + b == b;
    } else {
      assert (a + b)[1..] == a[1..] + b;
      ConcatAppend(a[1..], b);
    }
  }

  /** The chunks concatenate back to the input. */
  lemma {:induction false} ChunksConcat<T>(s: seq<T>)
    ensures Concat(Chunks(s)) == s
    decreases |s|
  {
    if 0 < |s| <= 7 {
      assert Chunks(s) == [s];
      assert Concat([s]) == s + Concat([]);
    } else if |s| > 7 {
      ChunksConcat(s[7..]);
      assert Chunks(s) == [s[..7]] + Chunks(s[7..]);
      assert Concat(Chunks(s)) == s[..7] + Concat(Chunks(s[7..]));
      assert s[..7] + s[7..] == s;
    }
  }

  lemma {:induction false} ChunksCount<T>(s: seq<T>)
    ensures |Chunks(s)| == (|s| + 6) / 7
    decreases |s|
  {
    if |s| > 7 {
      ChunksCount(s[7..]);
    }
  }

  /** Chunk `i` has one to seven elements, seven unless it is the last, and ends within the input. */
  lemma {:induction false} ChunkLength<T>(s: seq<T>, i: int)
    requires 0 <= i < |Chunks(s)|
    ensures 1 <= |Chunks(s)[i]| <= 7
    ensures i < |Chunks(s)| - 1 ==> |Chunks(s)[i]| == 7
    ensures 7 * i + |Chunks(s)[i]| <= |s|
    decreases |s|
  {
    if |s| > 7 {
      assert Chunks(s) == [s[..7]] + Chunks(s[7..]);
      if i > 0 {
        ChunkLength(s[7..], i - 1);
      }
    }
  }

  /** Element `j` of chunk `i` is input element 7i+j. */
  lemma {:induction false} ChunkElement<T>(s: seq<T>, i: int, j: int)
    requires 0 <= i < |Chunks(s)| && 0 <= j < |Chunks(s)[i]|
    ensures 7 * i + j < |s| && Chunks(s)[i][j] == s[7 * i + j]
    decreases |s|
  {
    if |s| > 7 {
      var rest := s[7..];
      assert Chunks(s) == [s[..7]] + Chunks(rest);
      if i > 0 {
        assert Chunks(s)[i] == Chunks(rest)[i - 1];
        ChunkElement(rest, i - 1, j);
        assert rest[7 * (i - 1) + j] == s[7 * i + j];
      }
    }
  }

  /** The general chunking lemma: the chunks are non-empty, all but the last have length 7, and together they are the input. */
  lemma ChunksShape<T>(s: seq<T>)
    ensures Concat(Chunks(s)) == s
    ensures |Chunks(s)| == (|s| + 6) / 7
    ensures forall i :: 0 <= i < |Chunks(s)| ==> 1 <= |Chunks(s)[i]| <= 7
    ensures forall i :: 0 <= i < |Chunks(s)| - 1 ==> |Chunks(s)[i]| == 7
    ensures forall i :: 0 <= i < |Chunks(s)| ==> 7 * i + |Chunks(s)[i]| <= |s|
    ensures forall i, j :: 0 <= i < |Chunks(s)| && 0 <= j < |Chunks(s)[i]| ==> Chunks(s)[i][j] == s[7 * i + j]
  {
    ChunksConcat(s);
    ChunksCount(s);
    forall i | 0 <= i < |Chunks(s)|
      ensures 1 <= |Chunks(s)[i]| <= 7
      ensures i < |Chunks(s)| - 1 ==> |Chunks(s)[i]| == 7
      ensures 7 * i + |Chunks(s)[i]| <= |s|
    {
      ChunkLength(s, i);
    }
    forall i, j | 0 <= i < |Chunks(s)| && 0 <= j < |Chunks(s)[i]|
      ensures Chunks(s)[i][j] == s[7 * i + j]
    {
      ChunkElement(s, i, j);
    }
  }

  /** A list whose length is a multiple of seven falls into full weeks. */
  lemma ChunksOfFullWeeks<T>(s: seq<T>)
    requires |s| % 7 == 0
    ensures |Chunks(s)| == |s| / 7
    ensures forall i :: 0 <= i < |Chunks(s)| ==> |Chunks(s)[i]| == 7
  {
    ChunksShape(s);
    var c := Chunks(s);
    if |c| > 0 {
      var last := |c| - 1;
      assert Concat(c[..last] + [c[last]]) == Concat(c[..last]) + Concat([c[last]]) by {
        ConcatAppend(c[..last], [c[last]]);
      }
      assert c[..last] + [c[last]] == c;
      FullChunksLength(c[..last]);
      assert Concat([c[last]]) == c[last] + Concat([]);
      assert |s| == 7 * last + |c[last]|;
    }
  }

  lemma {:induction false} FullChunksLength<T>(c: seq<seq<T>>)
    requires forall i :: 0 <= i < |c| ==> |c[i]| == 7
    ensures |Concat(c)| == 7 * |c|
  {
    if c != [] {
      FullChunksLength(c[1..]);
    }
  }

  /** What getWeeksInMonth returns for any date of the month ym. */
  function MonthWeeks(ym: YearMonth): seq<seq<Day>> {
    Chunks(DayRange(PaddedStart(ym), PaddedEnd(ym)))
  }

  /** The row of the grid starting on `start` that holds day d. */
  function WeekIndex(start: Day, d: Day): int {
    (d - start) / 7
  }

  /** Seven days after a Sunday-aligned day, the weekday repeats. */
  lemma WeekdayInRow(start: Day, i: int, j: int)
    requires start % 7 == 0 && 0 <= j < 7
    ensures Weekday(start + 7 * i + j) == j
  {
    var q := start / 7;
    assert start + 7 * i + j == 7 * (q + i) + j;
  }

  /** The cells of a Sunday-to-Saturday range: row i, column j holds day start + 7i + j, a day of weekday j. */
  lemma GridCells(start: Day, end: Day)
    requires start % 7 == 0 && (end - start + 1) % 7 == 0 && start <= end
    ensures |Chunks(DayRange(start, end))| == (end - start + 1) / 7
    ensures forall i :: 0 <= i < |Chunks(DayRange(start, end))| ==> |Chunks(DayRange(start, end))[i]| == 7
    ensures forall i, j :: 0 <= i < |Chunks(DayRange(start, end))| && 0 <= j < 7 ==>
      Chunks(DayRange(start, end))[i][j] == start + 7 * i + j && Weekday(Chunks(DayRange(start, end))[i][j]) == j
  {
    var days := DayRange(start, end);
    ChunksShape(days);
    ChunksOfFullWeeks(days);
    var w := Chunks(days);
    forall i, j | 0 <= i < |w| && 0 <= j < 7
      ensures w[i][j] == start + 7 * i + j && Weekday(w[i][j]) == j
    {
      assert w[i][j] == days[7 * i + j];
      WeekdayInRow(start, i, j);
    }
  }

  /** A Sunday-to-Saturday range falls into full weeks whose j-th day has weekday j. */
  lemma GridShape(start: Day, end: Day)
    requires start % 7 == 0 && (end - start + 1) % 7 == 0 && start <= end
    ensures |Chunks(DayRange(start, end))| == (end - start + 1) / 7
    ensures forall i :: 0 <= i < |Chunks(DayRange(start, end))| ==> |Chunks(DayRange(start, end))[i]| == 7
    ensures forall i, j :: 0 <= i < |Chunks(DayRange(start, end))| && 0 <= j < 7 ==>
      Chunks(DayRange(start, end))[i][j] == start + 7 * i + j && Weekday(Chunks(DayRange(start, end))[i][j]) == j
    ensures Concat(Chunks(DayRange(start, end))) == DayRange(start, end)
    ensures forall d :: start <= d <= end ==>
      0 <= WeekIndex(start, d) < |Chunks(DayRange(start, end))| && Chunks(DayRange(start, end))[WeekIndex(start, d)][Weekday(d)] == d
  {
    var days := DayRange(start, end);
    ChunksConcat(days);
    GridCells(start, end);
    var w := Chunks(days);
    forall d | start <= d <= end
      ensures 0 <= WeekIndex(start, d) < |w| && w[WeekIndex(start, d)][Weekday(d)] == d
    {
      var k := d - start;
      var i, j := k / 7, k % 7;
      assert 7 * i + j == k && 0 <= j < 7;
      WeekdayInRow(start, i, j);
      assert w[i][j] == d;
    }
  }

  /**
   * Every week has exactly seven consecutive days from Sunday to Saturday,
   * the weeks follow one another without gap or overlap, there are 4 to 6 of
   * them, and every day of the month appears in exactly one place.
   */
  lemma MonthWeeksShape(ym: YearMonth)
    ensures 4 <= |MonthWeeks(ym)| <= 6
    ensures forall i :: 0 <= i < |MonthWeeks(ym)| ==> |MonthWeeks(ym)[i]| == 7
    ensures forall i, j :: 0 <= i < |MonthWeeks(ym)| && 0 <= j < 7 ==>
      MonthWeeks(ym)[i][j] == PaddedStart(ym) + 7 * i + j && Weekday(MonthWeeks(ym)[i][j]) == j
    ensures Concat(MonthWeeks(ym)) == DayRange(PaddedStart(ym), PaddedEnd(ym))
    ensures forall d :: InMonth(d, ym) ==>
      0 <= WeekIndex(PaddedStart(ym), d) < |MonthWeeks(ym)| && MonthWeeks(ym)[WeekIndex(PaddedStart(ym), d)][Weekday(d)] == d
  {
    PaddedBounds(ym);
    GridShape(PaddedStart(ym), PaddedEnd(ym));
  }

  /** No day appears twice in the grid. */
  lemma MonthWeeksDistinct(ym: YearMonth, i: int, j: int, i': int, j': int)
    requires 0 <= i < |MonthWeeks(ym)| && 0 <= j < |MonthWeeks(ym)[i]|
    requires 0 <= i' < |MonthWeeks(ym)| && 0 <= j' < |MonthWeeks(ym)[i']|
    requires MonthWeeks(ym)[i][j] == MonthWeeks(ym)[i'][j']
    ensures i == i' && j == j'
  {
    MonthWeeksShape(ym);
  }

  /** A 28-day month that starts on a Sunday fills exactly four weeks with no padding. */
  lemma FourWeekFebruary(ym: YearMonth)
    requires DaysInMonth(ym.year, ym.month) == 28 && Weekday(FirstOfMonth(ym)) == 0
    ensures |MonthWeeks(ym)| == 4
    ensures PaddedStart(ym) == FirstOfMonth(ym) && PaddedEnd(ym) == LastOfMonth(ym)
  {
    PaddedBounds(ym);
    ChunksOfFullWeeks(DayRange(PaddedStart(ym), PaddedEnd(ym)));
    assert LastOfMonth(ym) == FirstOfMonth(ym) + 27;
  }

  /** February 2015 is such a month. */
  lemma February2015()
    ensures !IsLeapYear(2015) && Weekday(FirstOfMonth(YearMonth(2015, 2))) == 0
    ensures |MonthWeeks(YearMonth(2015, 2))| == 4
  {
    assert FirstOfMonth(YearMonth(2015, 2)) == 735630 == 7 * 105090;
    FourWeekFebruary(YearMonth(2015, 2));
  }

  /** Flushing a full week keeps the chunks still to come. */
  lemma FlushWeek<T>(weeks: seq<seq<T>>, week: seq<T>, rest: seq<T>, all: seq<seq<T>>)
    requires |week| == 7 && weeks + Chunks(week + rest) == all
    ensures (weeks + [week]) + Chunks([] + rest) == all
  {
    assert (week + rest)[..7] == week;
    assert (week + rest)[7..] == rest;
    assert [] + rest == rest;
    if rest == [] {
      assert week + rest == week;
    }
    assert Chunks(week + rest) == [week] + Chunks(rest);
  }

  /** Moving the next day into the current week leaves the pending days unchanged. */
  lemma PushDay<T>(week: seq<T>, days: seq<T>, i: int)
    requires 0 <= i < |days|
    ensures (week + [days[i]]) + days[i + 1..] == week + days[i..]
  {
    assert days[i..] == [days[i]] + days[i + 1..];
  }

  /** The last, possibly short, week is the last chunk. */
  lemma LastWeek<T>(weeks: seq<seq<T>>, week: seq<T>, days: seq<T>, all: seq<seq<T>>)
    requires |week| <= 7 && weeks + Chunks(week + days[|days|..]) == all
    ensures (if |week| > 0 then weeks + [week] else weeks) == all
  {
    assert week + days[|days|..] == week;
    if week == [] {
      assert weeks + [] == weeks;
    }
  }

  /** The `forEach` loop of getWeeksInMonth: fill `currentWeek`, flush it into `weeks` when it holds seven days. */
  method ChunkIntoWeeks(calendarDays: seq<Day>) returns (weeks: seq<seq<Day>>)
    ensures weeks == Chunks(calendarDays)
  {
    weeks := [];
    var currentWeek: seq<Day> := [];
    assert currentWeek + calendarDays[0..] == calendarDays;
    for i := 0 to |calendarDays|
      invariant |currentWeek| <= 7
      invariant weeks + Chunks(currentWeek + calendarDays[i..]) == Chunks(calendarDays)
    {
      if |currentWeek| == 7 {
        FlushWeek(weeks, currentWeek, calendarDays[i..], Chunks(calendarDays));
        weeks := weeks + [currentWeek];
        currentWeek := [];
      }
      PushDay(currentWeek, calendarDays, i);
      currentWeek := currentWeek + [calendarDays[i]];
    }
    LastWeek(weeks, currentWeek, calendarDays, Chunks(calendarDays));
    if |currentWeek| > 0 {
      weeks := weeks + [currentWeek];
    }
  }

  /** getWeeksInMonth(currentDate): the result depends only on the year and month of the reference date. */
  method GetWeeksInMonth(currentDate: CalendarDate) returns (weeks: seq<seq<Day>>)
    requires currentDate.Valid()
    ensures weeks == MonthWeeks(currentDate.Of())
    ensures 4 <= |weeks| <= 6
    ensures forall i :: 0 <= i < |weeks| ==> |weeks[i]| == 7 && Weekday(weeks[i][0]) == 0
    ensures exists i, j :: 0 <= i < |weeks| && 0 <= j < 7 && weeks[i][j] == currentDate.DayNumber()
  {
    var ym := currentDate.Of();
    var start := PaddedStart(ym);
    var end := PaddedEnd(ym);
    var calendarDays := DayRange(start, end);
    weeks := ChunkIntoWeeks(calendarDays);
    MonthWeeksShape(ym);
    var today := currentDate.DayNumber();
    DateInItsMonth(currentDate);
    var i, j := WeekIndex(start, today), Weekday(today);
    assert 0 <= i < |weeks| && 0 <= j < 7 && weeks[i][j] == today;
  }
}
