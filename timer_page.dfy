/**
 * The time-tracking page of app/timer/page.tsx: the running session
 * (`activeCategory`, `startTime`, `elapsed`), the `HH:MM:SS` display, and the
 * per-category sums behind its three charts, kept in milliseconds.
 */
module Timer {
  import opened Wrappers
  import opened Calendar
  import opened Records
  import TimerStore

  const MsPerSecond := 1000
  const MsPerMinute := 60_000
  const MsPerHour := 3_600_000

  function DigitChar(d: nat): char
    requires d < 10
  {
    "0123456789"[d]
  }

  predicate IsDigit(c: char) {
    '0' <= c <= '9'
  }

  /** Every character is a decimal digit. */
  predicate AllDigits(s: string) {
    forall i :: 0 <= i < |s| ==> IsDigit(s[i])
  }

  function DigitValue(c: char): nat
    requires IsDigit(c)
  {
    (c - '0') as nat
  }

  /** `n.toString()` for a non-negative integer. */
  function Decimal(n: nat): (s: string)
    ensures |s| >= 1
    decreases n
  {
    if n < 10 then [DigitChar(n)] else Decimal(n / 10) + [DigitChar(n % 10)]
  }

  /** The number a string of decimal digits denotes. */
  function ValueOf(s: string): nat
    requires AllDigits(s)
    decreases |s|
  {
    if s == [] then 0 else 10 * ValueOf(s[..|s| - 1]) + DigitValue(s[|s| - 1])
  }

  /** `Decimal` writes digits only, one for n < 10 and at most two for n < 100, and reads back as n. */
  lemma {:induction false} DecimalValue(n: nat)
    ensures AllDigits(Decimal(n))
    ensures ValueOf(Decimal(n)) == n
    ensures n < 100 ==> |Decimal(n)| <= 2
    decreases n
  {
    if n >= 10 {
      DecimalValue(n / 10);
      var s := Decimal(n);
      assert s[..|s| - 1] == Decimal(n / 10);
    }
  }

  /** A leading zero does not change the value. */
  lemma {:induction false} LeadingZero(s: string)
    requires AllDigits(s)
    ensures ValueOf("0" + s) == ValueOf(s)
    decreases |s|
  {
    if s != [] {
      var t := "0" + s;
      assert t[..|t| - 1] == "0" + s[..|s| - 1];
      LeadingZero(s[..|s| - 1]);
    }
  }

  /** `padStart(2, '0')`. */
  function Pad2(s: string): (r: string)
    ensures |r| == if |s| >= 2 then |s| else 2
    ensures |s| >= 2 ==> r == s
    ensures |s| < 2 ==> r[2 - |s|..] == s && forall i :: 0 <= i < 2 - |s| ==> r[i] == '0'
  {
    if |s| >= 2 then s else if |s| == 1 then "0" + s else "00"
  }

  /** The three fields `formatDuration` shows: whole hours (not wrapped), minutes and seconds of the hour. */
  datatype Clock = Clock(hours: nat, minutes: nat, seconds: nat)

  function ClockOf(ms: nat): (c: Clock)
    ensures c.minutes < 60 && c.seconds < 60
    ensures c.hours * 3600 + c.minutes * 60 + c.seconds == ms / MsPerSecond
  {
    var c := Clock(ms / MsPerHour, (ms / MsPerMinute) % 60, (ms / MsPerSecond) % 60);
    var total, minutes := ms / MsPerSecond, ms / MsPerMinute;
    assert ms == 1000 * total + ms % 1000;
    assert total == 60 * (total / 60) + total % 60;
    assert minutes == total / 60;
    assert minutes == 60 * (minutes / 60) + minutes % 60;
    assert ms / MsPerHour == minutes / 60;
    c
  }

  /** `formatDuration(ms)`: the fields zero-padded to two digits at least and joined by ':'. */
  function FormatDuration(ms: nat): string {
    var c := ClockOf(ms);
    Pad2(Decimal(c.hours)) + ":" + Pad2(Decimal(c.minutes)) + ":" + Pad2(Decimal(c.seconds))
  }

  /** Reads `H..H:MM:SS` back: at least two hour digits, then exactly two minute and two second digits. */
  function ParseDuration(s: string): Option<Clock> {
    if |s| < 8 then None
    else
      var h, m, sec := s[..|s| - 6], s[|s| - 5..|s| - 3], s[|s| - 2..];
      if s[|s| - 6] != ':' || s[|s| - 3] != ':' then None
      else if !AllDigits(h) then None
      else if !(IsDigit(m[0]) && IsDigit(m[1]) && IsDigit(sec[0]) && IsDigit(sec[1])) then None
      else Some(Clock(ValueOf(h), ValueOf(m), ValueOf(sec)))
  }

  /** A padded field reads back as its number. */
  lemma PaddedValue(n: nat)
    ensures |Pad2(Decimal(n))| >= 2
    ensures n < 100 ==> |Pad2(Decimal(n))| == 2
    ensures AllDigits(Pad2(Decimal(n)))
    ensures ValueOf(Pad2(Decimal(n))) == n
  {
    DecimalValue(n);
    var s := Decimal(n);
    if |s| == 1 {
      LeadingZero(s);
    }
  }

  /** Where the three fields of `h:mm:ss` sit in the joined string. */
  lemma JoinedParts(h: string, m: string, sec: string)
    requires |m| == 2 && |sec| == 2
    ensures var s := h + ":" + m + ":" + sec;
      && |s| == |h| + 6
      && s[..|s| - 6] == h && s[|s| - 5..|s| - 3] == m && s[|s| - 2..] == sec
      && s[|s| - 6] == ':' && s[|s| - 3] == ':'
  {
    var s := h + ":" + m + ":" + sec;
    assert s == h + [':', m[0], m[1], ':', sec[0], sec[1]] by {
      assert m == [m[0], m[1]] && sec == [sec[0], sec[1]];
    }
  }

  /** Three digit fields joined by ':' read back as their numbers. */
  lemma ParseJoined(h: string, m: string, sec: string)
    requires |h| >= 2 && |m| == 2 && |sec| == 2
    requires AllDigits(h)
    requires IsDigit(m[0]) && IsDigit(m[1]) && IsDigit(sec[0]) && IsDigit(sec[1])
    ensures ParseDuration(h + ":" + m + ":" + sec) == Some(Clock(ValueOf(h), ValueOf(m), ValueOf(sec)))
  {
    JoinedParts(h, m, sec);
  }

  /** The display reads back as the clock it shows: the format loses nothing and always has the `H..H:MM:SS` shape. */
  lemma FormatRoundTrip(ms: nat)
    ensures ParseDuration(FormatDuration(ms)) == Some(ClockOf(ms))
  {
    var c := ClockOf(ms);
    PaddedValue(c.hours);
    PaddedValue(c.minutes);
    PaddedValue(c.seconds);
    ParseJoined(Pad2(Decimal(c.hours)), Pad2(Decimal(c.minutes)), Pad2(Decimal(c.seconds)));
  }

  /** Two displays: zero, and one hour two minutes three seconds with the milliseconds dropped. */
  lemma FormatExamples()
    ensures FormatDuration(0) == "00:00:00"
    ensures FormatDuration(3_723_999) == "01:02:03"
  {
    assert ClockOf(0) == Clock(0, 0, 0);
    assert ClockOf(3_723_999) == Clock(1, 2, 3);
  }

  /** Hours are not wrapped at 24 and grow past two digits. */
  lemma FormatHundredHours()
    ensures FormatDuration(360_000_000) == "100:00:00"
  {
    assert ClockOf(360_000_000) == Clock(100, 0, 0);
    assert Decimal(10) == "10";
    assert Decimal(100) == Decimal(10) + ['0'];
  }

  /** The summed milliseconds of the sessions of one category started on one day. */
  function CategoryTotal(logs: seq<TimerLog>, c: Category, day: Day): int
    decreases |logs|
  {
    if logs == [] then 0
    else
      var x := logs[|logs| - 1];
      CategoryTotal(logs[..|logs| - 1], c, day) + (if x.category == c && DayOf(x.startTime) == day then x.duration else 0)
  }

  /** The summed milliseconds of every session started on the day. */
  function DayTotal(logs: seq<TimerLog>, day: Day): int
    decreases |logs|
  {
    if logs == [] then 0
    else
      var x := logs[|logs| - 1];
      DayTotal(logs[..|logs| - 1], day) + (if DayOf(x.startTime) == day then x.duration else 0)
  }

  /** Every session has one of the three categories, so the per-category sums split the day's total. */
  lemma {:induction false} CategoriesPartitionDay(logs: seq<TimerLog>, day: Day)
    ensures CategoryTotal(logs, Study, day) + CategoryTotal(logs, Food, day) + CategoryTotal(logs, Other, day) == DayTotal(logs, day)
    decreases |logs|
  {
    if logs != [] {
      CategoriesPartitionDay(logs[..|logs| - 1], day);
    }
  }

  /** A slice of the daily pie. */
  datatype Slice = Slice(name: Category, value: int)

  /** A category's share of today: its sessions plus the running session's elapsed time when it is the active one. */
  function TodayTotal(logs: seq<TimerLog>, c: Category, today: Day, active: Option<Category>, elapsed: int): int {
    CategoryTotal(logs, c, today) + (if active == Some(c) then elapsed else 0)
  }

  /** The pie's slices for the three sums, in the order Study, Food, Other, without the empty ones. */
  function Slices(study: int, food: int, other: int): seq<Slice> {
    Positive([Slice(Study, study), Slice(Food, food), Slice(Other, other)])
  }

  /** Which of the three sums belongs to category c. */
  function SumFor(c: Category, study: int, food: int, other: int): int {
    match c
    case Study => study
    case Food => food
    case Other => other
  }

  /** The slices are the positive sums, each under its own category, in the order Study, Food, Other. */
  lemma SlicesShape(study: int, food: int, other: int)
    ensures |Slices(study, food, other)| <= 3
    ensures forall i :: 0 <= i < |Slices(study, food, other)| ==> Slices(study, food, other)[i].value > 0
    ensures forall c: Category ::
      Slice(c, SumFor(c, study, food, other)) in Slices(study, food, other) <==> SumFor(c, study, food, other) > 0
    ensures forall x :: x in Slices(study, food, other) ==> x.value == SumFor(x.name, study, food, other)
    ensures RankIncreasing(Slices(study, food, other))
  {
    var all := [Slice(Study, study), Slice(Food, food), Slice(Other, other)];
    var r := Slices(study, food, other);
    PositiveKeepsOrder(all);
    PositiveMembers(all);
    forall c: Category
      ensures Slice(c, SumFor(c, study, food, other)) in all
    {
      assert all[Rank(c)] == Slice(c, SumFor(c, study, food, other));
    }
  }

  /**
   * `dailyData`: today's sums in the order Study, Food, Other, with the
   * running session's elapsed time added to its category; empty categories
   * are dropped.
   */
  function DailySlices(logs: seq<TimerLog>, today: Day, active: Option<Category>, elapsed: int): (r: seq<Slice>)
    ensures |r| <= 3
    ensures forall i :: 0 <= i < |r| ==> r[i].value > 0
    ensures forall c: Category ::
      Slice(c, TodayTotal(logs, c, today, active, elapsed)) in r <==> TodayTotal(logs, c, today, active, elapsed) > 0
    ensures forall x :: x in r ==> x.value == TodayTotal(logs, x.name, today, active, elapsed)
    ensures RankIncreasing(r)
  {
    var study, food, other :=
      TodayTotal(logs, Study, today, active, elapsed),
      TodayTotal(logs, Food, today, active, elapsed),
      TodayTotal(logs, Other, today, active, elapsed);
    SlicesShape(study, food, other);
    assert forall c: Category :: SumFor(c, study, food, other) == TodayTotal(logs, c, today, active, elapsed);
    Slices(study, food, other)
  }

  /** The position of a category in the summary: Study, Food, Other. */
  function Rank(c: Category): nat {
    match c
    case Study => 0
    case Food => 1
    case Other => 2
  }

  /** Categories appear in strictly increasing rank. */
  ghost predicate RankIncreasing(s: seq<Slice>) {
    forall i, j :: 0 <= i < j < |s| ==> Rank(s[i].name) < Rank(s[j].name)
  }

  /** `.filter(d => d.value > 0)`. */
  function Positive(s: seq<Slice>): (r: seq<Slice>)
    ensures |r| <= |s|
    ensures forall k :: 0 <= k < |r| ==> r[k].value > 0
    decreases |s|
  {
    if s == [] then []
    else
      var rest := Positive(s[1..]);
      if s[0].value > 0 then [s[0]] + rest else rest
  }

  /** The filter keeps exactly the entries with a positive value. */
  lemma {:induction false} PositiveMembers(s: seq<Slice>)
    ensures forall x :: x in Positive(s) <==> x in s && x.value > 0
    decreases |s|
  {
    if s != [] {
      PositiveMembers(s[1..]);
      assert s == [s[0]] + s[1..];
    }
  }

  /** A bound below every rank of the input is a bound below every rank the filter keeps. */
  lemma {:induction false} PositiveAbove(s: seq<Slice>, bound: int)
    requires forall k :: 0 <= k < |s| ==> bound < Rank(s[k].name)
    ensures forall k :: 0 <= k < |Positive(s)| ==> bound < Rank(Positive(s)[k].name)
    decreases |s|
  {
    if s != [] {
      PositiveAbove(s[1..], bound);
    }
  }

  /** The filter keeps the order of what it keeps. */
  lemma {:induction false} PositiveKeepsOrder(s: seq<Slice>)
    requires RankIncreasing(s)
    ensures RankIncreasing(Positive(s))
    decreases |s|
  {
    if s != [] {
      var tail, rest := s[1..], Positive(s[1..]);
      forall k | 0 <= k < |tail|
        ensures Rank(s[0].name) < Rank(tail[k].name)
        ensures forall m :: k < m < |tail| ==> Rank(tail[k].name) < Rank(tail[m].name)
      {
        assert tail[k] == s[k + 1];
        forall m | k < m < |tail| ensures Rank(tail[k].name) < Rank(tail[m].name) {
          assert tail[m] == s[m + 1];
        }
      }
      PositiveKeepsOrder(tail);
      if s[0].value > 0 {
        PositiveAbove(tail, Rank(s[0].name));
        var r := [s[0]] + rest;
        assert Positive(s) == r;
        forall i, j | 0 <= i < j < |r| ensures Rank(r[i].name) < Rank(r[j].name) {
          assert r[j] == rest[j - 1];
          if i > 0 {
            assert r[i] == rest[i - 1];
          }
        }
      }
    }
  }

  /** One bar or area of the weekly and monthly charts: a day and its per-category sums. */
  datatype DayTally = DayTally(day: Day, study: int, food: int, other: int)

  function TallyOf(logs: seq<TimerLog>, day: Day): (t: DayTally)
    ensures t.study + t.food + t.other == DayTotal(logs, day)
  {
    CategoriesPartitionDay(logs, day);
    DayTally(day, CategoryTotal(logs, Study, day), CategoryTotal(logs, Food, day), CategoryTotal(logs, Other, day))
  }

  /** How the list request of `fetchLogs` ends: an array, some other JSON value, or a throw. */
  datatype ListOutcome = Listed | NotAList | Threw

  class TimerPage {
    var logs: seq<TimerLog>
    var activeCategory: Option<Category>
    var startTime: Option<Instant>
    var elapsed: int

    /** A session runs exactly when both a category and a start time are set; an idle page shows 0 elapsed. */
    ghost predicate Valid()
      reads this
    {
      && (activeCategory.Some? <==> startTime.Some?)
      && (activeCategory.None? ==> elapsed == 0)
    }

    constructor ()
      ensures Valid() && logs == [] && activeCategory.None? && startTime.None? && elapsed == 0
    {
      logs := [];
      activeCategory := None;
      startTime := None;
      elapsed := 0;
    }

    /** `fetchLogs`: the last 30 days' sessions; a non-array answer empties the list; a throw keeps it. */
    method FetchLogs(store: TimerStore.TimerCollection, now: Instant, outcome: ListOutcome)
      modifies this`logs
      ensures outcome == Threw ==> logs == old(logs)
      ensures outcome == NotAList ==> logs == []
      ensures outcome == Listed ==>
        && multiset(logs) == multiset(TimerStore.Selected(store.logs, TimerStore.SelectFilter(Some("month"), now)))
        && forall i, j :: 0 <= i < j < |logs| ==> logs[i].startTime >= logs[j].startTime
    {
      match outcome
      case Threw =>
      case NotAList =>
        logs := [];
      case Listed =>
        logs := store.Get(Some("month"), now);
    }

    /** The interval callback: `elapsed` becomes the time since the session started. */
    method Tick(now: Instant)
      requires Valid()
      modifies this`elapsed
      ensures Valid()
      ensures startTime.Some? ==> elapsed == now - startTime.value
      ensures startTime.None? ==> elapsed == old(elapsed)
    {
      if activeCategory.Some? && startTime.Some? {
        elapsed := now - startTime.value;
      }
    }

    /**
     * `stopTimer`: nothing when idle; otherwise POST of the session with
     * duration = end - start, a reload of the list unless the POST threw,
     * and back to idle either way.
     */
    method StopTimer(store: TimerStore.TimerCollection, now: Instant, posted: bool, refresh: ListOutcome)
      requires Valid()
      modifies this, store
      ensures Valid()
      ensures old(activeCategory).None? ==> unchanged(this) && unchanged(store)
      ensures old(activeCategory).Some? ==>
        && activeCategory.None? && startTime.None? && elapsed == 0
        && (posted ==> store.logs == old(store.logs) + [TimerLog(old(activeCategory).value, old(startTime).value, now, now - old(startTime).value)])
        && (!posted ==> store.logs == old(store.logs) && logs == old(logs))
        && (posted && refresh == Threw ==> logs == old(logs))
        && (posted && refresh == NotAList ==> logs == [])
        && (posted && refresh == Listed ==> multiset(logs) == multiset(TimerStore.Selected(store.logs, TimerStore.SelectFilter(Some("month"), now))))
        && (posted && refresh == Listed ==> forall i, j :: 0 <= i < j < |logs| ==> logs[i].startTime >= logs[j].startTime)
    {
      if activeCategory.None? || startTime.None? {
        return;
      }
      var category, start := activeCategory.value, startTime.value;
      var endTime := now;
      var duration := endTime - start;
      if posted {
        var body := TimerFields(Some(CategoryName(category)), Some(start), Some(endTime), Some(duration));
        var _ := store.Post(body);
        FetchLogs(store, now, refresh);
      }
      activeCategory := None;
      startTime := None;
      elapsed := 0;
    }

    /**
     * `startTimer(category)`: on the running category it only stops it;
     * otherwise it stops and saves any running session, then starts the new
     * one at `now` with 0 elapsed.
     */
    method StartTimer(store: TimerStore.TimerCollection, category: Category, now: Instant, posted: bool, refresh: ListOutcome)
      requires Valid()
      modifies this, store
      ensures Valid()
      ensures old(activeCategory) == Some(category) ==> activeCategory.None? && startTime.None? && elapsed == 0
      ensures old(activeCategory) != Some(category) ==> activeCategory == Some(category) && startTime == Some(now) && elapsed == 0
      ensures old(activeCategory).None? ==> store.logs == old(store.logs) && logs == old(logs)
      ensures old(activeCategory).Some? && posted ==>
        store.logs == old(store.logs) + [TimerLog(old(activeCategory).value, old(startTime).value, now, now - old(startTime).value)]
      ensures old(activeCategory).Some? && !posted ==> store.logs == old(store.logs)
      ensures old(activeCategory).Some? && (!posted || refresh == Threw) ==> logs == old(logs)
      ensures old(activeCategory).Some? && posted && refresh == NotAList ==> logs == []
      ensures old(activeCategory).Some? && posted && refresh == Listed ==>
        && multiset(logs) == multiset(TimerStore.Selected(store.logs, TimerStore.SelectFilter(Some("month"), now)))
        && forall i, j :: 0 <= i < j < |logs| ==> logs[i].startTime >= logs[j].startTime
    {
      if activeCategory == Some(category) {
        StopTimer(store, now, posted, refresh);
        return;
      }
      if activeCategory.Some? {
        StopTimer(store, now, posted, refresh);
      }
      activeCategory := Some(category);
      startTime := Some(now);
      elapsed := 0;
    }

    /** `dailyData` for the day of `now`, accumulated one session at a time. */
    method DailySummary(now: Instant) returns (r: seq<Slice>)
      ensures r == DailySlices(logs, DayOf(now), activeCategory, elapsed)
    {
      var today := DayOf(now);
      var study, food, other := 0, 0, 0;
      for i := 0 to |logs|
        invariant study == CategoryTotal(logs[..i], Study, today)
        invariant food == CategoryTotal(logs[..i], Food, today)
        invariant other == CategoryTotal(logs[..i], Other, today)
      {
        assert logs[..i + 1][..i] == logs[..i];
        var l := logs[i];
        if DayOf(l.startTime) == today {
          match l.category
          case Study => study := study + l.duration;
          case Food => food := food + l.duration;
          case Other => other := other + l.duration;
        }
      }
      assert logs[..|logs|] == logs;
      if activeCategory == Some(Study) {
        study := study + elapsed;
      } else if activeCategory == Some(Food) {
        food := food + elapsed;
      } else if activeCategory == Some(Other) {
        other := other + elapsed;
      }
      assert study == TodayTotal(logs, Study, today, activeCategory, elapsed);
      assert food == TodayTotal(logs, Food, today, activeCategory, elapsed);
      assert other == TodayTotal(logs, Other, today, activeCategory, elapsed);
      r := Slices(study, food, other);
    }

    /**
     * The `for (let i = n - 1; i >= 0; i--)` loop of `weeklyData` (n = 7) and
     * `monthlyData` (n = 30): one tally per day, oldest first, today last.
     * The running session is not included.
     */
    method DaySeries(now: Instant, n: nat) returns (days: seq<DayTally>)
      ensures |days| == n
      ensures forall k :: 0 <= k < n ==> days[k] == TallyOf(logs, DayOf(now) - (n - 1 - k))
    {
      days := [];
      var i := n as int - 1;
      while i >= 0
        invariant -1 <= i <= n - 1
        invariant |days| == n - 1 - i
        invariant forall k :: 0 <= k < |days| ==> days[k] == TallyOf(logs, DayOf(now) - (n - 1 - k))
      {
        var date := now - i * MsPerDay;
        var day := DayOf(date);
        assert day == DayOf(now) - i;
        days := days + [TallyOf(logs, day)];
        i := i - 1;
      }
    }
  }

  /** The last bar of the weekly chart and the daily pie read the same sums when no session runs. */
  lemma TodayAgrees(logs: seq<TimerLog>, today: Day)
    ensures var t := TallyOf(logs, today);
      forall s :: s in DailySlices(logs, today, None, 0) ==>
        s.value == (match s.name case Study => t.study case Food => t.food case Other => t.other)
  {
  }
}
