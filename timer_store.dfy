/**
 * The timer-session collection behind /api/timer (app/api/timer/route.ts,
 * models/TimerLog.ts): POST appends a validated session, GET selects by the
 * `range` parameter and orders newest first.
 */
module TimerStore {
  import opened Wrappers
  import opened Calendar
  import opened Records
  import Sorting
  import Ledger

  /** The query a `range` selects: none, an inclusive window, or a lower bound on `startTime`. */
  datatype TimeFilter = Unfiltered | Between(lo: Instant, hi: Instant) | Since(lo: Instant)

  predicate Matches(f: TimeFilter, t: Instant) {
    match f
    case Unfiltered => true
    case Between(lo, hi) => lo <= t <= hi
    case Since(lo) => lo <= t
  }

  /**
   * 'today' keeps the sessions started on the day of `now`, 'week' and
   * 'month' those started at most 7 or 30 days before `now`; any other value,
   * or none, keeps everything.
   */
  function SelectFilter(range: Option<string>, now: Instant): (f: TimeFilter)
    ensures range == Some("today") ==> forall t :: Matches(f, t) <==> DayOf(t) == DayOf(now)
    ensures range == Some("week") ==> forall t :: Matches(f, t) <==> now - 7 * MsPerDay <= t
    ensures range == Some("month") ==> forall t :: Matches(f, t) <==> now - 30 * MsPerDay <= t
    ensures range != Some("today") && range != Some("week") && range != Some("month") ==> forall t :: Matches(f, t)
  {
    if range == Some("today") then
      var d := DayOf(now);
      assert forall t :: MidnightOf(d) <= t <= MidnightOf(d + 1) - 1 <==> DayOf(t) == d by {
        forall t ensures MidnightOf(d) <= t <= MidnightOf(d + 1) - 1 <==> DayOf(t) == d {
          DaySpan(d, d, t);
        }
      }
      Between(MidnightOf(d), MidnightOf(d + 1) - 1)
    else if range == Some("week") then Since(now - 7 * MsPerDay)
    else if range == Some("month") then Since(now - 30 * MsPerDay)
    else Unfiltered
  }

  /** The sessions the filter keeps, in collection order. */
  function Selected(logs: seq<TimerLog>, f: TimeFilter): (r: seq<TimerLog>)
    ensures forall x :: x in r <==> x in logs && Matches(f, x.startTime)
    ensures |r| <= |logs|
    decreases |logs|
  {
    if logs == [] then []
    else
      var init := Selected(logs[..|logs| - 1], f);
      var last := logs[|logs| - 1];
      assert logs == logs[..|logs| - 1] + [last];
      if Matches(f, last.startTime) then init + [last] else init
  }

  /** `.sort({ startTime: -1 })`: ascending in the negated start time. */
  function NewestFirst(x: TimerLog): int {
    -x.startTime
  }

  class TimerCollection {
    var logs: seq<TimerLog>

    constructor ()
      ensures logs == []
    {
      logs := [];
    }

    /** POST /api/timer: a valid body is appended once (201); an invalid one fails (500) and changes nothing. */
    method Post(body: TimerFields) returns (r: Ledger.Reply<TimerLog>)
      modifies this
      ensures NewTimerLog(body).Some? ==> r == Ledger.Ok(NewTimerLog(body).value) && logs == old(logs) + [r.value]
      ensures NewTimerLog(body).None? ==> r == Ledger.ServerError("Failed to create timer log") && logs == old(logs)
    {
      var created := NewTimerLog(body);
      if created.None? {
        return Ledger.ServerError("Failed to create timer log");
      }
      logs := logs + [created.value];
      return Ledger.Ok(created.value);
    }

    /** GET /api/timer?range: the selected sessions, each as often as stored, newest first. */
    method Get(range: Option<string>, now: Instant) returns (r: seq<TimerLog>)
      ensures multiset(r) == multiset(Selected(logs, SelectFilter(range, now)))
      ensures forall i, j :: 0 <= i < j < |r| ==> r[i].startTime >= r[j].startTime
    {
      var f := SelectFilter(range, now);
      var found: seq<TimerLog> := [];
      for i := 0 to |logs|
        invariant found == Selected(logs[..i], f)
      {
        assert logs[..i + 1][..i] == logs[..i];
        if Matches(f, logs[i].startTime) {
          found := found + [logs[i]];
        }
      }
      assert logs[..|logs|] == logs;
      r := Sorting.SortBy(found, NewestFirst);
      forall i, j | 0 <= i < j < |r| ensures r[i].startTime >= r[j].startTime {
        assert NewestFirst(r[i]) <= NewestFirst(r[j]);
      }
    }
  }
}
