/**
 * The server side of the completion ledger: the route handlers of
 * app/api/logs/route.ts and app/api/habits/route.ts over the two document
 * collections, held in memory as maps. Logs are keyed by (habitId, instant),
 * which is the unique index of models/HabitLog.ts; habits by their id.
 */
module Ledger {
  import opened Wrappers
  import opened Calendar
  import opened Records
  import Sorting

  /** What a handler answers: a JSON value, or a status 400 or 500 with the handler's message. */
  datatype Reply<T> = Ok(value: T) | BadRequest(error: string) | ServerError(error: string)

  /** A date query parameter or body field: absent or empty, not a parseable date, or an instant. */
  datatype DateParam = Absent | Unparseable | At(instant: Instant)

  /** The JSON body of a POST to /api/logs. */
  datatype LogPost = LogPost(habitId: Option<Id>, date: DateParam, completed: Option<bool>, value: Option<int>)

  /** The body of a PUT to /api/habits: `_id` and the remaining fields. */
  datatype HabitUpdate = HabitUpdate(id: Option<Id>, updates: HabitFields)

  /** The record stored under its own key. */
  predicate Stored(logs: map<LogKey, LogDoc>, x: HabitLog) {
    KeyOf(x) in logs && RecordOf(KeyOf(x), logs[KeyOf(x)]) == x
  }

  predicate DistinctKeys(s: seq<HabitLog>) {
    forall i, j :: 0 <= i < j < |s| ==> KeyOf(s[i]) != KeyOf(s[j])
  }

  /**
   * `findOneAndUpdate({ habitId, date }, { completed, value }, { upsert: true, new: true })`.
   * Fields absent from the update are left alone (the document mapper drops
   * undefined keys); on insert, `completed` takes the schema default false.
   */
  function Upsert(logs: map<LogKey, LogDoc>, key: LogKey, completed: Option<bool>, value: Option<int>, newId: Id): (r: map<LogKey, LogDoc>)
    ensures r.Keys == logs.Keys + {key}
    ensures forall k :: k in logs && k != key ==> r[k] == logs[k]
    ensures key in logs ==> r[key].id == logs[key].id
    ensures key in logs ==> r[key].completed == completed.GetOr(logs[key].completed)
    ensures key in logs ==> r[key].value == if value.Some? then value else logs[key].value
    ensures key !in logs ==> r[key] == LogDoc(newId, completed.GetOr(false), value)
  {
    if key in logs then
      logs[key := LogDoc(logs[key].id, completed.GetOr(logs[key].completed), if value.Some? then value else logs[key].value)]
    else
      logs[key := LogDoc(newId, completed.GetOr(false), value)]
  }

  /** Repeating an identical upsert changes nothing. */
  lemma UpsertIdempotent(logs: map<LogKey, LogDoc>, key: LogKey, completed: Option<bool>, value: Option<int>, id1: Id, id2: Id)
    ensures Upsert(Upsert(logs, key, completed, value, id1), key, completed, value, id2) == Upsert(logs, key, completed, value, id1)
  {
    var once := Upsert(logs, key, completed, value, id1);
    var twice := Upsert(once, key, completed, value, id2);
    assert twice.Keys == once.Keys;
  }

  /** One POST to a single key: the `completed` it carries and its fresh id. */
  datatype KeyPost = KeyPost(completed: Option<bool>, value: Option<int>, newId: Id)

  function ApplyPosts(logs: map<LogKey, LogDoc>, key: LogKey, posts: seq<KeyPost>): map<LogKey, LogDoc>
    decreases |posts|
  {
    if posts == [] then logs
    else
      var last := posts[|posts| - 1];
      Upsert(ApplyPosts(logs, key, posts[..|posts| - 1]), key, last.completed, last.value, last.newId)
  }

  /** The `completed` a record under a key ends with: the last value some post supplied, else what was stored, else false. */
  function LastCompleted(logs: map<LogKey, LogDoc>, key: LogKey, posts: seq<KeyPost>): bool
    decreases |posts|
  {
    if posts == [] then (if key in logs then logs[key].completed else false)
    else if posts[|posts| - 1].completed.Some? then posts[|posts| - 1].completed.value
    else LastCompleted(logs, key, posts[..|posts| - 1])
  }

  /**
   * After any non-empty sequence of POSTs to one (habitId, date) key, that key
   * holds one record whose `completed` is the last value posted (false if none
   * ever was), and every other key is untouched.
   */
  lemma {:induction false} PostsConverge(logs: map<LogKey, LogDoc>, key: LogKey, posts: seq<KeyPost>)
    requires posts != []
    ensures key in ApplyPosts(logs, key, posts)
    ensures ApplyPosts(logs, key, posts)[key].completed == LastCompleted(logs, key, posts)
    ensures ApplyPosts(logs, key, posts).Keys == logs.Keys + {key}
    ensures forall k :: k in logs && k != key ==> ApplyPosts(logs, key, posts)[k] == logs[k]
    decreases |posts|
  {
    var init := posts[..|posts| - 1];
    if init != [] {
      PostsConverge(logs, key, init);
    }
  }

  /** A log dated from lo to hi, both ends inclusive. */
  predicate InRange(x: HabitLog, lo: Instant, hi: Instant) {
    lo <= x.date <= hi
  }

  /** The cascade of a habit deletion: `deleteMany({ habitId: id })`. */
  function WithoutHabit(logs: map<LogKey, LogDoc>, id: Id): (r: map<LogKey, LogDoc>)
    ensures forall k :: k in r <==> k in logs && k.habitId != id
    ensures forall k :: k in r ==> r[k] == logs[k]
  {
    map k | k in logs && k.habitId != id :: logs[k]
  }

  /** A query over any range after the cascade finds no log of the deleted habit, and every other habit's logs as before. */
  lemma CascadeLeavesNoLog(logs: map<LogKey, LogDoc>, id: Id, x: HabitLog)
    ensures Stored(WithoutHabit(logs, id), x) <==> Stored(logs, x) && x.habitId != id
  {
  }

  /**
   * Two POSTs for one habit at two different instants of the same day make
   * two records: the key is never normalised to midnight.
   */
  lemma SameDayDifferentInstants(logs: map<LogKey, LogDoc>, habitId: Id, t1: Instant, t2: Instant, id1: Id, id2: Id)
    requires t1 != t2 && DayOf(t1) == DayOf(t2)
    ensures var after := Upsert(Upsert(logs, LogKey(habitId, t1), Some(true), None, id1), LogKey(habitId, t2), Some(true), None, id2);
      && LogKey(habitId, t1) in after && LogKey(habitId, t2) in after
      && (LogKey(habitId, t1) !in logs && LogKey(habitId, t2) !in logs ==> |after.Keys| == |logs.Keys| + 2)
  {
    var k1, k2 := LogKey(habitId, t1), LogKey(habitId, t2);
    if k1 !in logs && k2 !in logs {
      assert |logs.Keys + {k1}| == |logs.Keys| + 1;
      assert |logs.Keys + {k1} + {k2}| == |logs.Keys + {k1}| + 1;
    }
  }


  class Database {
    var habits: map<Id, Habit>
    var logs: map<LogKey, LogDoc>

    /** Every habit is stored under its own id. */
    ghost predicate Valid()
      reads this
    {
      forall id :: id in habits ==> habits[id].id == id
    }

    constructor ()
      ensures Valid() && habits == map[] && logs == map[]
    {
      habits := map[];
      logs := map[];
    }

    /**
     * GET /api/logs?startDate&endDate: both parameters are required (400);
     * an unparseable one fails the date cast (500); otherwise every stored log
     * whose date lies in the inclusive range, once each, in no particular order.
     */
    method GetLogs(startDate: DateParam, endDate: DateParam) returns (r: Reply<seq<HabitLog>>)
      ensures startDate.Absent? || endDate.Absent? <==> r == BadRequest("StartDate and EndDate required")
      ensures r.ServerError? <==> !startDate.Absent? && !endDate.Absent? && (startDate.Unparseable? || endDate.Unparseable?)
      ensures r.ServerError? ==> r.error == "Failed to fetch logs"
      ensures r.Ok? <==> startDate.At? && endDate.At?
      ensures r.Ok? ==> DistinctKeys(r.value)
      ensures r.Ok? ==> forall x :: x in r.value <==> Stored(logs, x) && InRange(x, startDate.instant, endDate.instant)
    {
      if startDate.Absent? || endDate.Absent? {
        return BadRequest("StartDate and EndDate required");
      }
      if startDate.Unparseable? || endDate.Unparseable? {
        return ServerError("Failed to fetch logs");
      }
      var lo, hi := startDate.instant, endDate.instant;
      var pending := logs.Keys;
      var found: seq<HabitLog> := [];
      while pending != {}
        invariant pending <= logs.Keys
        invariant DistinctKeys(found)
        invariant forall x :: x in found ==> KeyOf(x) !in pending
        invariant forall x :: x in found <==> Stored(logs, x) && InRange(x, lo, hi) && KeyOf(x) !in pending
        decreases pending
      {
        var k :| k in pending;
        var x := RecordOf(k, logs[k]);
        if lo <= k.date <= hi {
          found := found + [x];
        }
        pending := pending - {k};
      }
      return Ok(found);
    }

    /** GET /api/habits: every stored habit once, ordered by `order` ascending. */
    method GetHabits() returns (r: seq<Habit>)
      requires Valid()
      ensures |r| == |habits|
      ensures forall h :: h in r <==> h.id in habits && habits[h.id] == h
      ensures Sorting.SortedBy(r, (h: Habit) => h.order)
    {
      var pending := habits.Keys;
      var found: seq<Habit> := [];
      while pending != {}
        invariant pending <= habits.Keys
        invariant |found| + |pending| == |habits.Keys|
        invariant forall h :: h in found <==> h.id in habits && habits[h.id] == h && h.id !in pending
        decreases pending
      {
        var id :| id in pending;
        found := found + [habits[id]];
        pending := pending - {id};
      }
      assert |habits.Keys| == |habits|;
      r := Sorting.SortBy(found, (h: Habit) => h.order);
      assert forall h :: h in r <==> h in found by {
        forall h ensures h in r <==> h in found {
          assert h in r <==> h in multiset(r);
          assert h in found <==> h in multiset(found);
        }
      }
    }

    /** POST /api/habits: creates one habit from the body; the existing habits and the logs are unchanged. */
    method PostHabit(body: HabitFields, newId: Id, now: Instant) returns (r: Reply<Habit>)
      requires Valid()
      modifies this`habits
      ensures Valid()
      ensures r.Ok? <==> NewHabit(body, newId, now).Some? && newId !in old(habits)
      ensures r.Ok? ==> r.value == NewHabit(body, newId, now).value && habits == old(habits)[newId := r.value]
      ensures !r.Ok? ==> r == ServerError("Failed to create habit") && habits == old(habits)
    {
      var created := NewHabit(body, newId, now);
      if created.None? || newId in habits {
        return ServerError("Failed to create habit");
      }
      habits := habits[newId := created.value];
      return Ok(created.value);
    }

    /**
     * PUT /api/habits: without `_id` answers 400 and changes nothing; otherwise
     * applies the other fields to the habit with that id and answers it, or
     * answers null when there is none.
     */
    method PutHabit(body: HabitUpdate) returns (r: Reply<Option<Habit>>)
      requires Valid()
      modifies this`habits
      ensures Valid()
      ensures body.id.None? || body.id.value == "" ==> r == BadRequest("ID required") && habits == old(habits)
      ensures body.id.Some? && body.id.value != "" ==>
        var id := body.id.value;
        if id in old(habits) then
          var updated := ApplyFields(old(habits)[id], body.updates);
          r == Ok(Some(updated)) && habits == old(habits)[id := updated]
        else
          r == Ok(None) && habits == old(habits)
    {
      if body.id.None? || body.id.value == "" {
        return BadRequest("ID required");
      }
      var id := body.id.value;
      if id !in habits {
        return Ok(None);
      }
      var updated := ApplyFields(habits[id], body.updates);
      habits := habits[id := updated];
      return Ok(Some(updated));
    }

    /**
     * DELETE /api/habits?id: without `id` answers 400 and changes nothing;
     * otherwise removes the habit and every log whose habitId is that id.
     */
    method DeleteHabit(id: Option<Id>) returns (r: Reply<string>)
      requires Valid()
      modifies this
      ensures Valid()
      ensures id.None? || id.value == "" ==> r == BadRequest("ID required") && habits == old(habits) && logs == old(logs)
      ensures id.Some? && id.value != "" ==>
        && r == Ok("Deleted successfully")
        && habits == old(habits) - {id.value}
        && logs == WithoutHabit(old(logs), id.value)
    {
      if id.None? || id.value == "" {
        return BadRequest("ID required");
      }
      habits := habits - {id.value};
      logs := WithoutHabit(logs, id.value);
      return Ok("Deleted successfully");
    }

    /**
     * POST /api/logs: upserts the record under (habitId, new Date(date)) and
     * answers it. A body without habitId, or whose date does not parse, fails (500).
     */
    method PostLog(body: LogPost, newId: Id) returns (r: Reply<HabitLog>)
      modifies this`logs
      ensures body.habitId.None? || body.habitId.value == "" || !body.date.At? ==>
        r == ServerError("Failed to update log") && logs == old(logs)
      ensures body.habitId.Some? && body.habitId.value != "" && body.date.At? ==>
        var key := LogKey(body.habitId.value, body.date.instant);
        && logs == Upsert(old(logs), key, body.completed, body.value, newId)
        && r == Ok(RecordOf(key, logs[key]))
    {
      if body.habitId.None? || body.habitId.value == "" || !body.date.At? {
        return ServerError("Failed to update log");
      }
      var key := LogKey(body.habitId.value, body.date.instant);
      logs := Upsert(logs, key, body.completed, body.value, newId);
      return Ok(RecordOf(key, logs[key]));
    }
  }
}
