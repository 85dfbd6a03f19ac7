/**
 * The habit dashboard of components/Dashboard.tsx as a client object: the
 * month on display, the habits and the logs it holds, and the handlers that
 * talk to the store. Each request's outcome is a parameter: a request either
 * reaches the store (whose behaviour is `Ledger.Database`) or throws.
 */
module HabitDashboard {
  import opened Wrappers
  import opened Calendar
  import opened Records
  import Ledger
  import opened LogView

  /** Which of the two requests of a reload throws, if either does. */
  datatype FetchFailure = NoFailure | HabitsThrew | LogsThrew

  /** The client's habits are exactly the stored habits (each shown once per copy, no error entries). */
  ghost predicate Mirrors(habits: seq<ClientHabit>, store: map<Id, Habit>) {
    && (forall i :: 0 <= i < |habits| ==> habits[i].Shown?)
    && (forall h :: Shown(h) in habits <==> h.id in store && store[h.id] == h)
  }

  /** The client's logs are exactly the stored logs dated on a day of the month's padded grid, each once. */
  ghost predicate ShowsGrid(logs: seq<ClientLog>, store: map<LogKey, LogDoc>, ym: YearMonth) {
    && (forall i :: 0 <= i < |logs| ==> logs[i].Entry?)
    && (forall i, j :: 0 <= i < j < |logs| ==> KeyOf(logs[i].log) != KeyOf(logs[j].log))
    && (forall x :: Entry(x) in logs <==> Ledger.Stored(store, x) && PaddedStart(ym) <= DayOf(x.date) <= PaddedEnd(ym))
  }

  /** The `start` and `end` parameters of the logs request: the first and the last millisecond of the padded grid. */
  function GridInstants(ym: YearMonth): (r: (Instant, Instant))
    ensures forall t :: r.0 <= t <= r.1 <==> PaddedStart(ym) <= DayOf(t) <= PaddedEnd(ym)
  {
    var r := (MidnightOf(PaddedStart(ym)), MidnightOf(PaddedEnd(ym) + 1) - 1);
    assert forall t :: r.0 <= t <= r.1 <==> PaddedStart(ym) <= DayOf(t) <= PaddedEnd(ym) by {
      forall t ensures r.0 <= t <= r.1 <==> PaddedStart(ym) <= DayOf(t) <= PaddedEnd(ym) {
        DaySpan(PaddedStart(ym), PaddedEnd(ym), t);
      }
    }
    r
  }

  function ShowAll(hs: seq<Habit>): (r: seq<ClientHabit>)
    ensures |r| == |hs| && forall i :: 0 <= i < |hs| ==> r[i] == Shown(hs[i])
    ensures forall h :: Shown(h) in r <==> h in hs
  {
    var r := seq(|hs|, i requires 0 <= i < |hs| => Shown(hs[i]));
    forall h ensures Shown(h) in r <==> h in hs {
      if Shown(h) in r {
        var i :| 0 <= i < |r| && r[i] == Shown(h);
        assert hs[i] == h;
      }
      if h in hs {
        var i :| 0 <= i < |hs| && hs[i] == h;
        assert r[i] == Shown(h);
      }
    }
    r
  }

  function EntryAll(xs: seq<HabitLog>): (r: seq<ClientLog>)
    ensures |r| == |xs| && forall i :: 0 <= i < |xs| ==> r[i] == Entry(xs[i])
    ensures forall x :: Entry(x) in r <==> x in xs
  {
    var r := seq(|xs|, i requires 0 <= i < |xs| => Entry(xs[i]));
    forall x ensures Entry(x) in r <==> x in xs {
      if Entry(x) in r {
        var i :| 0 <= i < |r| && r[i] == Entry(x);
        assert xs[i] == x;
      }
      if x in xs {
        var i :| 0 <= i < |xs| && xs[i] == x;
        assert r[i] == Entry(x);
      }
    }
    r
  }

  /**
   * The optimistic update of `toggleHabit`: the first log of the habit on the
   * day has its `completed` flipped, or a 'temp' log with completed true is
   * appended when there is none. Either way what the statistics read flips.
   */
  function Speculative(logs: seq<ClientLog>, habitId: Id, day: Day): (r: seq<ClientLog>)
    ensures var i := FindIndex(logs, habitId, day);
      if i >= 0 then
        && |r| == |logs|
        && r[i] == Entry(logs[i].log.(completed := !logs[i].log.completed))
        && forall j :: 0 <= j < |logs| && j != i ==> r[j] == logs[j]
      else
        r == logs + [Entry(HabitLog("temp", habitId, MidnightOf(day), true, None))]
    ensures FindIndex(r, habitId, day) >= 0
    ensures FirstCompleted(r, habitId, day) == !FirstCompleted(logs, habitId, day)
  {
    var i := FindIndex(logs, habitId, day);
    if i >= 0 then
      var r := logs[i := Entry(logs[i].log.(completed := !logs[i].log.completed))];
      assert IsFor(r[i], habitId, day);
      assert FindIndex(r, habitId, day) == i by {
        var k := FindIndex(r, habitId, day);
        assert k < 0 || !(k < i);
        assert !(k < 0 || i < k);
      }
      r
    else
      var temp := Entry(HabitLog("temp", habitId, MidnightOf(day), true, None));
      var r := logs + [temp];
      MidnightOfDay(day, 0);
      assert IsFor(r[|logs|], habitId, day);
      assert FindIndex(r, habitId, day) == |logs| by {
        var k := FindIndex(r, habitId, day);
        assert k < 0 || !(k < |logs|);
        assert !(k < 0 || |logs| < k);
      }
      r
  }

  /** Toggling twice shows the original state again, and restores the logs exactly when the habit already had a log that day. */
  lemma SpeculativeTwice(logs: seq<ClientLog>, habitId: Id, day: Day)
    ensures FirstCompleted(Speculative(Speculative(logs, habitId, day), habitId, day), habitId, day) == FirstCompleted(logs, habitId, day)
    ensures FindIndex(logs, habitId, day) >= 0 ==> Speculative(Speculative(logs, habitId, day), habitId, day) == logs
  {
    var once := Speculative(logs, habitId, day);
    var twice := Speculative(once, habitId, day);
    var i := FindIndex(logs, habitId, day);
    if i >= 0 {
      assert FindIndex(once, habitId, day) == i by {
        var k := FindIndex(once, habitId, day);
        assert IsFor(once[i], habitId, day);
        assert k < 0 || !(k < i);
        assert !(k < 0 || i < k);
      }
      assert twice == logs;
    }
  }

  /** `prev.map(l => matches ? updatedLog : l)`: every log of the habit on the day becomes the answer. */
  function Reconciled(logs: seq<ClientLog>, habitId: Id, day: Day, answer: ClientLog): (r: seq<ClientLog>)
    ensures |r| == |logs|
    ensures forall i :: 0 <= i < |logs| ==> r[i] == if IsFor(logs[i], habitId, day) then answer else logs[i]
  {
    seq(|logs|, i requires 0 <= i < |logs| => if IsFor(logs[i], habitId, day) then answer else logs[i])
  }

  /** An answer for the same habit and day takes the place of the first matching log, so the statistics read the answer. */
  lemma ReconcileWithRecord(logs: seq<ClientLog>, habitId: Id, day: Day, answer: ClientLog)
    requires IsFor(answer, habitId, day)
    ensures FindIndex(Reconciled(logs, habitId, day, answer), habitId, day) == FindIndex(logs, habitId, day)
    ensures FirstCompleted(Reconciled(logs, habitId, day, answer), habitId, day) <==> FindIndex(logs, habitId, day) >= 0 && Done(answer)
  {
    var r := Reconciled(logs, habitId, day, answer);
    var i, k := FindIndex(logs, habitId, day), FindIndex(r, habitId, day);
    assert forall j :: 0 <= j < |logs| ==> (IsFor(r[j], habitId, day) <==> IsFor(logs[j], habitId, day));
    if i >= 0 {
      assert IsFor(r[i], habitId, day);
      assert k >= 0 && !(k < i);
      assert IsFor(logs[k], habitId, day);
      assert !(i < k);
    }
  }

  /** An error answer takes the place of every log of the habit on the day, so neither the grid nor the statistics show it completed. */
  lemma ReconcileWithError(logs: seq<ClientLog>, habitId: Id, day: Day, error: string)
    ensures FindIndex(Reconciled(logs, habitId, day, ErrorBody(error)), habitId, day) == -1
    ensures !CellCompleted(Reconciled(logs, habitId, day, ErrorBody(error)), habitId, day)
  {
    var r := Reconciled(logs, habitId, day, ErrorBody(error));
    assert forall j :: 0 <= j < |r| ==> !IsFor(r[j], habitId, day);
  }

  /** What `res.json()` yields for a reply of POST /api/logs: the record, or the error body. */
  function LogAnswer(r: Ledger.Reply<HabitLog>): (e: ClientLog)
    ensures r.Ok? <==> e.Entry?
    ensures r.Ok? ==> e.log == r.value
  {
    match r
    case Ok(x) => Entry(x)
    case BadRequest(msg) => ErrorBody(msg)
    case ServerError(msg) => ErrorBody(msg)
  }

  /** What `res.json()` yields for a reply of POST or PUT /api/habits that carries a body. */
  function HabitAnswer(r: Ledger.Reply<Habit>): (c: ClientHabit)
    ensures r.Ok? <==> c.Shown?
    ensures r.Ok? ==> c.habit == r.value
  {
    match r
    case Ok(h) => Shown(h)
    case BadRequest(msg) => ErrorEntry(msg)
    case ServerError(msg) => ErrorEntry(msg)
  }

  /** `prev.map(h => h._id === updated._id ? updated : h)`. */
  function ReplaceById(habits: seq<ClientHabit>, updated: ClientHabit): (r: seq<ClientHabit>)
    ensures |r| == |habits|
    ensures forall i :: 0 <= i < |habits| ==> r[i] == if HabitId(habits[i]) == HabitId(updated) then updated else habits[i]
  {
    seq(|habits|, i requires 0 <= i < |habits| => if HabitId(habits[i]) == HabitId(updated) then updated else habits[i])
  }

  /** `prev.filter(h => h._id !== id)`, in order. */
  function WithoutId(habits: seq<ClientHabit>, id: Id): (r: seq<ClientHabit>)
    ensures forall c :: c in r <==> c in habits && HabitId(c) != Some(id)
    ensures |r| <= |habits|
    decreases |habits|
  {
    if habits == [] then []
    else
      var init := WithoutId(habits[..|habits| - 1], id);
      var last := habits[|habits| - 1];
      assert habits == habits[..|habits| - 1] + [last];
      if HabitId(last) != Some(id) then init + [last] else init
  }

  /** Replacing a habit by its updated version keeps the client in step with a store that made the same update. */
  lemma ReplaceKeepsMirror(habits: seq<ClientHabit>, store: map<Id, Habit>, h: Habit)
    requires forall id :: id in store ==> store[id].id == id
    requires Mirrors(habits, store) && h.id in store
    ensures Mirrors(ReplaceById(habits, Shown(h)), store[h.id := h])
  {
    var r := ReplaceById(habits, Shown(h));
    var store' := store[h.id := h];
    forall g ensures Shown(g) in r <==> g.id in store' && store'[g.id] == g {
      if Shown(g) in r {
        var i :| 0 <= i < |r| && r[i] == Shown(g);
        assert habits[i] in habits;
      }
      if g.id in store' && store'[g.id] == g {
        if g.id == h.id {
          assert Shown(store[h.id]) in habits;
          var i :| 0 <= i < |habits| && habits[i] == Shown(store[h.id]);
          assert r[i] == Shown(g);
        } else {
          assert Shown(g) in habits;
          var i :| 0 <= i < |habits| && habits[i] == Shown(g);
          assert r[i] == Shown(g);
        }
      }
    }
  }

  /** Filtering a habit out keeps the client in step with a store that deleted it. */
  lemma FilterKeepsMirror(habits: seq<ClientHabit>, store: map<Id, Habit>, id: Id)
    requires Mirrors(habits, store)
    ensures Mirrors(WithoutId(habits, id), store - {id})
  {
    var r := WithoutId(habits, id);
    forall i | 0 <= i < |r| ensures r[i].Shown? {
      assert r[i] in r;
    }
  }

  /** Appending a newly stored habit keeps the client in step with the store. */
  lemma AppendKeepsMirror(habits: seq<ClientHabit>, store: map<Id, Habit>, h: Habit)
    requires Mirrors(habits, store) && h.id !in store
    ensures Mirrors(habits + [Shown(h)], store[h.id := h])
  {
    forall g ensures Shown(g) in habits + [Shown(h)] <==> g.id in store[h.id := h] && store[h.id := h][g.id] == g {
      if Shown(g) in habits {
        assert g.id in store;
      }
    }
  }

  /**
   * A failed create appends the error body: the habit count, and with it every
   * "possible" figure, grows although no habit was stored. The appended entry
   * has no `_id`, so from then on every error body the client holds passes the
   * `activeLogs` filter; none of them is completed, so the completed figure
   * stays as it was.
   */
  lemma FailedCreateGrowsPossible(logs: seq<ClientLog>, habits: seq<ClientHabit>, ym: YearMonth, error: string)
    ensures var after := habits + [ErrorEntry(error)];
      && MonthlyStats(logs, after, ym).possible == MonthlyStats(logs, habits, ym).possible + DaysInMonth(ym.year, ym.month)
      && MonthlyStats(logs, after, ym).completed == MonthlyStats(logs, habits, ym).completed
    ensures forall e: ClientLog :: e.ErrorBody? ==> (e in ActiveLogs(logs, habits + [ErrorEntry(error)]) <==> e in logs)
  {
    var after := habits + [ErrorEntry(error)];
    forall e: ClientLog | Done(e)
      ensures IsActive(e, after) <==> IsActive(e, habits)
    {
      if IsActive(e, after) {
        var k :| 0 <= k < |after| && HabitId(after[k]) == LogHabitId(e);
        assert k < |habits| && HabitId(habits[k]) == LogHabitId(e);
      }
      if IsActive(e, habits) {
        var k :| 0 <= k < |habits| && HabitId(habits[k]) == LogHabitId(e);
        assert HabitId(after[k]) == LogHabitId(e);
      }
    }
    SameDoneCount(logs, habits, after);
    forall e: ClientLog | e.ErrorBody?
      ensures IsActive(e, after)
    {
      assert HabitId(after[|habits|]) == LogHabitId(e);
    }
  }

  /** Adding one log to the end adds one to the count exactly when that log is completed. */
  lemma CountDoneSnoc(s: seq<ClientLog>, x: ClientLog)
    ensures CountDone(s + [x]) == CountDone(s) + (if Done(x) then 1 else 0)
  {
    assert (s + [x])[..|s|] == s;
  }

  /** Two habit lists that agree on which completed logs are active give the same completed count. */
  lemma {:induction false} SameDoneCount(logs: seq<ClientLog>, a: seq<ClientHabit>, b: seq<ClientHabit>)
    requires forall e :: Done(e) ==> (IsActive(e, a) <==> IsActive(e, b))
    ensures CountDone(ActiveLogs(logs, a)) == CountDone(ActiveLogs(logs, b))
    decreases |logs|
  {
    if logs != [] {
      var init, last := logs[..|logs| - 1], logs[|logs| - 1];
      SameDoneCount(init, a, b);
      CountDoneSnoc(ActiveLogs(init, a), last);
      CountDoneSnoc(ActiveLogs(init, b), last);
    }
  }

  /** After a delete, no log of the deleted habit is active, whatever logs the client still holds. */
  lemma DeletedHabitLeavesStats(logs: seq<ClientLog>, habits: seq<ClientHabit>, id: Id)
    ensures forall e :: e in ActiveLogs(logs, WithoutId(habits, id)) ==> LogHabitId(e) != Some(id)
  {
    var hs := WithoutId(habits, id);
    forall e | e in ActiveLogs(logs, hs) ensures LogHabitId(e) != Some(id) {
      var k :| 0 <= k < |hs| && HabitId(hs[k]) == LogHabitId(e);
      assert hs[k] in hs;
    }
  }

  /** Loaded logs in the grid: a cell of a day inside the padded grid shows completed exactly when the store holds a completed log of that habit on that day. */
  lemma GridCellMatchesStore(logs: seq<ClientLog>, store: map<LogKey, LogDoc>, ym: YearMonth, habitId: Id, day: Day)
    requires ShowsGrid(logs, store, ym) && PaddedStart(ym) <= day <= PaddedEnd(ym)
    ensures CellCompleted(logs, habitId, day) <==>
      exists k :: k in store && k.habitId == habitId && DayOf(k.date) == day && store[k].completed
  {
    if CellCompleted(logs, habitId, day) {
      var i :| 0 <= i < |logs| && IsFor(logs[i], habitId, day) && Done(logs[i]);
      assert Entry(logs[i].log) in logs;
      assert KeyOf(logs[i].log) in store;
    }
    if exists k :: k in store && k.habitId == habitId && DayOf(k.date) == day && store[k].completed {
      var k :| k in store && k.habitId == habitId && DayOf(k.date) == day && store[k].completed;
      var x := RecordOf(k, store[k]);
      assert Ledger.Stored(store, x);
      assert Entry(x) in logs;
      var i :| 0 <= i < |logs| && logs[i] == Entry(x);
      assert IsFor(logs[i], habitId, day) && Done(logs[i]);
    }
  }

  /** The POST body of `createHabit`: the typed name as is, the description or '', the lightning icon and the neon-blue colour. */
  function NewHabitRequest(name: string, description: string): (body: HabitFields)
    ensures body.name == Some(name) && body.description == Some(description)
    ensures body.goal.None? && body.order.None? && body.createdAt.None?
  {
    HabitFields(Some(name), Some("\U{26A1}"), Some("neon-blue"), Some(description), None, None, None)
  }

  /** What the store creates from that body: the typed name and description, the lightning icon and the model's defaults elsewhere. */
  lemma CreatedFromRequest(name: string, description: string, id: Id, now: Instant)
    requires name != ""
    ensures NewHabit(NewHabitRequest(name, description), id, now) == Some(Habit(id, name, "\U{26A1}", "neon-blue", description, 0, 0, now))
  {
  }

  /** The characters `String.prototype.trim` removes: white space and line terminators. */
  predicate IsJsSpace(c: char) {
    || c == '\t' || c == '\n' || c == '\U{B}' || c == '\U{C}' || c == '\r' || c == ' '
    || c == '\U{A0}' || c == '\U{1680}' || ('\U{2000}' <= c <= '\U{200A}') || c == '\U{2028}' || c == '\U{2029}'
    || c == '\U{202F}' || c == '\U{205F}' || c == '\U{3000}' || c == '\U{FEFF}'
  }

  /** `!name.trim()`. */
  predicate IsBlank(name: string) {
    forall i :: 0 <= i < |name| ==> IsJsSpace(name[i])
  }

  /** Every field of a habit, as the PUT body carries the whole edited object. */
  function AllFields(h: Habit): (f: HabitFields)
    ensures forall g: Habit :: g.id == h.id ==> ApplyFields(g, f) == h
  {
    HabitFields(Some(h.name), Some(h.icon), Some(h.color), Some(h.description), Some(h.goal), Some(h.order), Some(h.createdAt))
  }

  class Dashboard {
    var currentDate: CalendarDate
    var habits: seq<ClientHabit>
    var logs: seq<ClientLog>
    /** A render threw; with no error boundary above the dashboard, React unmounts the page. */
    var crashed: bool

    ghost predicate Valid()
      reads this
    {
      currentDate.Valid()
    }

    constructor (today: CalendarDate)
      requires today.Valid()
      ensures Valid() && currentDate == today && habits == [] && logs == [] && !crashed
    {
      currentDate := today;
      habits := [];
      logs := [];
      crashed := false;
    }

    /**
     * `fetchData`: the habits, then the logs of every day of the padded grid.
     * A request that throws ends the reload, keeping what was set before it.
     */
    method FetchData(db: Ledger.Database, failure: FetchFailure)
      requires Valid() && db.Valid()
      modifies this`habits, this`logs
      ensures failure == HabitsThrew ==> habits == old(habits)
      ensures failure != HabitsThrew ==> Mirrors(habits, db.habits) && |habits| == |db.habits|
      ensures failure != HabitsThrew ==> forall i, j :: 0 <= i < j < |habits| ==> habits[i].habit.order <= habits[j].habit.order
      ensures failure != NoFailure ==> logs == old(logs)
      ensures failure == NoFailure ==> ShowsGrid(logs, db.logs, currentDate.Of())
    {
      if failure == HabitsThrew {
        return;
      }
      var found := db.GetHabits();
      habits := ShowAll(found);
      forall i, j | 0 <= i < j < |habits| ensures habits[i].habit.order <= habits[j].habit.order {
        assert found[i] == habits[i].habit && found[j] == habits[j].habit;
      }
      if failure == LogsThrew {
        return;
      }
      var range := GridInstants(currentDate.Of());
      var reply := db.GetLogs(Ledger.At(range.0), Ledger.At(range.1));
      logs := EntryAll(reply.value);
    }

    /**
     * `toggleHabit(habitId, day)`: the optimistic flip, then POST of the new
     * value at the day's midnight; the answer replaces the day's logs of the
     * habit. When the request throws, the page reloads instead.
     */
    method Toggle(db: Ledger.Database, habitId: Id, day: Day, threw: bool, newId: Id, refetch: FetchFailure)
      requires Valid() && db.Valid()
      modifies this`habits, this`logs, db`logs
      ensures db.Valid()
      ensures !threw && habitId == "" ==>
        && db.logs == old(db.logs)
        && habits == old(habits)
        && logs == Reconciled(Speculative(old(logs), habitId, day), habitId, day, ErrorBody("Failed to update log"))
      ensures !threw && habitId != "" ==>
        var v := !FirstCompleted(old(logs), habitId, day);
        var key := LogKey(habitId, MidnightOf(day));
        && db.logs == Ledger.Upsert(old(db.logs), key, Some(v), None, newId)
        && habits == old(habits)
        && logs == Reconciled(Speculative(old(logs), habitId, day), habitId, day, LogAnswer(Ledger.Reply.Ok(RecordOf(key, db.logs[key]))))
      ensures !threw && habitId != "" ==> db.logs[LogKey(habitId, MidnightOf(day))].completed == FirstCompleted(logs, habitId, day)
      ensures !threw && habitId != "" ==> FirstCompleted(logs, habitId, day) == !FirstCompleted(old(logs), habitId, day)
      ensures threw ==> db.logs == old(db.logs)
      ensures threw && refetch == HabitsThrew ==> habits == old(habits)
      ensures threw && refetch != HabitsThrew ==> Mirrors(habits, db.habits)
      ensures threw && refetch != NoFailure ==> logs == Speculative(old(logs), habitId, day)
      ensures threw && refetch == NoFailure ==> ShowsGrid(logs, db.logs, currentDate.Of())
    {
      var i := FindIndex(logs, habitId, day);
      var isCompleted := if i > -1 then Done(logs[i]) else false;
      var newValue := !isCompleted;
      var newLogs := logs;
      if i > -1 {
        newLogs := newLogs[i := Entry(newLogs[i].log.(completed := newValue))];
      } else {
        newLogs := newLogs + [Entry(HabitLog("temp", habitId, MidnightOf(day), newValue, None))];
      }
      assert newLogs == Speculative(old(logs), habitId, day);
      logs := newLogs;
      if threw {
        FetchData(db, refetch);
        return;
      }
      var reply := db.PostLog(Ledger.LogPost(Some(habitId), Ledger.At(MidnightOf(day)), Some(newValue), None), newId);
      var answer := LogAnswer(reply);
      if habitId != "" {
        MidnightOfDay(day, 0);
        assert IsFor(answer, habitId, day);
        ReconcileWithRecord(logs, habitId, day, answer);
      }
      logs := Reconciled(logs, habitId, day, answer);
    }

    /**
     * `handleUpdateHabit`: PUT of the whole edited habit; the answer replaces
     * the habits with the same `_id`. A request that throws changes nothing.
     * A null answer (no such habit) reaches the `setHabits` updater, where
     * `updated._id` throws on the first habit it visits. React runs that
     * updater outside the `try`, so the `catch` never sees the throw and the
     * modals still close. The update is never committed, and the render that
     * replays it throws, which crashes the page whenever the list is
     * non-empty. An empty list maps to itself without reading `updated`.
     */
    method UpdateHabit(db: Ledger.Database, editing: Option<Habit>, threw: bool)
      requires Valid() && db.Valid()
      modifies this`habits, this`crashed, db`habits
      ensures db.Valid()
      ensures editing.None? || threw ==> habits == old(habits) && db.habits == old(db.habits) && crashed == old(crashed)
      ensures editing.Some? && !threw ==>
        var e := editing.value;
        if e.id == "" then
          db.habits == old(db.habits) && habits == ReplaceById(old(habits), ErrorEntry("ID required")) && crashed == old(crashed)
        else if e.id in old(db.habits) then
          db.habits == old(db.habits)[e.id := e] && habits == ReplaceById(old(habits), Shown(e)) && crashed == old(crashed)
        else
          db.habits == old(db.habits) && habits == old(habits) && crashed == (old(crashed) || old(habits) != [])
      ensures editing.Some? && !threw && editing.value.id in old(db.habits) && Mirrors(old(habits), old(db.habits)) ==>
        Mirrors(habits, db.habits)
    {
      if editing.None? || threw {
        return;
      }
      var e := editing.value;
      var reply := db.PutHabit(Ledger.HabitUpdate(Some(e.id), AllFields(e)));
      if reply.Ok? {
        if reply.value.Some? {
          habits := ReplaceById(habits, Shown(reply.value.value));
          if Mirrors(old(habits), old(db.habits)) {
            ReplaceKeepsMirror(old(habits), old(db.habits), e);
          }
        } else if habits != [] {
          crashed := true;
        }
      } else {
        habits := ReplaceById(habits, ErrorEntry(reply.error));
      }
    }

    /**
     * `handleDeleteHabit`: nothing without an id or without confirmation;
     * otherwise DELETE, then the habit is filtered out whatever the status,
     * unless the request threw. Its logs stay in the client's `logs`.
     */
    method DeleteHabit(db: Ledger.Database, editing: Option<Habit>, confirmed: bool, threw: bool)
      requires Valid() && db.Valid()
      modifies this`habits, db
      ensures db.Valid()
      ensures logs == old(logs)
      ensures editing.None? || editing.value.id == "" || !confirmed || threw ==>
        habits == old(habits) && db.habits == old(db.habits) && db.logs == old(db.logs)
      ensures editing.Some? && editing.value.id != "" && confirmed && !threw ==>
        var id := editing.value.id;
        && habits == WithoutId(old(habits), id)
        && db.habits == old(db.habits) - {id}
        && db.logs == Ledger.WithoutHabit(old(db.logs), id)
      ensures editing.Some? && editing.value.id != "" && confirmed && !threw && Mirrors(old(habits), old(db.habits)) ==>
        Mirrors(habits, db.habits)
    {
      if editing.None? || editing.value.id == "" || !confirmed || threw {
        return;
      }
      var id := editing.value.id;
      var _ := db.DeleteHabit(Some(id));
      habits := WithoutId(habits, id);
      if Mirrors(old(habits), old(db.habits)) {
        FilterKeepsMirror(old(habits), old(db.habits), id);
      }
    }

    /**
     * `createHabit`: nothing for a blank name or a request that throws;
     * otherwise POST of the name as typed, and whatever the store answers is
     * appended, an error body included.
     */
    method CreateHabit(db: Ledger.Database, name: string, description: string, threw: bool, newId: Id, now: Instant)
      requires Valid() && db.Valid()
      modifies this`habits, db`habits
      ensures db.Valid()
      ensures IsBlank(name) || threw ==> habits == old(habits) && db.habits == old(db.habits)
      ensures !IsBlank(name) && !threw && newId !in old(db.habits) ==>
        var h := Habit(newId, name, "\U{26A1}", "neon-blue", description, 0, 0, now);
        db.habits == old(db.habits)[newId := h] && habits == old(habits) + [Shown(h)]
      ensures !IsBlank(name) && !threw && newId in old(db.habits) ==>
        db.habits == old(db.habits) && habits == old(habits) + [ErrorEntry("Failed to create habit")]
      ensures !IsBlank(name) && !threw && newId !in old(db.habits) && Mirrors(old(habits), old(db.habits)) ==>
        Mirrors(habits, db.habits)
    {
      if IsBlank(name) || threw {
        return;
      }
      assert name != [];
      CreatedFromRequest(name, description, newId, now);
      var reply := db.PostHabit(NewHabitRequest(name, description), newId, now);
      habits := habits + [HabitAnswer(reply)];
      if reply.Ok? && Mirrors(old(habits), old(db.habits)) {
        AppendKeepsMirror(old(habits), old(db.habits), reply.value);
      }
    }

    /** The month arrows: the date moves one month, then the page reloads for the new month. */
    method ShiftMonth(db: Ledger.Database, forward: bool, failure: FetchFailure)
      requires Valid() && db.Valid()
      modifies this
      ensures Valid()
      ensures currentDate == Calendar.ShiftMonth(old(currentDate), forward)
      ensures currentDate.Of() == if forward then NextMonth(old(currentDate).Of()) else PrevMonth(old(currentDate).Of())
      ensures failure == HabitsThrew ==> habits == old(habits)
      ensures failure != HabitsThrew ==> Mirrors(habits, db.habits)
      ensures failure != NoFailure ==> logs == old(logs)
      ensures failure == NoFailure ==> ShowsGrid(logs, db.logs, currentDate.Of())
    {
      currentDate := Calendar.ShiftMonth(currentDate, forward);
      FetchData(db, failure);
    }

    /** Clicking the month header returns to today's date, then the page reloads. */
    method ShowToday(db: Ledger.Database, today: CalendarDate, failure: FetchFailure)
      requires Valid() && db.Valid() && today.Valid()
      modifies this
      ensures Valid() && currentDate == today
      ensures failure == HabitsThrew ==> habits == old(habits)
      ensures failure != HabitsThrew ==> Mirrors(habits, db.habits)
      ensures failure != NoFailure ==> logs == old(logs)
      ensures failure == NoFailure ==> ShowsGrid(logs, db.logs, today.Of())
    {
      currentDate := today;
      FetchData(db, failure);
    }
  }
}
