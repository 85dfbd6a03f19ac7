/**
 * The record shapes of models/Habit.ts, models/HabitLog.ts and
 * models/TimerLog.ts (and their client-side mirror in lib/types.ts), with the
 * schemas' required fields, enums and defaults.
 */
module Records {
  import opened Wrappers
  import opened Calendar

  /** Document identifiers (ObjectIds, as the strings the client sees). */
  type Id = string

  datatype Habit = Habit(
    id: Id,
    name: string,
    icon: string,
    color: string,
    description: string,
    goal: int,
    order: int,
    createdAt: Instant)

  const DefaultIcon: string := "\U{1F4DD}"
  const DefaultColor: string := "neon-blue"

  /** The habit fields a request body may carry; every one may be absent. */
  datatype HabitFields = HabitFields(
    name: Option<string>,
    icon: Option<string>,
    color: Option<string>,
    description: Option<string>,
    goal: Option<int>,
    order: Option<int>,
    createdAt: Option<Instant>)

  /**
   * `Habit.create(body)`: `name` is required (a missing or empty string fails
   * the schema's required validator) and every other absent field takes its
   * schema default; `createdAt` defaults to the creation time `now`.
   */
  function NewHabit(body: HabitFields, id: Id, now: Instant): (r: Option<Habit>)
    ensures r.Some? <==> body.name.Some? && body.name.value != ""
    ensures r.Some? ==> r.value.id == id && r.value.name == body.name.value
    ensures r.Some? && body.icon.None? ==> r.value.icon == DefaultIcon
    ensures r.Some? && body.color.None? ==> r.value.color == DefaultColor
    ensures r.Some? && body.description.None? ==> r.value.description == ""
    ensures r.Some? && body.goal.None? ==> r.value.goal == 0
    ensures r.Some? && body.order.None? ==> r.value.order == 0
    ensures r.Some? && body.createdAt.None? ==> r.value.createdAt == now
    ensures r.Some? ==> forall s :: body.icon == Some(s) ==> r.value.icon == s
    ensures r.Some? ==> forall s :: body.color == Some(s) ==> r.value.color == s
    ensures r.Some? ==> forall s :: body.description == Some(s) ==> r.value.description == s
    ensures r.Some? ==> forall n :: body.goal == Some(n) ==> r.value.goal == n
    ensures r.Some? ==> forall n :: body.order == Some(n) ==> r.value.order == n
    ensures r.Some? ==> forall n :: body.createdAt == Some(n) ==> r.value.createdAt == n
  {
    if body.name.None? || body.name.value == "" then None
    else Some(Habit(
      id,
      body.name.value,
      body.icon.GetOr(DefaultIcon),
      body.color.GetOr(DefaultColor),
      body.description.GetOr(""),
      body.goal.GetOr(0),
      body.order.GetOr(0),
      body.createdAt.GetOr(now)))
  }

  /** `findByIdAndUpdate(_id, updates)`: every field present in the update overwrites; the id never changes. */
  function ApplyFields(h: Habit, f: HabitFields): (r: Habit)
    ensures r.id == h.id
    ensures f == HabitFields(None, None, None, None, None, None, None) ==> r == h
    ensures f.name.Some? ==> r.name == f.name.value
    ensures f.name.None? ==> r.name == h.name
    ensures f.icon.Some? ==> r.icon == f.icon.value
    ensures f.icon.None? ==> r.icon == h.icon
    ensures f.color.Some? ==> r.color == f.color.value
    ensures f.color.None? ==> r.color == h.color
    ensures f.description.Some? ==> r.description == f.description.value
    ensures f.description.None? ==> r.description == h.description
    ensures f.goal.Some? ==> r.goal == f.goal.value
    ensures f.goal.None? ==> r.goal == h.goal
    ensures f.order.Some? ==> r.order == f.order.value
    ensures f.order.None? ==> r.order == h.order
    ensures f.createdAt.Some? ==> r.createdAt == f.createdAt.value
    ensures f.createdAt.None? ==> r.createdAt == h.createdAt
  {
    Habit(
      h.id,
      f.name.GetOr(h.name),
      f.icon.GetOr(h.icon),
      f.color.GetOr(h.color),
      f.description.GetOr(h.description),
      f.goal.GetOr(h.goal),
      f.order.GetOr(h.order),
      f.createdAt.GetOr(h.createdAt))
  }

  /** A completion record as it crosses the network (IHabitLog). */
  datatype HabitLog = HabitLog(id: Id, habitId: Id, date: Instant, completed: bool, value: Option<int>)

  /** The unique index `{ habitId: 1, date: 1 }`: a log is identified by its habit and its exact instant. */
  datatype LogKey = LogKey(habitId: Id, date: Instant)

  /** What the store keeps under a key. */
  datatype LogDoc = LogDoc(id: Id, completed: bool, value: Option<int>)

  function RecordOf(k: LogKey, d: LogDoc): (r: HabitLog)
    ensures KeyOf(r) == k
  {
    HabitLog(d.id, k.habitId, k.date, d.completed, d.value)
  }

  function KeyOf(log: HabitLog): LogKey {
    LogKey(log.habitId, log.date)
  }

  /** The three categories the TimerLog schema's enum admits. */
  datatype Category = Study | Food | Other

  /** The enum check `enum: ['Study', 'Other', 'Food']`. */
  function ParseCategory(s: string): (r: Option<Category>)
    ensures r == Some(Study) <==> s == "Study"
    ensures r == Some(Food) <==> s == "Food"
    ensures r == Some(Other) <==> s == "Other"
  {
    if s == "Study" then Some(Study)
    else if s == "Food" then Some(Food)
    else if s == "Other" then Some(Other)
    else None
  }

  /** The name the client sends for a category; the enum check reads it back. */
  function CategoryName(c: Category): (s: string)
    ensures ParseCategory(s) == Some(c)
  {
    match c
    case Study => "Study"
    case Food => "Food"
    case Other => "Other"
  }

  /** A saved timer session; `duration` is in milliseconds and nothing ties it to the two instants. */
  datatype TimerLog = TimerLog(category: Category, startTime: Instant, endTime: Instant, duration: int)

  datatype TimerFields = TimerFields(
    category: Option<string>,
    startTime: Option<Instant>,
    endTime: Option<Instant>,
    duration: Option<int>)

  /** `TimerLog.create(...)`: all four fields are required and the category must be in the enum. */
  function NewTimerLog(body: TimerFields): (r: Option<TimerLog>)
    ensures r.Some? <==>
      && body.category.Some? && ParseCategory(body.category.value).Some?
      && body.startTime.Some? && body.endTime.Some? && body.duration.Some?
    ensures r.Some? ==>
      && Some(r.value.category) == ParseCategory(body.category.value)
      && r.value.startTime == body.startTime.value
      && r.value.endTime == body.endTime.value
      && r.value.duration == body.duration.value
  {
    if body.category.None? || body.startTime.None? || body.endTime.None? || body.duration.None? then None
    else match ParseCategory(body.category.value)
      case None => None
      case Some(c) => Some(TimerLog(c, body.startTime.value, body.endTime.value, body.duration.value))
  }
}
