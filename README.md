# Habit tracker: a verified model of its bookkeeping

This project models the core of a small habit tracker built with Next.js and
MongoDB. The tracker has four parts:

- a month calendar that is padded to whole Sunday-to-Saturday weeks and cut
  into weeks;
- a dashboard that shows, for every habit and every day of the padded month,
  whether the habit was done;
- the store behind it, holding habits and completion logs;
- a stopwatch page that records time spent on three categories.

The model keeps each part's own form:

- The calendar is a loop over days (`Calendar.ChunkIntoWeeks`), proved against
  a chunking function.
- The dashboard is a class. Its fields are the displayed date, the habits and
  the logs the browser holds. Its handlers call the store object directly.
- The store is a class over two maps:
  - habits keyed by id;
  - logs keyed by (habitId, exact instant), which is the unique index.
- The statistics (active logs, monthly, weekly and per-day figures, the chart
  series) are functions. `weeklyStats` is the exception: it is a method with
  the source's nested loops.
- The timer page is a class over `activeCategory`, `startTime`, `elapsed` and
  its list of sessions. The timer API is a class over a sequence of sessions.

Conventions:

- A day is a Rata Die number: day 1 is Monday 1 January of year 1, so the
  weekday is `d % 7` with 0 for Sunday.
- An instant is an integer count of milliseconds of local time since
  1970-01-01. `DayOf` is the calendar day the instant falls on, which is what
  `isSameDay` and `toDateString` compare.
- Every request the browser makes is a parameter of the handler. Either the
  request throws, or it reaches the store and the handler reads the store's
  answer. That answer can be an error body, which the dashboard stores as if it
  were a record.
- The rates `Math.round((c / p) * 100)` are taken over the exact rational
  quotient, which for non-negative integers is `(200c + p) / (2p)`: the
  percentage rounded half up. The source divides in floating point; see
  "## Left out".
- The dashboard's habit list can hold an error entry and its log list an
  error body. Neither has an id field, so in the source `undefined ===
  undefined` matches them: an error body passes the `activeLogs` filter
  exactly when the habit list holds an error entry. The model keeps that
  match (`LogView.IsActive`).

The model follows the code in these places:

- The POST of a log keys it by the exact instant received. Nothing normalises
  it to midnight.
- The monthly "completed" figure counts completions on padding days. The logs
  are loaded over the padded range, so the monthly rate can exceed 100.
- The grid uses all the logs the client holds and `some`. The weekly figures
  use the active logs and `find`, which reads only the first match.

## Model

| member | source | states |
|---|---|---|
| Calendar.MidnightOfDay | lib/dateUtils.ts:12 | the midnight of a day falls on that day, and an instant falls on day d exactly when it lies in d's 24 hours |
| Calendar.DaySpan | components/Dashboard.tsx:71-72 | the instants from startOfWeek(startOfMonth) to endOfWeek(endOfMonth) are exactly those whose day lies in the padded range |
| Calendar.DaysInMonth | components/Dashboard.tsx:148 | a month has 28 to 31 days, and February has 29 exactly in a Gregorian leap year |
| Calendar.DateInItsMonth | lib/dateUtils.ts:4-5 | the reference date lies between the first and the last day of its month |
| Calendar.NextMonth | components/Dashboard.tsx:245 | the next month starts the day after this month ends |
| Calendar.PrevMonth | components/Dashboard.tsx:244 | the previous month ends the day before this month starts, and the next month of the previous month is this month |
| Calendar.ShiftMonth | components/Dashboard.tsx:244-245 | addMonths/subMonths give a valid date in the neighbouring month, with the same day number clamped to that month's length |
| Calendar.ShiftMonthRoundTrip | components/Dashboard.tsx:244-245 | one month forward then back returns to the same month, and to the same date when the day number is at most 28 |
| Calendar.ShiftMonthLosesDay | components/Dashboard.tsx:244-245 | the clamp loses the day: 31 March 2025 forward and back is 30 March 2025 |
| Calendar.PaddedBounds | lib/dateUtils.ts:8-10 | the range starts on a Sunday at most 6 days before the 1st and ends on a Saturday at most 6 days after the last day; its length is a multiple of 7 between 28 and 42 |
| Calendar.DayRange | lib/dateUtils.ts:12 | eachDayOfInterval yields the consecutive days from start to end, in order |
| Calendar.ChunksShape | lib/dateUtils.ts:17-27 | for any input list, the chunks concatenate back to the input; there are ceil(n/7) of them; each has 1 to 7 days; all but the last have 7; element j of chunk i is input element 7i+j |
| Calendar.ChunksOfFullWeeks | lib/dateUtils.ts:17-27 | a list whose length is a multiple of 7 is cut into length/7 chunks of exactly 7 |
| Calendar.GridShape | lib/dateUtils.ts:12-27 | chunking a Sunday-to-Saturday range gives full weeks; day j of week i is start+7i+j and has weekday j; every day of the range sits at (its week index, its weekday) |
| Calendar.MonthWeeksShape | lib/dateUtils.ts:8-27 | a month gives 4 to 6 weeks of exactly 7 days, Sunday first; together they are the padded range; every day of the month appears in them |
| Calendar.MonthWeeksDistinct | lib/dateUtils.ts:12-27 | no day appears at two positions of the grid |
| Calendar.FourWeekFebruary | lib/dateUtils.ts:8-27 | a 28-day month that starts on a Sunday gives exactly 4 weeks and no padding |
| Calendar.February2015 | lib/dateUtils.ts:8-27 | February 2015 is such a month: not a leap year, starts on a Sunday, 4 weeks |
| Calendar.FlushWeek | lib/dateUtils.ts:18-21 | flushing a full week into the result keeps the weeks still to come unchanged |
| Calendar.ChunkIntoWeeks | lib/dateUtils.ts:14-29 | the forEach loop that flushes a full week before pushing, then flushes the remainder, computes exactly the chunking of its input |
| Calendar.GetWeeksInMonth | lib/dateUtils.ts:3-30 | the result depends only on the year and month of the date; it has 4 to 6 weeks of 7 days starting on Sunday; the date itself appears in it |
| Records.NewHabit | models/Habit.ts:13-21 | creation succeeds exactly when a non-empty name is given; each absent field takes its default ('📝', 'neon-blue', '', 0, 0, the creation time); given fields are kept |
| Records.ApplyFields | app/api/habits/route.ts:31-35 | every field present in the update overwrites the stored one, absent ones are kept, and the id never changes |
| Records.RecordOf | models/HabitLog.ts:20 | a stored document read back as a record carries the key it is stored under |
| Records.ParseCategory | models/TimerLog.ts:4-11 | exactly the strings "Study", "Food" and "Other" pass the enum check |
| Records.CategoryName | app/timer/page.tsx:17-21 | the name the page sends for a category passes the enum check as that category |
| Records.NewTimerLog | models/TimerLog.ts:10-15 | a session is created exactly when category, startTime, endTime and duration are all given and the category is in the enum; it carries them unchanged |
| Sorting.SortBy | app/api/habits/route.ts:8 | the sort returns a permutation of its input, ordered by the key |
| Sorting.InsertSorted | app/api/habits/route.ts:8 | inserting one element into a list ordered by the key keeps it ordered |
| Ledger.Upsert | app/api/logs/route.ts:38-42 | the key is added if new; an existing record keeps its id, takes the posted `completed` and `value` when given and keeps the others; a new record takes `completed` false when none is given; all other keys are untouched |
| Ledger.UpsertIdempotent | app/api/logs/route.ts:38-42 | repeating an identical POST changes nothing |
| Ledger.PostsConverge | app/api/logs/route.ts:38-42 | after any non-empty sequence of POSTs to one key, exactly that key is added, its `completed` is the last value posted, and other keys are unchanged |
| Ledger.WithoutHabit | app/api/habits/route.ts:52-53 | the cascade keeps exactly the logs of other habits, unchanged |
| Ledger.CascadeLeavesNoLog | app/api/habits/route.ts:50-53 | after a delete no record of that habit is stored, so no range query returns one; the records of other habits remain |
| Ledger.SameDayDifferentInstants | app/api/logs/route.ts:33-35 | two POSTs at two instants of one day make two distinct records |
| Ledger.Database.GetLogs | app/api/logs/route.ts:6-25 | a missing startDate or endDate gives 400 and performs no query; an unparseable one gives 500; otherwise it returns each stored log dated between the two instants, both ends inclusive, once |
| Ledger.Database.GetHabits | app/api/habits/route.ts:5-13 | every stored habit once, ordered by `order` ascending |
| Ledger.Database.PostHabit | app/api/habits/route.ts:15-25 | a valid body adds one habit built by the schema and answers it; otherwise 500 and nothing changes |
| Ledger.Database.PutHabit | app/api/habits/route.ts:27-40 | without `_id`, 400 and nothing changes; for an unknown id, null; otherwise the body's fields are applied to that habit alone and the updated habit is answered |
| Ledger.Database.DeleteHabit | app/api/habits/route.ts:42-59 | without `id`, 400 and nothing changes; otherwise the habit and every log of it are removed |
| Ledger.Database.PostLog | app/api/logs/route.ts:27-49 | a body without habitId or with an unparseable date gives 500; otherwise the upsert under (habitId, new Date(date)) and the stored record as the answer |
| LogView.FindIndex | components/Dashboard.tsx:91 | the result is the first position holding a log of that habit on that day, or -1 when there is none |
| LogView.ActiveLogs | components/Dashboard.tsx:144-146 | keeps exactly the logs whose habitId equals the `_id` of an element of the habit list, an absent id matching an absent id, so error bodies are kept exactly when the list holds an error entry |
| LogView.ErrorBodyMatchesErrorEntry | components/Dashboard.tsx:145 | an error body is kept by the filter when the habit list holds an error entry, and dropped when the list is empty |
| LogView.ActiveLogsAppend | components/Dashboard.tsx:144-146 | the filter preserves order: filtering a concatenation concatenates the filtered parts |
| LogView.RoundedRateBounds | components/Dashboard.tsx:150 | the rate is the percentage rounded half up, lies in 0..100 when completed is at most possible, and exceeds 100 when completed is 1.005 times possible or more |
| LogView.MonthlyStats | components/Dashboard.tsx:148-150 | possible is habits times days in month; completed counts the completed active logs; the rate is the rounded percentage; with no habits all three are 0 |
| LogView.MonthlyRateCanExceed100 | components/Dashboard.tsx:71-75 | a month with padding days and one habit done on every loaded day reports more completions than possible and a rate above 100 |
| LogView.HabitsDoneOn | components/Dashboard.tsx:163-167 | at most one completion is counted per habit on a day |
| LogView.WeekCompleted | components/Dashboard.tsx:160-168 | a week's completed count is at most habits times days |
| LogView.WeekStatOf | components/Dashboard.tsx:157-177 | weekIndex is position+1, possible is habits times week length, 0 <= completed <= possible and the rate lies in 0..100 |
| LogView.WeeklyStats | components/Dashboard.tsx:155-179 | the nested loops produce one entry per week, each equal to that week's specified figures |
| LogView.FirstCompletedShowsInGrid | components/WeeklyGrid.tsx:62 | what the weekly figures count as done for a habit and a day always shows as ticked in the grid |
| LogView.GridAgreesWithStatsWhenUnique | components/WeeklyGrid.tsx:62 | when a habit has at most one log on a day, the grid's `some` and the figures' `find` agree |
| LogView.GridAndStatsCanDisagree | components/WeeklyGrid.tsx:62 | with two logs of one habit on one day, the first not completed, the grid shows a tick that the weekly figures do not count |
| LogView.DayCount | components/WeeklyGrid.tsx:93 | the per-day count never exceeds the number of logs held |
| LogView.DayPercent | components/WeeklyGrid.tsx:106-107 | the per-day percentage is the count over the habit count, rounded half up, and 0 with no habits |
| LogView.DayPercentCanExceed100 | components/WeeklyGrid.tsx:106-107 | logs of a deleted habit still count, so one habit can show 200% on a day |
| LogView.PaddingOnlyInEdgeWeeks | components/WeeklyGrid.tsx:46 | a dimmed (padding) day is in the first week and before the 1st, or in the last week and after the month's last day |
| LogView.HeaderLettersMatchDays | components/WeeklyGrid.tsx:44-45 | the j-th header letter is the letter of the weekday of the j-th day of every week |
| LogView.CellToggleTarget | components/WeeklyGrid.tsx:66 | a click toggles exactly that habit's id at an instant falling on that day |
| LogView.ChartData | components/StatsChart.tsx:16-38 | one point per day of the month, first to last, no padding days; dateStr is the day-of-month number; completed is that day's count of completed logs |
| LogView.ChartSumsMonth | components/StatsChart.tsx:17-35 | summed over the month, the points equal the number of completed logs dated inside the month |
| LogView.YAxisMax | components/StatsChart.tsx:70 | the Y-axis upper bound is the habit count when positive, else 5 |
| HabitDashboard.GridInstants | components/Dashboard.tsx:71-73 | the logs request covers exactly the instants on the days of the padded grid |
| HabitDashboard.Speculative | components/Dashboard.tsx:90-102 | with a matching log, only that entry's `completed` flips and the length stays; otherwise one 'temp' log is appended; either way what the weekly figures read for that habit and day flips |
| HabitDashboard.SpeculativeTwice | components/Dashboard.tsx:91-93 | toggling twice shows the original value again, and restores the logs exactly when a log already existed |
| HabitDashboard.Reconciled | components/Dashboard.tsx:109-111 | every log of that habit on that day becomes the answer; all other logs are unchanged |
| HabitDashboard.ReconcileWithRecord | components/Dashboard.tsx:109-111 | a returned record for the same habit and day takes the first match's place, so the figures read the record's `completed` |
| HabitDashboard.ReconcileWithError | components/Dashboard.tsx:109-115 | an error body returned instead replaces every log of that habit on that day, so the cell shows not done and no resync happens |
| HabitDashboard.LogAnswer | components/Dashboard.tsx:109 | the record becomes a log entry and any error reply becomes an error body |
| HabitDashboard.HabitAnswer | components/Dashboard.tsx:134 | the created habit becomes a habit entry and any error reply becomes an error entry |
| HabitDashboard.ReplaceById | components/Dashboard.tsx:39 | each entry whose `_id` equals the answer's becomes the answer, in place; the others are unchanged |
| HabitDashboard.WithoutId | components/Dashboard.tsx:53 | removes exactly the entries with that `_id` |
| HabitDashboard.ReplaceKeepsMirror | components/Dashboard.tsx:39 | after an edit applied on both sides, the client's habits still match the store |
| HabitDashboard.FilterKeepsMirror | components/Dashboard.tsx:53 | after a delete on both sides, the client's habits still match the store |
| HabitDashboard.AppendKeepsMirror | components/Dashboard.tsx:135 | after a create on both sides, the client's habits still match the store |
| HabitDashboard.FailedCreateGrowsPossible | components/Dashboard.tsx:134-135 | an error entry appended by a failed create raises the monthly possible figure by the days in the month and leaves completed unchanged; from then on every error body the client holds is an active log |
| HabitDashboard.DeletedHabitLeavesStats | components/Dashboard.tsx:53 | after a delete, no log carrying that habit's id is active, although the client still holds them |
| HabitDashboard.GridCellMatchesStore | components/Dashboard.tsx:62-75 | after a full reload, a cell inside the padded grid is ticked exactly when the store holds a completed log of that habit on that day |
| HabitDashboard.NewHabitRequest | components/Dashboard.tsx:124-132 | the create body carries the name as typed (untrimmed) and the description or '' |
| HabitDashboard.CreatedFromRequest | components/Dashboard.tsx:124-132 | the store creates from it the typed name and description, the '⚡' icon, 'neon-blue', goal and order 0 and the creation time |
| HabitDashboard.AllFields | components/Dashboard.tsx:33-36 | applying the whole edited habit as an update yields exactly the edited habit |
| HabitDashboard.Dashboard.constructor | components/Dashboard.tsx:14-16 | the page starts on today's date with no habits and no logs |
| HabitDashboard.Dashboard.FetchData | components/Dashboard.tsx:62-82 | a throw on the habits request changes nothing; otherwise the habits become the store's habits in `order` order; a throw on the logs request keeps the old logs; otherwise the logs become the store's logs of the padded grid |
| HabitDashboard.Dashboard.Toggle | components/Dashboard.tsx:88-117 | the optimistic flip, then the store upserts the new value at the day's midnight and the answer replaces that day's logs, so the client shows the flipped value and agrees with the store; when the write throws, the store is unchanged and the page reloads |
| HabitDashboard.Dashboard.UpdateHabit | components/Dashboard.tsx:30-45 | nothing without an edited habit or when the request throws; a null answer (unknown id) commits no change to the list, and the page crashes exactly when the list is non-empty, because the throw happens in the state updater outside the `try`; otherwise the store and the client's list both hold the edited habit, and they stay in step |
| HabitDashboard.Dashboard.DeleteHabit | components/Dashboard.tsx:47-59 | nothing without an id, confirmation or a response; otherwise the store deletes the habit and its logs, the client's list drops it, and the client's logs are kept |
| HabitDashboard.Dashboard.CreateHabit | components/Dashboard.tsx:119-141 | nothing for a blank name or a thrown request; otherwise exactly one entry is appended: the stored habit, or the error body when the store refuses |
| HabitDashboard.Dashboard.ShiftMonth | components/Dashboard.tsx:244-245 | the date moves one month (clamped) and the page reloads for the new month |
| HabitDashboard.Dashboard.ShowToday | components/Dashboard.tsx:243 | the date returns to today and the page reloads |
| TimerStore.SelectFilter | app/api/timer/route.ts:31-46 | 'today' selects exactly the sessions started on the day of now; 'week' and 'month' those started at most 7 or 30 days before now; anything else or no value selects all |
| TimerStore.Selected | app/api/timer/route.ts:48 | keeps exactly the sessions the filter matches |
| TimerStore.TimerCollection.Post | app/api/timer/route.ts:6-23 | a valid body appends exactly one session with its fields (201); an invalid one answers 500 and appends nothing |
| TimerStore.TimerCollection.Get | app/api/timer/route.ts:25-53 | the selected sessions, each as often as stored, ordered by startTime newest first |
| Timer.DecimalValue | app/timer/page.tsx:69 | `toString` writes only digits, at most two below 100, and reads back as the number |
| Timer.Pad2 | app/timer/page.tsx:69 | padStart(2, '0') keeps strings of two or more characters and left-fills shorter ones with '0' to length 2 |
| Timer.ClockOf | app/timer/page.tsx:65-68 | minutes and seconds lie in 0..59, hours are not wrapped, and hours·3600 + minutes·60 + seconds = ms div 1000 |
| Timer.PaddedValue | app/timer/page.tsx:69 | a padded field has at least two digits, exactly two below 100, and reads back as its number |
| Timer.FormatRoundTrip | app/timer/page.tsx:65-70 | the display reads back as the clock it shows: hour digits, ':', two minute digits, ':', two second digits |
| Timer.FormatExamples | app/timer/page.tsx:65-70 | 0 ms shows 00:00:00 and 3 723 999 ms shows 01:02:03 (the 999 ms are dropped) |
| Timer.FormatHundredHours | app/timer/page.tsx:65-70 | 100 hours shows 100:00:00: hours are not wrapped at a day and take three digits |
| Timer.CategoriesPartitionDay | app/timer/page.tsx:122-127 | the three per-category sums of a day add up to the day's total |
| Timer.DailySlices | app/timer/page.tsx:118-138 | at most three slices, in the order Study, Food, Other; each has a positive value, which is the category's sum for today plus the elapsed time when it is the running category; a category appears exactly when that total is positive |
| Timer.PositiveMembers | app/timer/page.tsx:134-137 | the filter keeps exactly the entries with a positive value |
| Timer.PositiveKeepsOrder | app/timer/page.tsx:134-137 | entries the filter keeps stay in their input order |
| Timer.SlicesShape | app/timer/page.tsx:134-137 | the three sums give at most three slices, in the order Study, Food, Other; a category has a slice exactly when its sum is positive, and the slice carries that sum |
| Timer.TallyOf | app/timer/page.tsx:146-152 | a day's three category sums add up to that day's total |
| Timer.TimerPage.constructor | app/timer/page.tsx:25-28 | the page starts idle with no sessions and 0 elapsed |
| Timer.TimerPage.FetchLogs | app/timer/page.tsx:32-45 | a listed answer becomes the last 30 days' sessions, newest first; a non-array answer empties the list; a throw keeps it |
| Timer.TimerPage.Tick | app/timer/page.tsx:53-58 | while a session runs, elapsed becomes the time since it started |
| Timer.TimerPage.StopTimer | app/timer/page.tsx:73-99 | nothing when idle; otherwise one session with duration = end - start is saved unless the request threw, and the page is idle with 0 elapsed either way; the list is then kept (the POST or the reload threw), emptied (a non-array answer) or reloaded with the last 30 days' sessions, newest first |
| Timer.TimerPage.StartTimer | app/timer/page.tsx:101-115 | on the running category it only stops it; otherwise it stops and saves any running session, then runs the new category from now with 0 elapsed; the session list after a stop is kept, emptied or reloaded newest first, as in StopTimer |
| Timer.TimerPage.DailySummary | app/timer/page.tsx:118-138 | the accumulation loop computes exactly the daily slices |
| Timer.TimerPage.DaySeries | app/timer/page.tsx:141-184 | n tallies, oldest first, entry k being the day n-1-k days before today; the running session is left out |
| Timer.TodayAgrees | app/timer/page.tsx:118-161 | with no session running, the daily slices carry the same sums as today's weekly tally |

## Left out

- HabitDashboard.Dashboard.UpdateHabit: the page crash after a null answer
  is recorded only as the `crashed` flag. The unmounted tree, the error
  overlay and the modals closing are not modelled, and the other operations
  do not consult the flag, since a crashed page takes no further input.
- Rendering, styling, animation and the chart widgets are left out. The edit
  modal, the `confirm` dialog and the summary cards are also left out. The
  confirmation is a parameter of `HabitDashboard.Dashboard.DeleteHabit`.
- The `loading` flag and the form fields `newHabitName` and
  `newHabitDescription` are left out. The name and description arrive as
  parameters, and the form reset after a create is not modelled.
- fetch, the database connection and the JSON encoding are parameters, not
  code:
  - a request either throws, or reaches the store and returns its answer;
  - a request that reaches the store and then fails on the way back is not
    modelled;
  - store failures such as a lost connection are not modelled, so the
    "Failed to fetch" and "Failed to update habit" replies are left out;
  - a malformed ObjectId is not checked; ids are plain strings.
- Only these store failures are modelled:
  - a POST of a log without habitId, or with an unparseable date, is
    rejected (500);
  - a duplicate new habit id is rejected (500).
- Ledger.Upsert: assumes the document mapper drops undefined fields, so a
  POST without `value` keeps the stored value. The behaviour of other
  mapper settings is not modelled.
- The ids the database assigns are a parameter (`newId`). Timer sessions
  carry no id. The `createdAt`/`updatedAt` timestamps of logs are not
  modelled.
- Time zones, daylight saving time and the UTC conversion of `toISOString`
  are left out. Instants are local milliseconds, so `subDays(now, n)` is
  exactly n days of milliseconds earlier.
- Timer.TimerPage.StartTimer: uses one clock reading for both the stop of
  the old session and the start of the new one. In the source, time passes during the requests in between.
- The `setInterval` timer that calls the tick every second is left out, and
  so is the interleaving of concurrent requests through `setLogs(prev => …)`.
  `Timer.TimerPage.Tick` models one tick. Each handler runs to completion
  before the next begins.
- Hour conversions, `toFixed(1)` and the chart labels (`format(date, 'EEE')`,
  `'MMM d'`) are left out. Sums stay in integer milliseconds, and each tally
  carries its day instead of a label.
- LogView.RoundedRate: computes the rates of `MonthlyStats`, `WeekStatOf`
  and `DayPercent` over the exact quotient, while the source rounds the
  floating-point product `(c / p) * 100`. At an exact half that product can
  fall just below .5: 69 of 120 gives 57.49999999999999, shown as 57 where
  the model gives 58.
- LogView.RoundedRateBounds: its third clause (above 100 from 1.005 times
  the possible count) holds for the exact quotient only; in floating point
  201 of 200 gives 100.49999999999999 and the source shows 100.
- LogView.IsFor: assumes, like `LogView.OnDay` and `LogView.Done`, that
  `parseISO` of the missing `date` of an error body is an Invalid Date that
  falls on no day, as date-fns 2 does. A date-fns version whose `parseISO`
  throws on `undefined` would make the grid's count row throw once an error
  body is held; that is not modelled.
- Timer.FormatDuration: defined for non-negative milliseconds only. The
  page passes `elapsed`, which is not negative unless the clock goes
  backwards.
- The `summary[l.category] !== undefined` check in the daily summary is
  always true here: the category enum admits only Study, Food and Other.
- In the dashboard, a habits request that answers a non-array value is not
  modelled, because the store's GET always answers a list here.
- A grid row drawn for an error entry in the habit list is not modelled, and
  neither is clicking it.
- The week column colours (`weekConfig[weekIndex % 5]`) are left out.
- app/goals/page.tsx, app/layout.tsx, app/page.tsx and lib/types.ts are not
  part of this model.
