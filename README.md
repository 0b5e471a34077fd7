# HabitHub habit tracker: a Dafny model of its store, request layer and jobs

HabitHub lets a user keep a list of habits, mark a habit done for the day,
and get a weekly completion score. Its behaviour is whatever its Python
functions do to three tables:

- `habits`: one row per habit, keyed by its `habit_id`.
- `habit_logs`: log rows of habits by date, each with a `completed` flag.
  Nothing in the store keeps a single log per habit and date.
- `weekly_performance`: score rows of users by week start. Every weekly run
  inserts a new row without looking for an existing one, so nothing keeps a
  single row per user and week.

This project models those tables as an in-memory store and proves what each
operation does to them.

- `calendar.dfy` (module `Calendar`): dates are day numbers, as Python's
  `date.toordinal()`, where day 1 is Monday 0001-01-01. `Weekday` is
  `date.weekday()`: Monday is 0 and Sunday is 6. The week start is the Monday
  of the current week. The window runs from the week start to six days later,
  both ends included. ISO date strings compare in calendar order, so the
  store's date filters become integer comparisons.
- `text.dfy` (module `Text`): `str.strip()` over Python's Unicode whitespace.
- `tables.dfy` (module `Tables`): the row types, the store's reads as pure
  functions over rows in table order, the effect of `mark_habit_completed` on
  `habit_logs`, and the weekly completion percentage with its bounds.
- `db.dfy` (module `Db`): class `Database`. Its fields are the three tables
  plus the id the store will give the next log row. Its methods are the write
  operations of `src/db.py`.
- `logic.dfy` (module `Logic`): the guard-and-delegate functions of
  `src/logic.py`. Their error replies are the datatype `Error`, and `Message`
  gives each reply's exact text.
- `api.dfy` (module `Api`): the scheduled jobs `daily_task` and `weekly_task`
  of `api/main.py`. Each is modelled as one sequential run.

The model rests on these assumptions about the store, which the code relies
on but does not contain:

- An insert that leaves out `date` gets the current day. This covers
  `mark_habit_completed` and `daily_task`. The methods take the current day as
  a parameter.
- The store generates log ids in increasing order (`nextLogId`). So
  `update ... where id = log_id` changes exactly one row
  (`Tables.UpdateByIdTouchesOneRow`).
- The store generates `habit_id`, so no two habit rows share one.
  `CreateHabit` receives it as a parameter that is not yet in use.
- `habit_logs.habit_id` is a foreign key to `habits`. That key carries the
  `ON DELETE CASCADE`, so deleting a habit deletes its logs with it. The store
  refuses a log for a `habit_id` that has no habit row. `Database.Valid()`
  holds both facts: unique habit ids, and every log belonging to a habit.
- A select returns rows in insertion order. So "the first existing log" is
  the earliest one.
- The users tables are parameters. These are `auth.users` for the weekly
  batch and `users` for the scheduled jobs.

The code and the design description disagree in places. The model follows
the code:

- At most one log per habit and date is not enforced by the store. The model
  states this as the predicate `OneLogPerDay` and proves that
  `mark_habit_completed`, `delete_habit` and `daily_task` each keep it.
- Marking a habit done does not check who owns the habit.
- There is no star formula in the code. A database trigger sets the stars.
- Several calls in `src/logic.py` do not match the functions they call.
  `create_habit` gets 3 arguments but takes 2. `get_habits` and
  `get_weekly_performance` get an argument but take none. The model gives
  each the intended meaning: the acting user is an explicit parameter.

## Model

| member | source | states |
|---|---|---|
| Calendar.Weekday | src/db.py:105 | the weekday of a date is always in 0..6 |
| Calendar.WeekStart | src/db.py:108 | `today - today.weekday()` is a Monday, and today lies in its 7-day window |
| Calendar.WeekEnd | src/db.py:70 | the window's last day is six days after its start, so a window that starts on a Monday ends on a Sunday |
| Calendar.InWeekIsCalendarWeek | src/db.py:81-82 | from a Monday, the `gte`/`lte` date filter selects exactly the days whose week starts on that Monday, and each of the seven has its own weekday from Monday to Sunday |
| Calendar.NextWeekday | src/db.py:105 | consecutive days have consecutive weekdays, and Sunday is followed by Monday |
| Calendar.SundayWeekStart | src/db.py:105-108 | on a Sunday the week start is six days earlier, and that day is a Monday |
| Calendar.WeekStartUnique | src/db.py:108 | the Monday week start is the only Monday whose window holds the date |
| Text.Strip | src/logic.py:6-8 | `strip()` leaves no whitespace at either end, is no longer than its input, and is empty exactly when the input is all whitespace |
| Text.StripFrame | src/logic.py:8 | every string is whitespace + its stripped form + whitespace |
| Text.StripOfFramed | src/logic.py:8 | a string with no whitespace at its ends, framed by whitespace, strips back to itself, so `strip()` removes exactly the outer whitespace |
| Text.StripIdempotent | src/logic.py:8 | stripping twice gives the same result as stripping once |
| Tables.FilterCounts | src/db.py:38-40 | a select by a column value returns each matching row exactly as many times as the table holds it, and no other row |
| Tables.HabitsOf | src/db.py:38-40 | selecting a user's habits returns exactly the habit rows whose `user_id` is that user |
| Tables.HabitIdsOf | src/db.py:76-77 | the id list has one entry per habit row of the user, holds the id of each of those rows, and holds no other id |
| Tables.HabitsWithout | src/db.py:63 | deleting by `habit_id` keeps exactly the habit rows with a different id |
| Tables.FindLog | src/db.py:45-52 | the lookup returns the first log for (habit, today), or none exactly when no such log exists |
| Tables.WithCompletedId | src/db.py:53 | the update by id changes no column but `completed`, and sets it on exactly the rows with that id |
| Tables.UpdateByIdTouchesOneRow | src/db.py:52-53 | when log ids are unique, updating by the first match's id sets `completed` on that row and on no other row |
| Tables.MarkedCompleted | src/db.py:42-58 | marking adds no row when a log for (habit, today) exists and one row otherwise; afterwards the first log for (habit, today) is completed |
| Tables.MarkTwice | src/db.py:51-58 | a second mark of the same habit on the same day takes the update branch and changes nothing |
| Tables.MarkKeepsOneLogPerDay | src/db.py:45-58 | marking never creates a second log for the same (habit, date) |
| Tables.LogsWithout | src/db.py:59-62 | the cascade keeps exactly the logs of other habits, so the deleted habit has no log on any date |
| Tables.FilterKeepsIdsIncreasing | src/db.py:59-62 | deleting logs keeps the log ids unique and increasing |
| Tables.FilterKeepsOneLogPerDay | src/db.py:59-62 | deleting logs keeps at most one log per (habit, date) |
| Tables.FilterKeepsHabitIdsUnique | src/db.py:63 | deleting habit rows keeps the habit ids unique |
| Tables.DeleteKeepsReferences | src/db.py:59-63 | after deleting a habit and its logs, every remaining log still belongs to a remaining habit |
| Tables.MarkKeepsReferences | src/db.py:51-58 | marking a habit that exists keeps every log attached to a habit |
| Tables.WeeklyRowsOf | src/db.py:140-142 | a user's weekly rows are exactly the `weekly_performance` rows with that `user_id` |
| Tables.CountedLogs | src/db.py:79-84 | the counted logs are exactly the completed logs of the user's habits dated within the week window, both ends included |
| Tables.CompletionPct | src/db.py:70-87 | the weekly percentage is never negative, and it is positive only if some completed log is dated within the window |
| Tables.NoHabitsScoreZero | src/db.py:72-74 | a user who owns no habit scores 0 |
| Tables.UncompletedLogsDoNotCount | src/db.py:83 | adding logs that are not completed never changes any score |
| Tables.PctAtMost100 | src/db.py:76-87 | the score is at most 100 whenever there is at most one completed log per (habit, date); duplicates that are not completed are allowed |
| Tables.DuplicateCompletionsExceed100 | src/db.py:80-87 | without that condition the bound fails: one habit completed eight times on one day scores 800/7, above 100 |
| Tables.CountedBound | src/db.py:77-86 | logs with distinct (habit, date) pairs, all within one window and all of listed habits, number at most 7 times the habit count |
| Db.Database.CreateHabit | src/db.py:30-36 | appends exactly one habit row, with a key not yet in use and the given user, name and description; leaves the other tables unchanged |
| Db.Database.InsertLog | api/main.py:70-74 | appends exactly one log row dated today with the next id, and leaves the other tables unchanged |
| Db.Database.MarkHabitCompleted | src/db.py:42-58 | if a log exists, sets `completed` on the first one and leaves every other row unchanged. Otherwise it appends one completed log with no `user_id`. For a habit id with no habit row the store refuses that insert: the result is none and nothing changes. It never writes `habits` or `weekly_performance` |
| Db.Database.DeleteHabit | src/db.py:59-63 | removes every habit row and, by the cascade, every log with that id; other rows and `weekly_performance` are unchanged |
| Db.Database.CreateWeeklyPerformanceForUser | src/db.py:68-94 | appends exactly one row with the given user, week start and score, and leaves `habits` and `habit_logs` unchanged |
| Db.Database.GenerateWeeklyReportsForAllUsers | src/db.py:99-120 | returns None and writes nothing except on a Sunday with at least one user; then appends one row per user, in user order, with week start `today - 6`, and returns those rows |
| Logic.CheckHabitName | src/logic.py:6-8 | refuses a missing, empty or all-whitespace name with the "cannot be empty" error; otherwise passes on the stripped name, which is non-empty and has no whitespace at either end |
| Logic.CheckHabitId | src/logic.py:17-18 | refuses exactly the empty id, with "Habit ID is required"; any other id passes unchanged |
| Logic.CheckSunday | src/logic.py:38-41 | refuses exactly the days that are not Sundays; on a Sunday passes on that Sunday itself as the week start |
| Logic.CheckSundayWeek | src/logic.py:38-41 | the corrected guard: same refusals; on a Sunday passes on the Monday six days earlier |
| Logic.Message | src/logic.py:7-40 | each `{"error": ...}` reply has a non-empty text |
| Logic.MessagesDistinct | src/logic.py:7-40 | two errors have the same reply text exactly when they are the same error |
| Logic.AddNewHabit | src/logic.py:5-8 | a blank name gives the error and writes nothing; any other name inserts one habit with the name stripped |
| Logic.ListUserHabits | src/logic.py:11-13 | returns exactly the user's habit rows, so `[]` when the user has none, and writes nothing |
| Logic.CompleteHabit | src/logic.py:16-19 | an empty id gives the error and touches no table. An unknown habit id raises the store's refusal and touches no table. Any other id is marked: it returns the first log for today, now completed, or else the new completed log with the next id |
| Logic.RemoveHabit | src/logic.py:22-25 | an empty id gives the error and touches no table; any other id is passed unchanged to the cascade delete |
| Logic.GetMyWeeklyPerformance | src/logic.py:32-34 | returns exactly the user's weekly rows, `[]` when there are none, and writes nothing |
| Logic.GenerateWeeklyPerformance | src/logic.py:37-41 | off Sunday returns the Sunday-only error and writes nothing; on Sunday appends one row whose week start is that Sunday |
| Logic.GenerateWeeklyPerformanceForWeek | src/logic.py:37-41 | the corrected operation: on Sunday appends one row scored over the week from Monday to today |
| Logic.SundayWindows | src/logic.py:41 | on a Sunday the as-written window holds no earlier day of that week; the corrected window is exactly Monday through today |
| Logic.SundayStartMissesTheWeek | src/logic.py:41 | one habit completed every day from Monday to Sunday scores 100/7 under the as-written window and 100 under the Monday window |
| Api.LogHabit | api/main.py:66-74 | one step of the inner loop: afterwards the habit has a log for today, a row was appended only if it had none, and all earlier facts still hold |
| Api.LogUserHabits | api/main.py:64-74 | after the inner loop for one user, each of that user's habits has a log for today, and rows were only appended |
| Api.DailyTask | api/main.py:56-74 | only appends rows. Each new row is an uncompleted log dated today for a listed user's habit, and the first log of that habit for today. Afterwards every habit of every listed user has a log for today. A run after an earlier complete run inserts nothing. At most one log per (habit, date) is kept |
| Api.DailyTaskKeepsScores | api/main.py:70-74 | the rows the daily job inserts leave every user's weekly score unchanged |
| Api.DailyTaskKeepsOneLogPerDay | api/main.py:66-74 | inserting only when no log exists for (habit, today) never creates a second log for the same (habit, date) |
| Api.WeeklyTask | api/main.py:76-84 | off Sunday reads nothing; on Sunday reads each listed user's weekly rows; never writes |

## Findings

| source | as written | input that shows it | evidently intended | confidence | as-written member | corrected member |
|---|---|---|---|---|---|---|
| src/logic.py:41 | passes `today`, a Sunday, as `week_start`, so the scored window is that Sunday and the six days after it | one habit completed every day from Monday to Sunday, run on that Sunday: scores 100/7 (about 14.3) instead of 100 | week start is the Monday of the current week, as in src/db.py:108 | medium, not executed | Logic.GenerateWeeklyPerformance (shown by Logic.SundayStartMissesTheWeek) | Logic.GenerateWeeklyPerformanceForWeek |

## Left out

- `Frontend/app.py`: the browser UI, its session state and its HTTP calls. The colour bucket for the completion percentage is presentation only.
- Supabase client setup, `.env` loading and `get_current_user_id`. The acting user is an explicit parameter of every operation.
- `get_today_status` (src/logic.py:28-29): it calls `db.end_of_day_status`, which does not exist. It is not modelled.
- `trigger_weekly_report_edge_function`: an outbound HTTP POST.
- `get_habits_with_logs`: a plain join read that no modelled operation uses.
- The FastAPI route handlers and pydantic models. Each route is a one-line delegation to a `Logic` operation. The routes that pass `user_id = None` are modelled with an explicit user.
- APScheduler wiring and cron timing. A race between the scheduler thread and request handlers is not modelled; each job is one sequential run.
- The star rating: a database trigger sets it, and its formula is not in the code.
- Float rounding of `completion_pct`: the score is a Dafny `real`. The no-habit score is the Python integer `0`, modelled as `0.0`.
- Store errors other than the refused log insert of `mark_habit_completed` are not modelled: a failing `execute()`, such as a network error, never happens in the model. Every read returns rows, so the empty or missing responses of `list_user_habits` and `get_my_weekly_performance` are the empty list.
- Supabase response objects: the methods return the rows they insert or update.
- `daily_task` reads `date.today()` once per user. The model uses one `today` for the whole run, so a run that crosses midnight is not modelled.
- Api.WeeklyTask: the source throws away what it reads. The model returns it, so the contract can say what is read.
- Dates are unbounded integers. Python's date range (years 1 to 9999) is not enforced.
