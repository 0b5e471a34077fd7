/** The request layer of `src/logic.py`: each operation checks its input and
    hands the rest to one store operation. Every operation takes the acting
    user explicitly. */
module Logic {
  import opened Calendar
  import opened Text
  import opened Tables
  import opened Db

  datatype Error = EmptyHabitName | HabitIdRequired | NotSunday

  /** What an operation hands back: the store's answer, an `{"error": ...}`
      reply, or the exception a refused store write raises to the caller. */
  datatype Result<T> = Ok(value: T) | Err(error: Error) | Raised

  /** The text of the `{"error": ...}` reply for each error. */
  function Message(e: Error): (r: string)
    ensures r != []
  {
    match e
    case EmptyHabitName => "Habit name cannot be empty"
    case HabitIdRequired => "Habit ID is required"
    case NotSunday => "Weekly performance can only be generated on Sundays."
  }

  /** Each error has a reply text of its own, so a client can tell them apart. */
  lemma MessagesDistinct(e: Error, e': Error)
    ensures Message(e) == Message(e') <==> e == e'
  {
  }

  /** The guard of `add_new_habit`: a missing, empty or all-whitespace name is
      refused; any other name goes on stripped. */
  function CheckHabitName(name: Option<string>): (r: Result<string>)
    ensures r.Err? <==> name.None? || AllSpace(name.value)
    ensures r.Err? ==> r.error == EmptyHabitName
    ensures r.Ok? ==> r.value != [] && Trimmed(r.value) && r.value == Strip(name.value)
  {
    if name.None? || Strip(name.value) == [] then Err(EmptyHabitName)
    else Ok(Strip(name.value))
  }

  /** The guard of `complete_habit` and `remove_habit`: an empty id is refused,
      any other passes unchanged. */
  function CheckHabitId(habitId: string): (r: Result<HabitId>)
    ensures r.Err? <==> habitId == []
    ensures r.Err? ==> r.error == HabitIdRequired
    ensures r.Ok? ==> r.value == habitId
  {
    if habitId == [] then Err(HabitIdRequired) else Ok(habitId)
  }

  /** The guard of `generate_weekly_performance` as written: only on a Sunday,
      and then `today` itself is the week start it passes on. */
  function CheckSunday(today: Day): (r: Result<Day>)
    ensures r.Err? <==> !IsSunday(today)
    ensures r.Err? ==> r.error == NotSunday
    ensures r.Ok? ==> r.value == today && Weekday(r.value) == 6
  {
    if Weekday(today) != 6 then Err(NotSunday) else Ok(today)
  }

  /** The guard with the Monday week start the weekly batch of the store uses. */
  function CheckSundayWeek(today: Day): (r: Result<Day>)
    ensures r.Err? <==> !IsSunday(today)
    ensures r.Err? ==> r.error == NotSunday
    ensures r.Ok? ==> Weekday(r.value) == 0 && r.value + 6 == today
  {
    if Weekday(today) != 6 then Err(NotSunday) else Ok(WeekStart(today))
  }

  /** `add_new_habit`. */
  method AddNewHabit(db: Database, userId: UserId, name: Option<string>, description: Option<string>, habitId: HabitId)
    returns (r: Result<HabitRow>)
    requires db.Valid()
    requires forall h :: h in db.habits ==> h.habitId != habitId
    modifies db
    ensures db.Valid()
    ensures db.logs == old(db.logs) && db.weekly == old(db.weekly) && db.nextLogId == old(db.nextLogId)
    ensures CheckHabitName(name).Err? ==> r == Err(EmptyHabitName) && db.habits == old(db.habits)
    ensures CheckHabitName(name).Ok? ==>
      && r == Ok(HabitRow(habitId, userId, Strip(name.value), description))
      && db.habits == old(db.habits) + [r.value]
  {
    var checked := CheckHabitName(name);
    if checked.Err? {
      return Err(checked.error);
    }
    var row := db.CreateHabit(userId, checked.value, description, habitId);
    r := Ok(row);
  }

  /** `list_user_habits`: the user's habit rows, `[]` when there are none. */
  function ListUserHabits(db: Database, userId: UserId): (r: seq<HabitRow>)
    reads db
    ensures forall h :: h in r <==> h in db.habits && h.userId == userId
  {
    HabitsOf(db.habits, userId)
  }

  /** `complete_habit`: the store's refusal of a log for an unknown habit
      propagates as `Raised`. */
  method CompleteHabit(db: Database, habitId: string, today: Day) returns (r: Result<LogRow>)
    requires db.Valid()
    modifies db
    ensures db.Valid()
    ensures db.habits == old(db.habits) && db.weekly == old(db.weekly)
    ensures habitId == [] ==> r == Err(HabitIdRequired) && db.logs == old(db.logs) && db.nextLogId == old(db.nextLogId)
    ensures habitId != [] && !HabitExists(db.habits, habitId) ==>
      r == Raised && db.logs == old(db.logs) && db.nextLogId == old(db.nextLogId)
    ensures habitId != [] && HabitExists(db.habits, habitId) ==>
      && r.Ok?
      && db.logs == MarkedCompleted(old(db.logs), old(db.nextLogId), habitId, today)
      && match FindLog(old(db.logs), habitId, today)
         case Some(k) => r.value == db.logs[k] && r.value.completed && db.nextLogId == old(db.nextLogId)
         case None =>
           && r.value == LogRow(old(db.nextLogId), habitId, None, today, true)
           && db.nextLogId == old(db.nextLogId) + 1
  {
    var checked := CheckHabitId(habitId);
    if checked.Err? {
      return Err(checked.error);
    }
    var row := db.MarkHabitCompleted(checked.value, today);
    if row.None? {
      return Raised;
    }
    r := Ok(row.value);
  }

  /** `remove_habit`. */
  method RemoveHabit(db: Database, habitId: string) returns (r: Result<()>)
    requires db.Valid()
    modifies db
    ensures db.Valid()
    ensures db.weekly == old(db.weekly) && db.nextLogId == old(db.nextLogId)
    ensures habitId == [] ==> r == Err(HabitIdRequired) && db.habits == old(db.habits) && db.logs == old(db.logs)
    ensures habitId != [] ==>
      && r == Ok(())
      && db.habits == HabitsWithout(old(db.habits), habitId)
      && db.logs == LogsWithout(old(db.logs), habitId)
  {
    var checked := CheckHabitId(habitId);
    if checked.Err? {
      return Err(checked.error);
    }
    db.DeleteHabit(checked.value);
    r := Ok(());
  }

  /** `get_my_weekly_performance`: the user's weekly rows, `[]` when there are none. */
  function GetMyWeeklyPerformance(db: Database, userId: UserId): (r: seq<WeeklyRow>)
    reads db
    ensures forall w :: w in r <==> w in db.weekly && w.userId == userId
  {
    WeeklyRowsOf(db.weekly, userId)
  }

  /** `generate_weekly_performance` as written: on a Sunday it scores the
      window that starts on that Sunday. */
  method GenerateWeeklyPerformance(db: Database, userId: UserId, today: Day) returns (r: Result<WeeklyRow>)
    requires db.Valid()
    modifies db
    ensures db.Valid()
    ensures db.habits == old(db.habits) && db.logs == old(db.logs) && db.nextLogId == old(db.nextLogId)
    ensures !IsSunday(today) ==> r == Err(NotSunday) && db.weekly == old(db.weekly)
    ensures IsSunday(today) ==>
      && r == Ok(WeeklyRow(userId, today, CompletionPct(db.habits, db.logs, userId, today)))
      && db.weekly == old(db.weekly) + [r.value]
  {
    var checked := CheckSunday(today);
    if checked.Err? {
      return Err(checked.error);
    }
    var row := db.CreateWeeklyPerformanceForUser(userId, checked.value);
    r := Ok(row);
  }

  /** `generate_weekly_performance` with the week start corrected to the
      Monday of the current week, the window `generate_weekly_reports_for_all_users`
      scores. */
  method GenerateWeeklyPerformanceForWeek(db: Database, userId: UserId, today: Day) returns (r: Result<WeeklyRow>)
    requires db.Valid()
    modifies db
    ensures db.Valid()
    ensures db.habits == old(db.habits) && db.logs == old(db.logs) && db.nextLogId == old(db.nextLogId)
    ensures !IsSunday(today) ==> r == Err(NotSunday) && db.weekly == old(db.weekly)
    ensures IsSunday(today) ==>
      && r == Ok(WeeklyRow(userId, today - 6, CompletionPct(db.habits, db.logs, userId, today - 6)))
      && db.weekly == old(db.weekly) + [r.value]
  {
    var checked := CheckSundayWeek(today);
    if checked.Err? {
      return Err(checked.error);
    }
    var row := db.CreateWeeklyPerformanceForUser(userId, checked.value);
    r := Ok(row);
  }

  /** On a Sunday the window the as-written guard passes on holds no earlier
      day of that week, while the corrected one is exactly Monday to today. */
  lemma SundayWindows(today: Day)
    requires IsSunday(today)
    ensures CheckSunday(today).Ok? && CheckSundayWeek(today).Ok?
    ensures forall d :: InWeek(d, CheckSunday(today).value) ==> d >= today
    ensures forall d :: InWeek(d, CheckSundayWeek(today).value) <==> WeekStart(today) <= d <= today
  {
  }

  /** A user whose one habit was completed on every day from Monday to Sunday:
      the as-written week start scores 100/7 percent, the Monday week start 100. */
  lemma SundayStartMissesTheWeek()
    ensures var habits := [HabitRow("h", "u", "walk", None)];
            var logs := seq(7, (i: nat) => LogRow(i, "h", Some("u"), i + 1, true));
            && IsSunday(7)
            && CheckSunday(7) == Ok(7) && CheckSundayWeek(7) == Ok(1)
            && CompletionPct(habits, logs, "u", 7) == 100.0 / 7.0
            && CompletionPct(habits, logs, "u", 1) == 100.0
  {
    var habits := [HabitRow("h", "u", "walk", None)];
    var logs := seq(7, (i: nat) => LogRow(i, "h", Some("u"), i + 1, true));
    var ids := HabitIdsOf(habits, "u");
    assert habits[0] in habits;
    assert ids == ["h"];
    var keep7 := (l: LogRow) => Counts(l, ids, 7);
    assert logs == logs[..6] + [logs[6]];
    FilterAppend(logs[..6], [logs[6]], keep7);
    FilterNone(logs[..6], keep7);
    assert CountedLogs(logs, ids, 7) == [logs[6]];
    FilterAll(logs, (l: LogRow) => Counts(l, ids, 1));
  }
}
