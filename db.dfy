/** The store operations of `src/db.py`, over an in-memory copy of the three
    tables. The current user, the clock and the users table are parameters;
    the store's column defaults are modelled as stated on each method. */
module Db {
  import opened Calendar
  import opened Tables

  class Database {
    var habits: seq<HabitRow>
    var logs: seq<LogRow>
    var weekly: seq<WeeklyRow>
    /** The id the store gives the next `habit_logs` row. */
    var nextLogId: nat

    /** Habit keys are unique, every log belongs to a habit (the foreign key
        of `habit_logs.habit_id`), and log ids are generated in increasing
        order and stay below `nextLogId`. */
    ghost predicate Valid()
      reads this
    {
      && HabitIdsUnique(habits)
      && LogsReferToHabits(logs, habits)
      && IdsIncreasing(logs)
      && forall i :: 0 <= i < |logs| ==> logs[i].id < nextLogId
    }

    constructor ()
      ensures Valid()
      ensures habits == [] && logs == [] && weekly == []
    {
      habits, logs, weekly, nextLogId := [], [], [], 0;
    }

    /** `create_habit`: insert one habit row; `habitId` is the key the store
        generates for it. */
    method CreateHabit(userId: UserId, name: string, description: Option<string>, habitId: HabitId)
      returns (row: HabitRow)
      requires Valid()
      requires forall h :: h in habits ==> h.habitId != habitId
      modifies this
      ensures Valid()
      ensures row == HabitRow(habitId, userId, name, description)
      ensures habits == old(habits) + [row]
      ensures logs == old(logs) && weekly == old(weekly) && nextLogId == old(nextLogId)
    {
      row := HabitRow(habitId, userId, name, description);
      forall l | l in logs ensures HabitExists(habits + [row], l.habitId) {
        var h :| h in habits && h.habitId == l.habitId;
        assert h in habits + [row];
      }
      habits := habits + [row];
    }

    /** The raw `insert` into `habit_logs`, with the `date` column left to its
        default, the current day `today`; the foreign key admits only a
        `habitId` that has a habit row. */
    method InsertLog(habitId: HabitId, userId: Option<UserId>, completed: bool, today: Day)
      returns (row: LogRow)
      requires Valid()
      requires HabitExists(habits, habitId)
      modifies this
      ensures Valid()
      ensures row == LogRow(old(nextLogId), habitId, userId, today, completed)
      ensures logs == old(logs) + [row] && nextLogId == old(nextLogId) + 1
      ensures habits == old(habits) && weekly == old(weekly)
    {
      row := LogRow(nextLogId, habitId, userId, today, completed);
      logs := logs + [row];
      nextLogId := nextLogId + 1;
    }

    /** `mark_habit_completed`: look up the logs of `habitId` for `today`; if
        there is one, set `completed` on the first by its id, otherwise insert a
        completed log (without `user_id`, dated `today` by default). The store
        refuses that insert for a `habitId` with no habit row: `None`, and
        nothing changes. */
    method MarkHabitCompleted(habitId: HabitId, today: Day) returns (row: Option<LogRow>)
      requires Valid()
      modifies this
      ensures Valid()
      ensures !HabitExists(habits, habitId) ==>
        && row == None && logs == old(logs) && nextLogId == old(nextLogId)
      ensures HabitExists(habits, habitId) ==>
        && logs == MarkedCompleted(old(logs), old(nextLogId), habitId, today)
        && match FindLog(old(logs), habitId, today)
           case Some(k) =>
             && logs == old(logs)[k := old(logs)[k].(completed := true)]
             && row == Some(logs[k]) && nextLogId == old(nextLogId)
           case None =>
             && row == Some(LogRow(old(nextLogId), habitId, None, today, true))
             && logs == old(logs) + [row.value] && nextLogId == old(nextLogId) + 1
      ensures habits == old(habits) && weekly == old(weekly)
      ensures OneLogPerDay(old(logs)) ==> OneLogPerDay(logs)
    {
      if OneLogPerDay(logs) {
        MarkKeepsOneLogPerDay(logs, nextLogId, habitId, today);
      }
      var existing := FindLog(logs, habitId, today);
      if existing.Some? {
        var k := existing.value;
        assert logs[k] in logs;
        MarkKeepsReferences(logs, habits, nextLogId, habitId, today);
        var logId := logs[k].id;
        UpdateByIdTouchesOneRow(logs, k);
        logs := WithCompletedId(logs, logId);
        row := Some(logs[k]);
      } else if !HabitExists(habits, habitId) {
        row := None;
      } else {
        var inserted := InsertLog(habitId, None, true, today);
        row := Some(inserted);
      }
    }

    /** `delete_habit`: delete the habit rows with that id; the store's
        `ON DELETE CASCADE` deletes the habit's logs with them. */
    method DeleteHabit(habitId: HabitId)
      requires Valid()
      modifies this
      ensures Valid()
      ensures habits == HabitsWithout(old(habits), habitId)
      ensures logs == LogsWithout(old(logs), habitId)
      ensures weekly == old(weekly) && nextLogId == old(nextLogId)
      ensures OneLogPerDay(old(logs)) ==> OneLogPerDay(logs)
    {
      var keep := (l: LogRow) => l.habitId != habitId;
      FilterKeepsIdsIncreasing(logs, keep);
      FilterKeepsHabitIdsUnique(habits, (h: HabitRow) => h.habitId != habitId);
      DeleteKeepsReferences(logs, habits, habitId);
      if OneLogPerDay(logs) {
        FilterKeepsOneLogPerDay(logs, keep);
      }
      var remaining := LogsWithout(logs, habitId);
      forall i | 0 <= i < |remaining| ensures remaining[i].id < nextLogId {
        assert remaining[i] in remaining;
      }
      habits := HabitsWithout(habits, habitId);
      logs := remaining;
    }

    /** `create_weekly_performance_for_user`: append the user's score for the
        window starting at `weekStart`. */
    method CreateWeeklyPerformanceForUser(userId: UserId, weekStart: Day) returns (row: WeeklyRow)
      requires Valid()
      modifies this
      ensures Valid()
      ensures row == WeeklyRow(userId, weekStart, CompletionPct(habits, logs, userId, weekStart))
      ensures weekly == old(weekly) + [row]
      ensures habits == old(habits) && logs == old(logs) && nextLogId == old(nextLogId)
    {
      row := WeeklyRow(userId, weekStart, CompletionPct(habits, logs, userId, weekStart));
      weekly := weekly + [row];
    }

    /** `generate_weekly_reports_for_all_users`: on a Sunday, one score per
        user for the week that started on the Monday six days before;
        nothing (None) on any other day or when there is no user. */
    method GenerateWeeklyReportsForAllUsers(today: Day, users: seq<UserId>)
      returns (results: Option<seq<WeeklyRow>>)
      requires Valid()
      modifies this
      ensures Valid()
      ensures habits == old(habits) && logs == old(logs) && nextLogId == old(nextLogId)
      ensures !IsSunday(today) || users == [] ==> results == None && weekly == old(weekly)
      ensures IsSunday(today) && users != [] ==>
        && results.Some?
        && |results.value| == |users|
        && weekly == old(weekly) + results.value
        && forall i :: 0 <= i < |users| ==>
             results.value[i] == WeeklyRow(users[i], today - 6, CompletionPct(habits, logs, users[i], today - 6))
    {
      if Weekday(today) != 6 {
        return None;
      }
      var weekStart := today - Weekday(today);
      if users == [] {
        return None;
      }
      var rows: seq<WeeklyRow> := [];
      var i := 0;
      while i < |users|
        invariant 0 <= i <= |users| && |rows| == i
        invariant Valid()
        invariant habits == old(habits) && logs == old(logs) && nextLogId == old(nextLogId)
        invariant weekly == old(weekly) + rows
        invariant forall j :: 0 <= j < i ==>
                    rows[j] == WeeklyRow(users[j], weekStart, CompletionPct(habits, logs, users[j], weekStart))
      {
        var row := CreateWeeklyPerformanceForUser(users[i], weekStart);
        rows := rows + [row];
        i := i + 1;
      }
      results := Some(rows);
    }
  }
}
