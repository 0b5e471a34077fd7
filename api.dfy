/** The two scheduled jobs of `api/main.py`, each as one sequential run. The
    `users` table they read and the current day are parameters. */
module Api {
  import opened Calendar
  import opened Tables
  import opened Db
  import opened Logic

  /** A row the daily job may insert: not completed, dated `today`, for a
      listed user and one of that user's habits. */
  predicate DailyRow(l: LogRow, users: seq<UserId>, habits: seq<HabitRow>, today: Day) {
    && !l.completed
    && l.date == today
    && l.userId.Some?
    && l.userId.value in users
    && l.habitId in HabitIdsOf(habits, l.userId.value)
  }

  /** Every habit of every listed user has a log for `today`. */
  predicate AllLogged(logs: seq<LogRow>, habits: seq<HabitRow>, users: seq<UserId>, today: Day) {
    forall u, h :: u in users && h in habits && h.userId == u ==> HasLog(logs, h.habitId, today)
  }

  /** `logs` is `before` with rows appended by the daily job, each one a
      `DailyRow` and the first log of its habit for `today`. */
  predicate OnlyDailyInserts(before: seq<LogRow>, logs: seq<LogRow>, users: seq<UserId>, habits: seq<HabitRow>, today: Day) {
    && |before| <= |logs| && logs[..|before|] == before
    && (forall k :: |before| <= k < |logs| ==> DailyRow(logs[k], users, habits, today))
    && (forall k :: |before| <= k < |logs| ==> !HasLog(logs[..k], logs[k].habitId, today))
  }

  lemma InsertStep(before: seq<LogRow>, logs: seq<LogRow>, row: LogRow, users: seq<UserId>, habits: seq<HabitRow>, today: Day)
    requires OnlyDailyInserts(before, logs, users, habits, today)
    requires DailyRow(row, users, habits, today) && !HasLog(logs, row.habitId, today)
    ensures OnlyDailyInserts(before, logs + [row], users, habits, today)
    ensures forall h, d :: HasLog(logs, h, d) ==> HasLog(logs + [row], h, d)
    ensures HasLog(logs + [row], row.habitId, today)
  {
    var next := logs + [row];
    assert next[..|logs|] == logs;
    assert next[..|before|] == before;
    forall k | 0 <= k <= |logs| ensures next[..k] == logs[..k] {
    }
    forall h, d | HasLog(logs, h, d) ensures HasLog(next, h, d) {
      var i :| 0 <= i < |logs| && IsLogFor(logs[i], h, d);
      assert next[i] == logs[i];
    }
    assert IsLogFor(next[|logs|], row.habitId, today);
  }

  lemma AllLoggedGrows(logs: seq<LogRow>, logs': seq<LogRow>, habits: seq<HabitRow>, users: seq<UserId>, today: Day)
    requires forall h, d :: HasLog(logs, h, d) ==> HasLog(logs', h, d)
    requires AllLogged(logs, habits, users, today)
    ensures AllLogged(logs', habits, users, today)
  {
  }

  /** A habit of a listed user has a log for `today` once all of them do:
      `AllLogged` at the given user and habit. */
  lemma LoggedHabit(logs: seq<LogRow>, habits: seq<HabitRow>, users: seq<UserId>, today: Day, u: UserId, h: HabitRow)
    ensures AllLogged(logs, habits, users, today) && u in users && h in habits && h.userId == u ==>
              HasLog(logs, h.habitId, today)
  {
  }

  /** One step of the inner loop of `daily_task`: look for a log of the
      `j`-th habit of the `i`-th user for today and insert one if there is none. */
  method LogHabit(db: Database, users: seq<UserId>, i: nat, mine: seq<HabitRow>, j: nat, today: Day, ghost before: seq<LogRow>)
    requires i < |users| && j < |mine|
    requires forall h :: h in mine ==> h in db.habits && h.userId == users[i]
    requires db.Valid()
    requires OnlyDailyInserts(before, db.logs, users, db.habits, today)
    requires AllLogged(db.logs, db.habits, users[..i], today)
    requires forall m :: 0 <= m < j ==> HasLog(db.logs, mine[m].habitId, today)
    requires AllLogged(before, db.habits, users, today) ==> db.logs == before
    modifies db
    ensures db.Valid()
    ensures db.habits == old(db.habits) && db.weekly == old(db.weekly)
    ensures OnlyDailyInserts(before, db.logs, users, db.habits, today)
    ensures AllLogged(db.logs, db.habits, users[..i], today)
    ensures forall m :: 0 <= m < j + 1 ==> HasLog(db.logs, mine[m].habitId, today)
    ensures AllLogged(before, db.habits, users, today) ==> db.logs == before
  {
    var habit := mine[j];
    assert habit in mine;
    LoggedHabit(before, db.habits, users, today, users[i], habit);
    if FindLog(db.logs, habit.habitId, today).None? {
      var row := LogRow(db.nextLogId, habit.habitId, Some(users[i]), today, false);
      InsertStep(before, db.logs, row, users, db.habits, today);
      ghost var prev := db.logs;
      row := db.InsertLog(habit.habitId, Some(users[i]), false, today);
      AllLoggedGrows(prev, db.logs, db.habits, users[..i], today);
    }
  }

  /** The inner loop of `daily_task`, for the `i`-th listed user. */
  method LogUserHabits(db: Database, users: seq<UserId>, i: nat, today: Day, ghost before: seq<LogRow>)
    requires i < |users|
    requires db.Valid()
    requires OnlyDailyInserts(before, db.logs, users, db.habits, today)
    requires AllLogged(db.logs, db.habits, users[..i], today)
    requires AllLogged(before, db.habits, users, today) ==> db.logs == before
    modifies db
    ensures db.Valid()
    ensures db.habits == old(db.habits) && db.weekly == old(db.weekly)
    ensures OnlyDailyInserts(before, db.logs, users, db.habits, today)
    ensures AllLogged(db.logs, db.habits, users[..i + 1], today)
    ensures AllLogged(before, db.habits, users, today) ==> db.logs == before
  {
    var habits := ListUserHabits(db, users[i]);
    var j := 0;
    while j < |habits|
      invariant 0 <= j <= |habits|
      invariant db.Valid()
      invariant db.habits == old(db.habits) && db.weekly == old(db.weekly)
      invariant OnlyDailyInserts(before, db.logs, users, db.habits, today)
      invariant AllLogged(db.logs, db.habits, users[..i], today)
      invariant forall m :: 0 <= m < j ==> HasLog(db.logs, habits[m].habitId, today)
      invariant AllLogged(before, db.habits, users, today) ==> db.logs == before
    {
      LogHabit(db, users, i, habits, j, today, before);
      j := j + 1;
    }
    AllLoggedNextUser(db.logs, db.habits, users, i, habits, today);
  }

  /** Once every habit of the `i`-th user is logged, the first `i + 1` users are. */
  lemma AllLoggedNextUser(logs: seq<LogRow>, habits: seq<HabitRow>, users: seq<UserId>, i: nat, mine: seq<HabitRow>, today: Day)
    requires i < |users|
    requires AllLogged(logs, habits, users[..i], today)
    requires forall h :: h in mine <==> h in habits && h.userId == users[i]
    requires forall m :: 0 <= m < |mine| ==> HasLog(logs, mine[m].habitId, today)
    ensures AllLogged(logs, habits, users[..i + 1], today)
  {
    assert users[..i + 1] == users[..i] + [users[i]];
    forall h | h in habits && h.userId == users[i] ensures HasLog(logs, h.habitId, today) {
      var m :| 0 <= m < |mine| && mine[m] == h;
    }
  }

  /** `daily_task`: for each listed user and each of that user's habits,
      insert a not-completed log for `today` unless the habit already has one. */
  method DailyTask(db: Database, users: seq<UserId>, today: Day)
    requires db.Valid()
    modifies db
    ensures db.Valid()
    ensures db.habits == old(db.habits) && db.weekly == old(db.weekly)
    // Only inserts: every row there before is still there, unchanged, and each
    // new row is a not-completed log of a listed user's habit, the first log
    // of that habit for today.
    ensures |old(db.logs)| <= |db.logs| && db.logs[..|old(db.logs)|] == old(db.logs)
    ensures forall k :: |old(db.logs)| <= k < |db.logs| ==> DailyRow(db.logs[k], users, db.habits, today)
    ensures forall k :: |old(db.logs)| <= k < |db.logs| ==> !HasLog(db.logs[..k], db.logs[k].habitId, today)
    ensures AllLogged(db.logs, db.habits, users, today)
    ensures AllLogged(old(db.logs), db.habits, users, today) ==> db.logs == old(db.logs)
    ensures OneLogPerDay(old(db.logs)) ==> OneLogPerDay(db.logs)
  {
    ghost var before := db.logs;
    var i := 0;
    while i < |users|
      invariant 0 <= i <= |users|
      invariant db.Valid()
      invariant db.habits == old(db.habits) && db.weekly == old(db.weekly)
      invariant OnlyDailyInserts(before, db.logs, users, db.habits, today)
      invariant AllLogged(db.logs, db.habits, users[..i], today)
      invariant AllLogged(before, db.habits, users, today) ==> db.logs == before
    {
      LogUserHabits(db, users, i, today, before);
      i := i + 1;
    }
    assert users[..|users|] == users;
    if OneLogPerDay(before) {
      DailyTaskKeepsOneLogPerDay(before, db.logs, today);
    }
  }

  /** Inserting only not-completed rows, the daily job leaves every weekly
      score as it was. */
  lemma DailyTaskKeepsScores(before: seq<LogRow>, after: seq<LogRow>, habits: seq<HabitRow>, users: seq<UserId>, today: Day, user: UserId, ws: Day)
    requires |before| <= |after| && after[..|before|] == before
    requires forall k :: |before| <= k < |after| ==> DailyRow(after[k], users, habits, today)
    ensures CompletionPct(habits, after, user, ws) == CompletionPct(habits, before, user, ws)
  {
    var extra := after[|before|..];
    assert after == before + extra;
    forall l | l in extra ensures !l.completed {
      var k :| 0 <= k < |extra| && extra[k] == l;
      assert after[|before| + k] == l;
    }
    UncompletedLogsDoNotCount(habits, before, extra, user, ws);
  }

  /** The daily job never creates a second log for a (habit, date). */
  lemma DailyTaskKeepsOneLogPerDay(before: seq<LogRow>, after: seq<LogRow>, today: Day)
    requires OneLogPerDay(before)
    requires |before| <= |after| && after[..|before|] == before
    requires forall k :: |before| <= k < |after| ==> after[k].date == today && !HasLog(after[..k], after[k].habitId, today)
    ensures OneLogPerDay(after)
  {
    forall i, j | 0 <= i < j < |after| ensures !IsLogFor(after[j], after[i].habitId, after[i].date) {
      if j < |before| {
        assert after[i] == before[i] && after[j] == before[j];
      } else {
        assert after[..j][i] == after[i];
      }
    }
  }

  /** `weekly_task`: on a Sunday, read each listed user's weekly rows (which
      the job then discards); on any other day, nothing. Writes no table. */
  method WeeklyTask(db: Database, users: seq<UserId>, today: Day) returns (seen: seq<seq<WeeklyRow>>)
    ensures !IsSunday(today) ==> seen == []
    ensures IsSunday(today) ==>
      && |seen| == |users|
      && forall i :: 0 <= i < |users| ==> seen[i] == GetMyWeeklyPerformance(db, users[i])
  {
    seen := [];
    if Weekday(today) == 6 {
      for i := 0 to |users|
        invariant |seen| == i
        invariant forall j :: 0 <= j < i ==> seen[j] == GetMyWeeklyPerformance(db, users[j])
      {
        seen := seen + [GetMyWeeklyPerformance(db, users[i])];
      }
    }
  }
}
