/** The three tables the habit tracker keeps (`habits`, `habit_logs`,
    `weekly_performance`), their rows, and the reads the store performs on
    them, as pure functions over sequences of rows in table order. */
module Tables {
  import opened Calendar

  type UserId = string
  type HabitId = string

  datatype Option<T> = None | Some(value: T)

  /** A row of `habits`; `habit_id` is the key the store generates. */
  datatype HabitRow = HabitRow(habitId: HabitId, userId: UserId, name: string, description: Option<string>)

  /** A row of `habit_logs`. `id` is generated by the store; `userId` is absent
      when the inserting call leaves the column out. */
  datatype LogRow = LogRow(id: nat, habitId: HabitId, userId: Option<UserId>, date: Day, completed: bool)

  /** A row of `weekly_performance`; the star rating set by a database trigger
      is not part of this model. */
  datatype WeeklyRow = WeeklyRow(userId: UserId, weekStart: Day, completionPct: real)

  /** The rows of `s` that satisfy `keep`, in table order. */
  function Filter<T(!new)>(s: seq<T>, keep: T -> bool): (r: seq<T>)
    ensures |r| <= |s|
    ensures forall x :: x in r <==> x in s && keep(x)
  {
    if s == [] then []
    else if keep(s[0]) then [s[0]] + Filter(s[1..], keep)
    else Filter(s[1..], keep)
  }

  lemma {:induction false} FilterAppend<T(!new)>(a: seq<T>, b: seq<T>, keep: T -> bool)
    ensures Filter(a + b, keep) == Filter(a, keep) + Filter(b, keep)
  {
    if a != [] {
      assert (a + b)[1..] == a[1..] + b;
      FilterAppend(a[1..], b, keep);
    } else {
      assert a + b == b;
    }
  }

  /** A select returns each matching row as many times as the table holds it,
      and no other row. */
  lemma {:induction false} FilterCounts<T(!new)>(s: seq<T>, keep: T -> bool)
    ensures forall x :: multiset(Filter(s, keep))[x] == if keep(x) then multiset(s)[x] else 0
  {
    if s != [] {
      FilterCounts(s[1..], keep);
      assert s == [s[0]] + s[1..];
    }
  }

  lemma {:induction false} FilterAll<T(!new)>(s: seq<T>, keep: T -> bool)
    requires forall x :: x in s ==> keep(x)
    ensures Filter(s, keep) == s
  {
    if s != [] {
      FilterAll(s[1..], keep);
    }
  }

  lemma FilterNone<T(!new)>(s: seq<T>, keep: T -> bool)
    requires forall x :: x in s ==> !keep(x)
    ensures Filter(s, keep) == []
  {
    FirstIsMember(Filter(s, keep));
  }

  // ---------------------------------------------------------------------------
  // habits

  /** `select * from habits where user_id = user`. */
  function HabitsOf(habits: seq<HabitRow>, user: UserId): (r: seq<HabitRow>)
    ensures forall h :: h in r <==> h in habits && h.userId == user
  {
    Filter(habits, (h: HabitRow) => h.userId == user)
  }

  /** `[h["habit_id"] for h in habits_resp.data]` over the user's habits. */
  function HabitIdsOf(habits: seq<HabitRow>, user: UserId): (r: seq<HabitId>)
    ensures |r| == |HabitsOf(habits, user)|
    ensures forall h :: h in habits && h.userId == user ==> h.habitId in r
    ensures forall x :: x in r ==> exists h :: h in habits && h.userId == user && h.habitId == x
  {
    var hs := HabitsOf(habits, user);
    var r := seq(|hs|, i requires 0 <= i < |hs| => hs[i].habitId);
    assert forall h :: h in hs ==> h.habitId in r by {
      forall h | h in hs ensures h.habitId in r {
        var i :| 0 <= i < |hs| && hs[i] == h;
        assert r[i] == h.habitId;
      }
    }
    r
  }

  /** The store generates `habit_id`, so no two habit rows share one. */
  predicate HabitIdsUnique(habits: seq<HabitRow>) {
    forall i, j :: 0 <= i < j < |habits| ==> habits[i].habitId != habits[j].habitId
  }

  /** Some habit row has the key `id`. */
  predicate HabitExists(habits: seq<HabitRow>, id: HabitId) {
    exists h :: h in habits && h.habitId == id
  }

  /** Removing rows keeps the habit ids unique. */
  lemma {:induction false} FilterKeepsHabitIdsUnique(habits: seq<HabitRow>, keep: HabitRow -> bool)
    requires HabitIdsUnique(habits)
    ensures HabitIdsUnique(Filter(habits, keep))
  {
    if habits != [] {
      var tail := habits[1..];
      assert HabitIdsUnique(tail) by {
        forall i, j | 0 <= i < j < |tail| ensures tail[i].habitId != tail[j].habitId {
          assert tail[i] == habits[i + 1] && tail[j] == habits[j + 1];
        }
      }
      FilterKeepsHabitIdsUnique(tail, keep);
      var rest := Filter(tail, keep);
      forall h | h in rest ensures h.habitId != habits[0].habitId {
        var j :| 0 <= j < |tail| && tail[j] == h;
        assert habits[j + 1] == h;
      }
    }
  }

  /** `delete from habits where habit_id = id`: the rows that remain. */
  function HabitsWithout(habits: seq<HabitRow>, id: HabitId): (r: seq<HabitRow>)
    ensures forall h :: h in r <==> h in habits && h.habitId != id
  {
    Filter(habits, (h: HabitRow) => h.habitId != id)
  }

  // ---------------------------------------------------------------------------
  // habit_logs

  predicate IsLogFor(l: LogRow, h: HabitId, d: Day) {
    l.habitId == h && l.date == d
  }

  /** Some log row exists for habit `h` on day `d`. */
  predicate HasLog(logs: seq<LogRow>, h: HabitId, d: Day) {
    exists i :: 0 <= i < |logs| && IsLogFor(logs[i], h, d)
  }

  /** `select * from habit_logs where habit_id = h and date = d`, first row:
      the index of the first log for (h, d), if any. */
  function FindLog(logs: seq<LogRow>, h: HabitId, d: Day): (r: Option<nat>)
    ensures r.Some? ==> r.value < |logs| && IsLogFor(logs[r.value], h, d)
    ensures r.Some? ==> forall j :: 0 <= j < r.value ==> !IsLogFor(logs[j], h, d)
    ensures r.None? <==> !HasLog(logs, h, d)
  {
    if logs == [] then None
    else if IsLogFor(logs[0], h, d) then Some(0)
    else
      match FindLog(logs[1..], h, d)
      case None => None
      case Some(k) => Some(k + 1)
  }

  /** Log ids are generated in increasing order, so no two rows share one. */
  predicate IdsIncreasing(logs: seq<LogRow>) {
    forall i, j :: 0 <= i < j < |logs| ==> logs[i].id < logs[j].id
  }

  /** At most one log per (habit, date): what the store itself never enforces. */
  predicate OneLogPerDay(logs: seq<LogRow>) {
    forall i, j :: 0 <= i < j < |logs| ==> !IsLogFor(logs[j], logs[i].habitId, logs[i].date)
  }

  /** `update habit_logs set completed = true where id = id`: only the
      `completed` column changes, and it is set on exactly the rows with that id. */
  function WithCompletedId(logs: seq<LogRow>, id: nat): (r: seq<LogRow>)
    ensures |r| == |logs|
    ensures forall i :: 0 <= i < |r| ==> r[i] == logs[i].(completed := r[i].completed)
    ensures forall i :: 0 <= i < |r| ==> (r[i].completed <==> logs[i].completed || logs[i].id == id)
  {
    seq(|logs|, i requires 0 <= i < |logs| =>
      if logs[i].id == id then logs[i].(completed := true) else logs[i])
  }

  /** With unique ids, the update by the id of row `k` changes row `k` alone. */
  lemma UpdateByIdTouchesOneRow(logs: seq<LogRow>, k: nat)
    requires IdsIncreasing(logs) && k < |logs|
    ensures WithCompletedId(logs, logs[k].id) == logs[k := logs[k].(completed := true)]
  {
    var r := WithCompletedId(logs, logs[k].id);
    forall i | 0 <= i < |logs| && i != k ensures r[i] == logs[i] {
      assert logs[i].id != logs[k].id by {
        if i < k { assert logs[i].id < logs[k].id; } else { assert logs[k].id < logs[i].id; }
      }
    }
  }

  /** The effect of `mark_habit_completed(h)` on `habit_logs` when the store
      dates the insert `today` and would give it the id `nextId`. */
  function MarkedCompleted(logs: seq<LogRow>, nextId: nat, h: HabitId, today: Day): (r: seq<LogRow>)
    ensures |r| == if HasLog(logs, h, today) then |logs| else |logs| + 1
    ensures FindLog(r, h, today).Some? && r[FindLog(r, h, today).value].completed
  {
    match FindLog(logs, h, today)
    case Some(k) =>
      var r := logs[k := logs[k].(completed := true)];
      assert FindLog(r, h, today) == Some(k) by { FindLogFirst(r, h, today, k); }
      r
    case None =>
      var r := logs + [LogRow(nextId, h, None, today, true)];
      assert FindLog(r, h, today) == Some(|logs|) by { FindLogFirst(r, h, today, |logs|); }
      r
  }

  /** `FindLog` returns the first matching index, whatever it is. */
  lemma FindLogFirst(logs: seq<LogRow>, h: HabitId, d: Day, k: nat)
    requires k < |logs| && IsLogFor(logs[k], h, d)
    requires forall j :: 0 <= j < k ==> !IsLogFor(logs[j], h, d)
    ensures FindLog(logs, h, d) == Some(k)
  {
    var r := FindLog(logs, h, d);
    assert r.Some?;
    if r.value < k {
    } else if r.value > k {
    }
  }

  /** Marking the same habit twice on one day is marking it once: the second
      call finds the log the first left completed and adds no row. */
  lemma MarkTwice(logs: seq<LogRow>, nextId: nat, h: HabitId, today: Day)
    ensures var once := MarkedCompleted(logs, nextId, h, today);
            var nextId' := if HasLog(logs, h, today) then nextId else nextId + 1;
            HasLog(once, h, today) &&
            MarkedCompleted(once, nextId', h, today) == once
  {
    var once := MarkedCompleted(logs, nextId, h, today);
    var k := FindLog(once, h, today).value;
    assert once[k := once[k].(completed := true)] == once;
  }

  /** `mark_habit_completed` never creates a second log for a (habit, date). */
  lemma MarkKeepsOneLogPerDay(logs: seq<LogRow>, nextId: nat, h: HabitId, today: Day)
    requires OneLogPerDay(logs)
    ensures OneLogPerDay(MarkedCompleted(logs, nextId, h, today))
  {
    var r := MarkedCompleted(logs, nextId, h, today);
    match FindLog(logs, h, today)
    case Some(k) =>
      forall i, j | 0 <= i < j < |r| ensures !IsLogFor(r[j], r[i].habitId, r[i].date) {
        assert IsLogFor(r[j], r[i].habitId, r[i].date) <==> IsLogFor(logs[j], logs[i].habitId, logs[i].date);
      }
    case None =>
      forall i, j | 0 <= i < j < |r| ensures !IsLogFor(r[j], r[i].habitId, r[i].date) {
        if j == |logs| {
          assert !IsLogFor(logs[i], h, today);
        }
      }
  }

  /** Every log belongs to an existing habit: the foreign key that carries
      `ON DELETE CASCADE`. */
  predicate LogsReferToHabits(logs: seq<LogRow>, habits: seq<HabitRow>) {
    forall l :: l in logs ==> HabitExists(habits, l.habitId)
  }

  /** Marking a habit that exists keeps every log attached to a habit. */
  lemma MarkKeepsReferences(logs: seq<LogRow>, habits: seq<HabitRow>, nextId: nat, h: HabitId, today: Day)
    requires LogsReferToHabits(logs, habits) && HabitExists(habits, h)
    ensures LogsReferToHabits(MarkedCompleted(logs, nextId, h, today), habits)
  {
    var r := MarkedCompleted(logs, nextId, h, today);
    forall l | l in r ensures HabitExists(habits, l.habitId) {
      var i :| 0 <= i < |r| && r[i] == l;
      if i < |logs| {
        assert logs[i] in logs && l.habitId == logs[i].habitId;
      }
    }
  }

  /** Deleting a habit together with its logs keeps every remaining log
      attached to a remaining habit. */
  lemma DeleteKeepsReferences(logs: seq<LogRow>, habits: seq<HabitRow>, id: HabitId)
    requires LogsReferToHabits(logs, habits)
    ensures LogsReferToHabits(LogsWithout(logs, id), HabitsWithout(habits, id))
  {
    forall l | l in LogsWithout(logs, id) ensures HabitExists(HabitsWithout(habits, id), l.habitId) {
      var h :| h in habits && h.habitId == l.habitId;
      assert h in HabitsWithout(habits, id);
    }
  }

  /** `delete from habit_logs where habit_id = id`, the cascade of deleting a habit. */
  function LogsWithout(logs: seq<LogRow>, id: HabitId): (r: seq<LogRow>)
    ensures forall l :: l in r <==> l in logs && l.habitId != id
    ensures forall d :: !HasLog(r, id, d)
  {
    var r := Filter(logs, (l: LogRow) => l.habitId != id);
    assert forall i :: 0 <= i < |r| ==> r[i] in r;
    r
  }

  /** Removing rows keeps the ids increasing. */
  lemma {:induction false} FilterKeepsIdsIncreasing(logs: seq<LogRow>, keep: LogRow -> bool)
    requires IdsIncreasing(logs)
    ensures IdsIncreasing(Filter(logs, keep))
  {
    if logs != [] {
      FilterKeepsIdsIncreasing(logs[1..], keep);
      var rest := Filter(logs[1..], keep);
      forall l | l in rest ensures logs[0].id < l.id {
        var j :| 0 <= j < |logs[1..]| && logs[1..][j] == l;
        assert logs[j + 1] == l;
      }
    }
  }

  /** Removing rows keeps at most one log per (habit, date). */
  lemma {:induction false} FilterKeepsOneLogPerDay(logs: seq<LogRow>, keep: LogRow -> bool)
    requires OneLogPerDay(logs)
    ensures OneLogPerDay(Filter(logs, keep))
  {
    if logs != [] {
      FilterKeepsOneLogPerDay(logs[1..], keep);
      var rest := Filter(logs[1..], keep);
      forall l | l in rest ensures !IsLogFor(l, logs[0].habitId, logs[0].date) {
        var j :| 0 <= j < |logs[1..]| && logs[1..][j] == l;
        assert logs[j + 1] == l;
      }
    }
  }

  // ---------------------------------------------------------------------------
  // weekly_performance

  /** `select * from weekly_performance where user_id = user`. */
  function WeeklyRowsOf(weekly: seq<WeeklyRow>, user: UserId): (r: seq<WeeklyRow>)
    ensures forall w :: w in r <==> w in weekly && w.userId == user
  {
    Filter(weekly, (w: WeeklyRow) => w.userId == user)
  }

  /** A log counted by the weekly aggregation: completed, of one of `ids`,
      dated inside the window that starts at `ws`. */
  predicate Counts(l: LogRow, ids: seq<HabitId>, ws: Day) {
    l.completed && l.habitId in ids && InWeek(l.date, ws)
  }

  /** `select * from habit_logs where habit_id in ids and week_start <= date
      <= week_end and completed`. */
  function CountedLogs(logs: seq<LogRow>, ids: seq<HabitId>, ws: Day): (r: seq<LogRow>)
    ensures forall l :: l in r <==> l in logs && Counts(l, ids, ws)
  {
    Filter(logs, (l: LogRow) => Counts(l, ids, ws))
  }

  /** `completion_pct` of `create_weekly_performance_for_user(user, ws)`:
      0 for a user without habits, else the completed habit-days of the window
      over seven times the habit count, in percent. */
  function CompletionPct(habits: seq<HabitRow>, logs: seq<LogRow>, user: UserId, ws: Day): (pct: real)
    ensures pct >= 0.0
    ensures pct > 0.0 ==> exists l :: l in logs && l.completed && InWeek(l.date, ws)
  {
    var ids := HabitIdsOf(habits, user);
    if |ids| == 0 then 0.0
    else
      var done := CountedLogs(logs, ids, ws);
      assert done != [] ==> done[0] in done;
      (|done| as real / (|ids| * 7) as real) * 100.0
  }

  /** A user who owns no habit scores 0. */
  lemma NoHabitsScoreZero(habits: seq<HabitRow>, logs: seq<LogRow>, user: UserId, ws: Day)
    requires forall h :: h in habits ==> h.userId != user
    ensures CompletionPct(habits, logs, user, ws) == 0.0
  {
    FirstIsMember(HabitsOf(habits, user));
  }

  /** The first element of a non-empty sequence is one of its members. Called
      where the sequence is in fact empty, it states that fact without a
      checked index in a branch that cannot happen. */
  lemma FirstIsMember<T>(s: seq<T>)
    ensures s != [] ==> s[0] in s
  {
  }

  /** Rows that are not completed never change a score: the daily
      materializer, which inserts only such rows, leaves every score as it was. */
  lemma UncompletedLogsDoNotCount(habits: seq<HabitRow>, logs: seq<LogRow>, extra: seq<LogRow>, user: UserId, ws: Day)
    requires forall l :: l in extra ==> !l.completed
    ensures CompletionPct(habits, logs + extra, user, ws) == CompletionPct(habits, logs, user, ws)
  {
    var ids := HabitIdsOf(habits, user);
    var keep := (l: LogRow) => Counts(l, ids, ws);
    FilterAppend(logs, extra, keep);
    var e := Filter(extra, keep);
    if e != [] { assert e[0] in e; }
  }

  /** At most one completed log per (habit, date); duplicates that are not
      completed are allowed, since they never count. */
  predicate OneCompletedLogPerDay(logs: seq<LogRow>) {
    forall i, j :: 0 <= i < j < |logs| && logs[i].completed && logs[j].completed ==>
      !IsLogFor(logs[j], logs[i].habitId, logs[i].date)
  }

  lemma OneLogPerDayIsOneCompleted(logs: seq<LogRow>)
    requires OneLogPerDay(logs)
    ensures OneCompletedLogPerDay(logs)
  {
  }

  /** Keeping only completed rows of a table with one completed log per
      (habit, date) leaves one log per (habit, date). */
  lemma {:induction false} FilterCompletedOneLogPerDay(logs: seq<LogRow>, keep: LogRow -> bool)
    requires OneCompletedLogPerDay(logs)
    requires forall l :: keep(l) ==> l.completed
    ensures OneLogPerDay(Filter(logs, keep))
  {
    if logs != [] {
      var tail := logs[1..];
      assert OneCompletedLogPerDay(tail) by {
        forall i, j | 0 <= i < j < |tail| && tail[i].completed && tail[j].completed
          ensures !IsLogFor(tail[j], tail[i].habitId, tail[i].date)
        {
          assert tail[i] == logs[i + 1] && tail[j] == logs[j + 1];
        }
      }
      FilterCompletedOneLogPerDay(tail, keep);
      var rest := Filter(tail, keep);
      forall l | l in rest ensures !IsLogFor(l, logs[0].habitId, logs[0].date) || !logs[0].completed {
        var j :| 0 <= j < |tail| && tail[j] == l;
        assert logs[j + 1] == l;
      }
    }
  }

  /** The score is at most 100 when there is at most one completed log per
      (habit, date). */
  lemma PctAtMost100(habits: seq<HabitRow>, logs: seq<LogRow>, user: UserId, ws: Day)
    requires OneCompletedLogPerDay(logs)
    ensures CompletionPct(habits, logs, user, ws) <= 100.0
  {
    var ids := HabitIdsOf(habits, user);
    if |ids| > 0 {
      var done := CountedLogs(logs, ids, ws);
      FilterCompletedOneLogPerDay(logs, (l: LogRow) => Counts(l, ids, ws));
      CountedBound(done, ids, ws);
      RatioAtMost100(|done|, |ids| * 7);
    }
  }

  /** Without that condition the bound fails: one habit completed eight times
      on one day of the window scores 800/7 percent. */
  lemma DuplicateCompletionsExceed100()
    ensures var habits := [HabitRow("h", "u", "walk", None)];
            var logs := seq(8, (i: nat) => LogRow(i, "h", Some("u"), 1, true));
            && !OneCompletedLogPerDay(logs)
            && CompletionPct(habits, logs, "u", 1) == 800.0 / 7.0
            && CompletionPct(habits, logs, "u", 1) > 100.0
  {
    var habits := [HabitRow("h", "u", "walk", None)];
    var logs := seq(8, (i: nat) => LogRow(i, "h", Some("u"), 1, true));
    var ids := HabitIdsOf(habits, "u");
    assert habits[0] in habits;
    assert ids == ["h"];
    FilterAll(logs, (l: LogRow) => Counts(l, ids, 1));
    assert IsLogFor(logs[1], logs[0].habitId, logs[0].date);
  }

  lemma RatioAtMost100(n: nat, m: nat)
    requires 0 < m && n <= m
    ensures (n as real / m as real) * 100.0 <= 100.0
  {
    assert n as real / m as real <= 1.0;
  }

  // Counting argument behind PctAtMost100.

  function Key(l: LogRow): (HabitId, Day) {
    (l.habitId, l.date)
  }

  /** The (habit, date) keys of the rows of `c`. */
  ghost function Keys(c: seq<LogRow>): (r: set<(HabitId, Day)>)
    ensures forall i :: 0 <= i < |c| ==> Key(c[i]) in r
    ensures forall p :: p in r ==> exists i :: 0 <= i < |c| && Key(c[i]) == p
  {
    if c == [] then {} else {Key(c[0])} + Keys(c[1..])
  }

  /** Every (habit, date) pair of the habits `s` in the window starting at `ws`. */
  ghost function Grid(s: set<HabitId>, ws: Day): set<(HabitId, Day)> {
    set h, d | h in s && ws <= d <= ws + 6 :: (h, d)
  }

  /** Rows with distinct (habit, date) keys, all of habits in `ids` and inside
      one seven-day window, number at most seven per habit. */
  lemma CountedBound(done: seq<LogRow>, ids: seq<HabitId>, ws: Day)
    requires OneLogPerDay(done)
    requires forall l :: l in done ==> l.habitId in ids && InWeek(l.date, ws)
    ensures |done| <= 7 * |ids|
  {
    var s := set x | x in ids;
    KeysCard(done);
    forall p | p in Keys(done) ensures p in Grid(s, ws) {
      var i :| 0 <= i < |done| && Key(done[i]) == p;
      assert done[i] in done;
    }
    SubsetCard(Keys(done), Grid(s, ws));
    GridCard(s, ws);
    DistinctCard(ids);
  }

  lemma {:induction false} KeysCard(c: seq<LogRow>)
    requires OneLogPerDay(c)
    ensures |Keys(c)| == |c|
  {
    if c != [] {
      var rest := c[1..];
      assert OneLogPerDay(rest) by {
        forall i, j | 0 <= i < j < |rest| ensures !IsLogFor(rest[j], rest[i].habitId, rest[i].date) {
          assert rest[i] == c[i + 1] && rest[j] == c[j + 1];
        }
      }
      KeysCard(rest);
      forall j | 0 <= j < |rest| ensures Key(rest[j]) != Key(c[0]) {
        assert rest[j] == c[j + 1];
      }
    }
  }

  lemma SubsetCard<T>(a: set<T>, b: set<T>)
    requires a <= b
    ensures |a| <= |b|
  {
    assert b == a + (b - a);
  }

  lemma GridCard(s: set<HabitId>, ws: Day)
    ensures |Grid(s, ws)| == 7 * |s|
    decreases |s|
  {
    if s == {} {
      assert Grid(s, ws) == {};
    } else {
      var h :| h in s;
      var row := {(h, ws), (h, ws + 1), (h, ws + 2), (h, ws + 3), (h, ws + 4), (h, ws + 5), (h, ws + 6)};
      assert |row| == 7;
      GridCard(s - {h}, ws);
      assert Grid(s, ws) == Grid(s - {h}, ws) + row;
      assert Grid(s - {h}, ws) !! row;
    }
  }

  lemma {:induction false} DistinctCard<T>(xs: seq<T>)
    ensures |set x | x in xs| <= |xs|
  {
    if xs != [] {
      DistinctCard(xs[1..]);
      assert (set x | x in xs) == {xs[0]} + (set x | x in xs[1..]);
    }
  }
}
