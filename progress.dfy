/** The progress views derived from the ledger: the seven-day window of
    completion and experience counts behind the charts, and the synthetic
    history generator. Both fill a local list day by day, as the dashboard's
    generators do; the day counts they are specified by are defined here
    once, as sums over the habits, and related to the toggle. */
module Progress {
  import opened Habits

  /** One day of the seven-day window; the locale weekday label is not modelled. */
  datatype DayProgress = DayProgress(date: int, completed: nat, total: nat, xp: nat)

  /** Length of the progress window, ending today. */
  const WindowDays := 7

  // ---------------------------------------------------------------------------
  // The counts the window is specified by

  /** The number of completed entries of one history on `day`. */
  function CountOn(history: seq<Entry>, day: int): (n: nat)
    ensures n <= |history|
    ensures !HasEntryOn(history, day) ==> n == 0
  {
    if history == [] then 0
    else
      assert !HasEntryOn(history, day) ==> !HasEntryOn(history[1..], day) by {
        if HasEntryOn(history[1..], day) {
          var k :| 0 <= k < |history[1..]| && history[1..][k].date == day;
          assert history[k + 1].date == day;
        }
      }
      (if history[0].date == day && history[0].completed then 1 else 0) + CountOn(history[1..], day)
  }

  /** The number of completed entries on `day` across all habits. */
  function CompletedOn(habits: seq<Habit>, day: int): nat {
    if habits == [] then 0 else CountOn(habits[0].history, day) + CompletedOn(habits[1..], day)
  }

  // ---------------------------------------------------------------------------
  // The dashboard's code: every habit's entries for the day gathered into one list, then the completed ones kept

  /** The entries of one history dated `day`, in their order. */
  function FilterDay(history: seq<Entry>, day: int): (r: seq<Entry>)
    ensures forall k :: 0 <= k < |r| ==> r[k].date == day
    ensures forall e :: e in r <==> e in history && e.date == day
  {
    if history == [] then []
    else (if history[0].date == day then [history[0]] else []) + FilterDay(history[1..], day)
  }

  /** Every habit's entries dated `day`, concatenated in the order of the habits. */
  function EntriesOn(habits: seq<Habit>, day: int): (r: seq<Entry>)
    ensures forall k :: 0 <= k < |r| ==> r[k].date == day
    ensures forall e :: e in r <==> e.date == day && exists k :: 0 <= k < |habits| && e in habits[k].history
  {
    if habits == [] then [] else FilterDay(habits[0].history, day) + EntriesOn(habits[1..], day)
  }

  /** The completed entries of a list, in their order. */
  function CompletedEntries(entries: seq<Entry>): (r: seq<Entry>)
    ensures |r| <= |entries|
    ensures forall k :: 0 <= k < |r| ==> r[k].completed
    ensures forall e :: e in r <==> e in entries && e.completed
  {
    if entries == [] then []
    else (if entries[0].completed then [entries[0]] else []) + CompletedEntries(entries[1..])
  }

  lemma {:induction false} CompletedEntriesConcat(a: seq<Entry>, b: seq<Entry>)
    ensures CompletedEntries(a + b) == CompletedEntries(a) + CompletedEntries(b)
  {
    if a == [] {
      assert a + b == b;
    } else {
      assert (a + b)[0] == a[0];
      assert (a + b)[1..] == a[1..] + b;
      CompletedEntriesConcat(a[1..], b);
    }
  }

  lemma {:induction false} CompletedOfDay(history: seq<Entry>, day: int)
    ensures |CompletedEntries(FilterDay(history, day))| == CountOn(history, day)
  {
    if history != [] {
      var head := if history[0].date == day then [history[0]] else [];
      CompletedEntriesConcat(head, FilterDay(history[1..], day));
      CompletedOfDay(history[1..], day);
    }
  }

  /** The dashboard's gather-then-filter count is the per-habit sum. */
  lemma {:induction false} EntriesOnCount(habits: seq<Habit>, day: int)
    ensures |CompletedEntries(EntriesOn(habits, day))| == CompletedOn(habits, day)
  {
    if habits != [] {
      CompletedEntriesConcat(FilterDay(habits[0].history, day), EntriesOn(habits[1..], day));
      CompletedOfDay(habits[0].history, day);
      EntriesOnCount(habits[1..], day);
    }
  }

  // ---------------------------------------------------------------------------
  // generateProgressData

  /** The seven-day window ending today: one entry per day in ascending order,
      each with the day's completed entries over all habits, the current
      number of habits, and ten experience points per completion. */
  method GenerateProgressData(habits: seq<Habit>, today: int) returns (progress: seq<DayProgress>)
    ensures |progress| == WindowDays
    ensures forall k :: 0 <= k < |progress| ==> progress[k].date == today - (WindowDays - 1) + k
    ensures forall k :: 0 <= k < |progress| ==>
      progress[k].completed == CompletedOn(habits, progress[k].date) &&
      progress[k].total == |habits| &&
      progress[k].xp == XpAward * progress[k].completed
  {
    progress := [];
    var i := WindowDays - 1;
    while i >= 0
      invariant -1 <= i <= WindowDays - 1
      invariant |progress| == WindowDays - 1 - i
      invariant forall k :: 0 <= k < |progress| ==> progress[k].date == today - (WindowDays - 1) + k
      invariant forall k :: 0 <= k < |progress| ==>
        progress[k].completed == CompletedOn(habits, progress[k].date) &&
        progress[k].total == |habits| &&
        progress[k].xp == XpAward * progress[k].completed
    {
      var date := today - i;
      var dayHabits := EntriesOn(habits, date);
      var completed := |CompletedEntries(dayHabits)|;
      EntriesOnCount(habits, date);
      var total := |habits|;
      progress := progress + [DayProgress(date, completed, total, completed * XpAward)];
      i := i - 1;
    }
  }

  // ---------------------------------------------------------------------------
  // generateHistory (defined in the dashboard, never called)

  /** A synthetic history of `streak` consecutive days ending today. Every
      entry is completed, except the one entry whose position equals the
      streak and whose date is today; that only happens when the streak is
      1, and that entry then carries `todayCompleted`. The `completed` argument is unused. */
  method GenerateHistory(streak: int, completed: bool, todayCompleted: bool, today: int)
    returns (history: seq<Entry>)
    ensures |history| == AtLeastZero(streak)
    ensures forall k :: 0 <= k < |history| ==> history[k].date == today - |history| + 1 + k
    ensures forall k :: 0 <= k < |history| ==>
      history[k].completed == (if streak == 1 then todayCompleted else true)
    ensures DatesUnique(history)
    ensures history != [] ==> history[|history| - 1].date == today
  {
    history := [];
    var i := streak;
    while i > 0
      invariant i <= AtLeastZero(streak)
      invariant |history| == AtLeastZero(streak) - AtLeastZero(i)
      invariant forall k :: 0 <= k < |history| ==> history[k].date == today - streak + 1 + k
      invariant forall k :: 0 <= k < |history| ==>
        history[k].completed == (if streak == 1 then todayCompleted else true)
    {
      var date := today - (i - 1);
      var isToday := date == today;
      history := history + [Entry(date, if i == streak && isToday then todayCompleted else true)];
      i := i - 1;
    }
  }

  // ---------------------------------------------------------------------------
  // How the ledger operations move the counts

  lemma {:induction false} CountOnConcat(a: seq<Entry>, b: seq<Entry>, day: int)
    ensures CountOn(a + b, day) == CountOn(a, day) + CountOn(b, day)
  {
    if a == [] {
      assert a + b == b;
    } else {
      assert (a + b)[0] == a[0];
      assert (a + b)[1..] == a[1..] + b;
      CountOnConcat(a[1..], b, day);
    }
  }

  /** Two histories that agree, index by index, on which entries are completed on `day`. */
  lemma {:induction false} CountOnPointwise(a: seq<Entry>, b: seq<Entry>, day: int)
    requires |a| == |b|
    requires forall k :: 0 <= k < |a| ==>
      (a[k].date == day && a[k].completed) == (b[k].date == day && b[k].completed)
    ensures CountOn(a, day) == CountOn(b, day)
  {
    if a != [] {
      assert a[0].date == day && a[0].completed <==> b[0].date == day && b[0].completed;
      CountOnPointwise(a[1..], b[1..], day);
    }
  }

  /** The completed count of a history whose only entry on `day` is at index k. */
  lemma {:induction false} CountOnSingle(history: seq<Entry>, day: int, k: nat)
    requires k < |history| && history[k].date == day
    requires forall j :: 0 <= j < |history| && j != k ==> history[j].date != day
    ensures CountOn(history, day) == if history[k].completed then 1 else 0
  {
    if k == 0 {
      assert !HasEntryOn(history[1..], day) by {
        forall j | 0 <= j < |history[1..]| ensures history[1..][j].date != day {
          assert history[1..][j] == history[j + 1];
        }
      }
    } else {
      assert history[0].date != day;
      forall j | 0 <= j < |history[1..]| && j != k - 1 ensures history[1..][j].date != day {
        assert history[1..][j] == history[j + 1];
      }
      CountOnSingle(history[1..], day, k - 1);
    }
  }

  /** A toggle on `today` leaves the count of every other day unchanged. */
  lemma ToggleHistoryOtherDay(history: seq<Entry>, today: int, day: int)
    requires day != today
    ensures CountOn(ToggleHistory(history, today), day) == CountOn(history, day)
  {
    var r := ToggleHistory(history, today);
    if HasEntryOn(history, today) {
      CountOnPointwise(r, history, day);
    } else {
      CountOnConcat(history, [Entry(today, true)], day);
    }
  }

  /** A toggle on `today` flips today's count between 0 and 1, or sets it to
      1 when the day had no entry. */
  lemma ToggleHistoryToday(history: seq<Entry>, today: int)
    requires DatesUnique(history)
    ensures CountOn(ToggleHistory(history, today), today) ==
      if HasEntryOn(history, today) then 1 - CountOn(history, today) else 1
  {
    var r := ToggleHistory(history, today);
    if HasEntryOn(history, today) {
      var k :| 0 <= k < |history| && history[k].date == today;
      CountOnSingle(history, today, k);
      CountOnSingle(r, today, k);
    } else {
      CountOnConcat(history, [Entry(today, true)], today);
    }
  }

  lemma {:induction false} CompletedOnConcat(a: seq<Habit>, b: seq<Habit>, day: int)
    ensures CompletedOn(a + b, day) == CompletedOn(a, day) + CompletedOn(b, day)
  {
    if a == [] {
      assert a + b == b;
    } else {
      assert (a + b)[0] == a[0];
      assert (a + b)[1..] == a[1..] + b;
      CompletedOnConcat(a[1..], b, day);
    }
  }

  /** Replacing the habit at index k changes the day's count by the
      difference of the two habits' counts. */
  lemma {:induction false} CompletedOnReplace(habits: seq<Habit>, k: nat, h: Habit, day: int)
    requires k < |habits|
    ensures CompletedOn(habits[k := h], day) ==
      CompletedOn(habits, day) - CountOn(habits[k].history, day) + CountOn(h.history, day)
  {
    if k == 0 {
      assert habits[k := h][1..] == habits[1..];
    } else {
      assert habits[k := h][1..] == habits[1..][k - 1 := h];
      CompletedOnReplace(habits[1..], k - 1, h, day);
    }
  }

  lemma {:induction false} CompletedOnPointwise(a: seq<Habit>, b: seq<Habit>, day: int)
    requires |a| == |b|
    requires forall k :: 0 <= k < |a| ==> CountOn(a[k].history, day) == CountOn(b[k].history, day)
    ensures CompletedOn(a, day) == CompletedOn(b, day)
  {
    if a != [] {
      CompletedOnPointwise(a[1..], b[1..], day);
    }
  }

  /** Toggling any habit on `today` changes no other day of the window. */
  lemma CompleteHabitOtherDay(l: Ledger, id: string, today: int, day: int)
    requires day != today
    ensures CompletedOn(CompleteHabit(l, id, today).habits, day) == CompletedOn(l.habits, day)
  {
    var r := CompleteHabit(l, id, today).habits;
    forall k | 0 <= k < |l.habits|
      ensures CountOn(r[k].history, day) == CountOn(l.habits[k].history, day)
    {
      ToggleHistoryOtherDay(l.habits[k].history, today, day);
    }
    CompletedOnPointwise(r, l.habits, day);
  }

  /** Toggling a habit that has no entry today, from either state, appends a
      completed entry and so adds exactly one completion to today, and the
      award of experience to today's chart value. */
  lemma CompleteHabitToday(l: Ledger, id: string, today: int, k: nat)
    requires LedgerValid(l) && k < |l.habits| && l.habits[k].id == id
    requires !HasEntryOn(l.habits[k].history, today)
    ensures CompletedOn(CompleteHabit(l, id, today).habits, today) == CompletedOn(l.habits, today) + 1
  {
    var h := l.habits[k];
    CompleteHabitUnique(l, id, today, k);
    CompletedOnReplace(l.habits, k, ToggleHabit(h, today), today);
    ToggleHistoryToday(h.history, today);
  }

  /** A new habit starts with no history, so it adds no completion to any day. */
  lemma AddHabitKeepsCounts(habits: seq<Habit>, name: string, category: string, newId: string, day: int)
    ensures CompletedOn(AddHabit(habits, name, category, newId), day) == CompletedOn(habits, day)
  {
    if !Blank(name) {
      var h := Habit(newId, name, 0, false, [], category);
      CompletedOnConcat(habits, [h], day);
    }
  }
}
