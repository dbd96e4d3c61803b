/** The habit ledger of the dashboard: the list of habits with their per-day
    completion history, the experience counter kept beside it, and the
    integer summaries shown in the header (level, level progress, longest
    streak). Every operation computes a new value from the old one, as the
    application's handlers compute the new arrays they hand to the state
    setters. Calendar days are integer day numbers; "today" is a parameter. */
module Habits {

  /** One day of a habit's history. */
  datatype Entry = Entry(date: int, completed: bool)

  datatype Habit = Habit(
    id: string,
    name: string,
    streak: int,
    completed: bool,
    history: seq<Entry>,
    category: string)

  /** The two pieces of state a completion toggle updates together. */
  datatype Ledger = Ledger(habits: seq<Habit>, xp: int)

  /** Experience awarded for one completion, and taken back for one un-completion. */
  const XpAward := 10

  /** Experience needed for one level. */
  const XpPerLevel := 100

  // ---------------------------------------------------------------------------
  // Invariants of the ledger

  predicate HasEntryOn(history: seq<Entry>, day: int) {
    exists k :: 0 <= k < |history| && history[k].date == day
  }

  /** At most one history entry per calendar day. */
  predicate DatesUnique(history: seq<Entry>) {
    forall i, j :: 0 <= i < j < |history| ==> history[i].date != history[j].date
  }

  predicate IdsUnique(habits: seq<Habit>) {
    forall i, j :: 0 <= i < j < |habits| ==> habits[i].id != habits[j].id
  }

  predicate HabitValid(h: Habit) {
    h.streak >= 0 && DatesUnique(h.history)
  }

  predicate HabitsValid(habits: seq<Habit>) {
    IdsUnique(habits) && forall k :: 0 <= k < |habits| ==> HabitValid(habits[k])
  }

  predicate LedgerValid(l: Ledger) {
    l.xp >= 0 && HabitsValid(l.habits)
  }

  /** The larger of 0 and n, as the dashboard floors streak and XP at zero. */
  function AtLeastZero(n: int): int {
    if n > 0 then n else 0
  }

  // ---------------------------------------------------------------------------
  // Toggling a habit's completion (handleCompleteHabit)

  /** Today's history after a toggle: an existing entry for today has its
      completion negated; without one, a completed entry for today is appended. */
  function ToggleHistory(history: seq<Entry>, today: int): (r: seq<Entry>)
    ensures HasEntryOn(history, today) ==> |r| == |history|
    ensures HasEntryOn(history, today) ==>
      forall k :: 0 <= k < |r| && history[k].date != today ==> r[k] == history[k]
    ensures HasEntryOn(history, today) ==>
      forall k :: 0 <= k < |r| && history[k].date == today ==>
        r[k].date == today && r[k].completed == !history[k].completed
    ensures !HasEntryOn(history, today) ==> r == history + [Entry(today, true)]
  {
    if HasEntryOn(history, today) then
      seq(|history|, k requires 0 <= k < |history| =>
        if history[k].date == today then history[k].(completed := !history[k].completed)
        else history[k])
    else
      history + [Entry(today, true)]
  }

  /** The experience after one queued update of a toggle. */
  function XpAfterToggle(xp: int, wasCompleted: bool): (r: int)
    ensures xp >= 0 ==> r >= 0
    ensures !wasCompleted ==> r == xp + XpAward
    ensures wasCompleted && xp >= XpAward ==> r == xp - XpAward
    ensures wasCompleted && xp < XpAward ==> r == 0
  {
    if wasCompleted then AtLeastZero(xp - XpAward) else xp + XpAward
  }

  /** The habit a toggle produces from the habit with the matching id. */
  function ToggleHabit(h: Habit, today: int): (r: Habit)
    ensures r.id == h.id && r.name == h.name && r.category == h.category
    ensures r.completed == !h.completed
    ensures !h.completed ==> r.streak == h.streak + 1
    ensures h.completed && h.streak >= 1 ==> r.streak == h.streak - 1
    ensures h.completed && h.streak < 1 ==> r.streak == 0
    ensures r.history == ToggleHistory(h.history, today)
  {
    var wasCompleted := h.completed;
    var newHistory := ToggleHistory(h.history, today);
    var streak := if !wasCompleted then h.streak + 1 else AtLeastZero(h.streak - 1);
    h.(streak := streak, completed := !wasCompleted, history := newHistory)
  }

  /** The list handed to the habit setter: the matching habits toggled, all
      others, the length and the order untouched. */
  function ToggleMatching(habits: seq<Habit>, id: string, today: int): (r: seq<Habit>)
    ensures |r| == |habits|
    ensures forall k :: 0 <= k < |r| && habits[k].id == id ==> r[k] == ToggleHabit(habits[k], today)
    ensures forall k :: 0 <= k < |r| && habits[k].id != id ==> r[k] == habits[k]
  {
    seq(|habits|, k requires 0 <= k < |habits| =>
      if habits[k].id == id then ToggleHabit(habits[k], today) else habits[k])
  }

  /** The experience once the updaters queued by the map callback have run:
      one update per matching habit, in list order. */
  function XpAfterMatching(habits: seq<Habit>, xp: int, id: string): (r: int)
    ensures xp >= 0 ==> r >= 0
    ensures (forall k :: 0 <= k < |habits| ==> habits[k].id != id) ==> r == xp
  {
    if habits == [] then xp
    else
      var xp' := if habits[0].id == id then XpAfterToggle(xp, habits[0].completed) else xp;
      XpAfterMatching(habits[1..], xp', id)
  }

  /** The whole effect of handleCompleteHabit(id) on the day `today`: the list
      keeps its length, order and ids, and the experience stays non-negative. */
  function CompleteHabit(l: Ledger, id: string, today: int): (r: Ledger)
    ensures |r.habits| == |l.habits|
    ensures forall k :: 0 <= k < |r.habits| ==> r.habits[k].id == l.habits[k].id
    ensures forall k :: 0 <= k < |r.habits| ==>
      r.habits[k].completed == (l.habits[k].completed != (l.habits[k].id == id))
    ensures l.xp >= 0 ==> r.xp >= 0
  {
    Ledger(ToggleMatching(l.habits, id, today), XpAfterMatching(l.habits, l.xp, id))
  }

  // ---------------------------------------------------------------------------
  // Adding and deleting habits (addHabit, deleteHabit)

  /** The characters String.prototype.trim removes: the ECMAScript WhiteSpace
      and LineTerminator code points. */
  predicate IsJsSpace(c: char) {
    var n := c as int;
    n == 0x09 || n == 0x0A || n == 0x0B || n == 0x0C || n == 0x0D || n == 0x20 ||
    n == 0xA0 || n == 0x1680 || (0x2000 <= n <= 0x200A) || n == 0x2028 || n == 0x2029 ||
    n == 0x202F || n == 0x205F || n == 0x3000 || n == 0xFEFF
  }

  predicate Blank(s: string) {
    forall k :: 0 <= k < |s| ==> IsJsSpace(s[k])
  }

  /** The number of white-space characters at the start of `s`. */
  function LeadingSpaces(s: string): (i: nat)
    ensures i <= |s|
    ensures forall k :: 0 <= k < i ==> IsJsSpace(s[k])
    ensures i < |s| ==> !IsJsSpace(s[i])
  {
    if s == [] || !IsJsSpace(s[0]) then 0 else 1 + LeadingSpaces(s[1..])
  }

  /** The number of white-space characters at the end of `s`. */
  function TrailingSpaces(s: string): (j: nat)
    ensures j <= |s|
    ensures forall k :: |s| - j <= k < |s| ==> IsJsSpace(s[k])
    ensures j < |s| ==> !IsJsSpace(s[|s| - 1 - j])
  {
    if s == [] || !IsJsSpace(s[|s| - 1]) then 0 else 1 + TrailingSpaces(s[..|s| - 1])
  }

  /** String.prototype.trim: the name with its leading and trailing white space cut. */
  function Trim(s: string): (r: string)
    ensures |r| <= |s|
    ensures r != [] ==> !IsJsSpace(r[0]) && !IsJsSpace(r[|r| - 1])
    ensures exists i, j :: 0 <= i <= j <= |s| && r == s[i..j] && Blank(s[..i]) && Blank(s[j..])
  {
    var i := LeadingSpaces(s);
    var t := s[i..];
    var j := i + |t| - TrailingSpaces(t);
    assert t[..|t| - TrailingSpaces(t)] == s[i..j];
    assert Blank(s[..i]);
    assert Blank(s[j..]) by {
      forall k | 0 <= k < |s[j..]| ensures IsJsSpace(s[j..][k]) {
        assert s[j..][k] == t[|t| - TrailingSpaces(t) + k];
      }
    }
    t[..|t| - TrailingSpaces(t)]
  }

  /** A name trims to the empty string exactly when it is all white space. */
  lemma TrimEmptyIffBlank(s: string)
    ensures Trim(s) == [] <==> Blank(s)
  {
  }

  /** addHabit with the form's current name and category and a fresh id. */
  function AddHabit(habits: seq<Habit>, name: string, category: string, newId: string): (r: seq<Habit>)
    ensures Blank(name) ==> r == habits
    ensures !Blank(name) ==> r == habits + [Habit(newId, name, 0, false, [], category)]
  {
    TrimEmptyIffBlank(name);
    if Trim(name) != [] then habits + [Habit(newId, name, 0, false, [], category)]
    else habits
  }

  /** deleteHabit: keep exactly the habits whose id differs. */
  function DeleteHabit(habits: seq<Habit>, id: string): (r: seq<Habit>)
    ensures |r| <= |habits|
    ensures forall k :: 0 <= k < |r| ==> r[k].id != id
    ensures (forall k :: 0 <= k < |habits| ==> habits[k].id != id) ==> r == habits
  {
    if habits == [] then []
    else (if habits[0].id != id then [habits[0]] else []) + DeleteHabit(habits[1..], id)
  }

  // ---------------------------------------------------------------------------
  // Header summaries

  /** The level: the number of whole hundreds of XP, rounded down for every sign. */
  function Level(xp: int): (level: int)
    ensures level * XpPerLevel <= xp < level * XpPerLevel + XpPerLevel
  {
    xp / XpPerLevel
  }

  /** levelProgress: xp % 100 with JavaScript's remainder, which takes the sign of xp. */
  function LevelProgress(xp: int): (p: int)
    ensures -XpPerLevel < p < XpPerLevel
    ensures xp >= 0 ==> 0 <= p && Level(xp) * XpPerLevel + p == xp
    ensures xp < 0 ==> p <= 0 && (xp - p) % XpPerLevel == 0
  {
    if xp >= 0 then xp % XpPerLevel else -((-xp) % XpPerLevel)
  }

  /** A left fold over the habits from the seed `acc`, keeping the larger of
      the value so far and each habit's streak, the larger only when strictly so. */
  function LongestFrom(habits: seq<Habit>, acc: int): (r: int)
    ensures r >= acc
    ensures forall k :: 0 <= k < |habits| ==> habits[k].streak <= r
    ensures r == acc || exists k :: 0 <= k < |habits| && habits[k].streak == r
  {
    if habits == [] then acc
    else LongestFrom(habits[1..], if habits[0].streak > acc then habits[0].streak else acc)
  }

  /** The longest current streak: the largest streak, or 0 when no streak is positive. */
  function LongestStreak(habits: seq<Habit>): (r: int)
    ensures r >= 0
    ensures forall k :: 0 <= k < |habits| ==> habits[k].streak <= r
    ensures r == 0 || exists k :: 0 <= k < |habits| && habits[k].streak == r
  {
    LongestFrom(habits, 0)
  }

  // ---------------------------------------------------------------------------
  // Properties of the toggle

  lemma ToggleHistoryKeepsDatesUnique(history: seq<Entry>, today: int)
    requires DatesUnique(history)
    ensures DatesUnique(ToggleHistory(history, today))
    ensures HasEntryOn(ToggleHistory(history, today), today)
  {
    var r := ToggleHistory(history, today);
    if !HasEntryOn(history, today) {
      assert r[|history|].date == today;
    } else {
      var k :| 0 <= k < |history| && history[k].date == today;
      assert r[k].date == today;
    }
  }

  /** Toggling twice on the same day restores the history, except that a
      day that had no entry keeps one, now not completed. */
  lemma ToggleHistoryTwice(history: seq<Entry>, today: int)
    ensures ToggleHistory(ToggleHistory(history, today), today) ==
      if HasEntryOn(history, today) then history else history + [Entry(today, false)]
  {
    var once := ToggleHistory(history, today);
    var twice := ToggleHistory(once, today);
    if HasEntryOn(history, today) {
      var k :| 0 <= k < |history| && history[k].date == today;
      assert once[k].date == today;
      assert |twice| == |history|;
      forall j | 0 <= j < |history| ensures twice[j] == history[j] {
        assert once[j].date == history[j].date;
      }
    } else {
      assert once[|history|].date == today;
      assert |twice| == |history| + 1;
      forall j | 0 <= j < |history| ensures twice[j] == history[j] {
        assert once[j] == history[j];
      }
    }
  }

  /** Toggling a habit from incomplete and back on the same day restores it,
      history aside; its streak never goes negative. */
  lemma ToggleHabitTwice(h: Habit, today: int)
    requires !h.completed && h.streak >= 0
    ensures ToggleHabit(ToggleHabit(h, today), today) ==
      h.(history := if HasEntryOn(h.history, today) then h.history
                    else h.history + [Entry(today, false)])
  {
    ToggleHistoryTwice(h.history, today);
  }

  /** If today's entry agreed with the completion flag, it still agrees after a toggle. */
  lemma ToggleKeepsTodayAgreement(h: Habit, today: int)
    requires DatesUnique(h.history)
    requires forall k :: 0 <= k < |h.history| && h.history[k].date == today ==>
      h.history[k].completed == h.completed
    requires HasEntryOn(h.history, today) || !h.completed
    ensures var r := ToggleHabit(h, today);
      forall k :: 0 <= k < |r.history| && r.history[k].date == today ==>
        r.history[k].completed == r.completed
  {
  }

  /** As written, un-completing a habit left completed from an earlier day,
      with no entry yet for today, records today as completed. */
  lemma UncompleteWithoutEntryRecordsCompletion(h: Habit, today: int)
    requires h.completed && !HasEntryOn(h.history, today)
    ensures var r := ToggleHabit(h, today);
      !r.completed && r.history[|r.history| - 1] == Entry(today, true)
  {
  }

  /** With unique ids, exactly one experience update is applied: the one for
      the habit at index k. */
  lemma {:induction false} XpAfterMatchingSingle(habits: seq<Habit>, xp: int, id: string, k: nat)
    requires k < |habits| && habits[k].id == id
    requires forall j :: 0 <= j < |habits| && j != k ==> habits[j].id != id
    ensures XpAfterMatching(habits, xp, id) == XpAfterToggle(xp, habits[k].completed)
  {
    if k == 0 {
      assert forall j :: 0 <= j < |habits[1..]| ==> habits[1..][j].id == habits[j + 1].id;
    } else {
      assert habits[0].id != id;
      forall j | 0 <= j < |habits[1..]| && j != k - 1 ensures habits[1..][j].id != id {
        assert habits[1..][j] == habits[j + 1];
      }
      XpAfterMatchingSingle(habits[1..], xp, id, k - 1);
    }
  }

  /** handleCompleteHabit on a unique id changes that habit and the experience and nothing else. */
  lemma CompleteHabitUnique(l: Ledger, id: string, today: int, k: nat)
    requires IdsUnique(l.habits) && k < |l.habits| && l.habits[k].id == id
    ensures CompleteHabit(l, id, today) ==
      Ledger(l.habits[k := ToggleHabit(l.habits[k], today)], XpAfterToggle(l.xp, l.habits[k].completed))
  {
    XpAfterMatchingSingle(l.habits, l.xp, id, k);
    var r := ToggleMatching(l.habits, id, today);
    assert r == l.habits[k := ToggleHabit(l.habits[k], today)];
  }

  /** handleCompleteHabit on an id no habit carries changes nothing. */
  lemma CompleteHabitAbsent(l: Ledger, id: string, today: int)
    requires forall k :: 0 <= k < |l.habits| ==> l.habits[k].id != id
    ensures CompleteHabit(l, id, today) == l
  {
  }

  /** Toggling keeps streaks and experience non-negative, history dates unique and ids unique. */
  lemma CompleteHabitKeepsValid(l: Ledger, id: string, today: int)
    requires LedgerValid(l)
    ensures LedgerValid(CompleteHabit(l, id, today))
  {
  }

  /** Toggling a habit from incomplete and back on the same day restores the
      ledger, except that the habit keeps exactly one entry for today, not completed. */
  lemma CompleteHabitTwice(l: Ledger, id: string, today: int, k: nat)
    requires LedgerValid(l) && k < |l.habits| && l.habits[k].id == id && !l.habits[k].completed
    requires forall j :: 0 <= j < |l.habits[k].history| && l.habits[k].history[j].date == today ==>
      !l.habits[k].history[j].completed
    ensures var r := CompleteHabit(CompleteHabit(l, id, today), id, today);
      var h := l.habits[k];
      r.xp == l.xp &&
      r.habits == l.habits[k := h.(history := r.habits[k].history)] &&
      DatesUnique(r.habits[k].history) && HasEntryOn(r.habits[k].history, today) &&
      forall j :: 0 <= j < |r.habits[k].history| && r.habits[k].history[j].date == today ==>
        !r.habits[k].history[j].completed
  {
    var h := l.habits[k];
    var once := CompleteHabit(l, id, today);
    CompleteHabitUnique(l, id, today, k);
    assert once.habits[k] == ToggleHabit(h, today);
    assert IdsUnique(once.habits) by {
      assert forall j :: 0 <= j < |once.habits| ==> once.habits[j].id == l.habits[j].id;
    }
    CompleteHabitUnique(once, id, today, k);
    ToggleHabitTwice(h, today);
    ToggleHistoryKeepsDatesUnique(h.history, today);
    ToggleHistoryKeepsDatesUnique(ToggleHistory(h.history, today), today);
    var hist := ToggleHistory(ToggleHistory(h.history, today), today);
    if !HasEntryOn(h.history, today) {
      assert forall j :: 0 <= j < |h.history| ==> hist[j] == h.history[j];
    }
  }

  // ---------------------------------------------------------------------------
  // Properties of adding and deleting

  /** Adding a habit under an id no habit carries keeps the ledger valid. */
  lemma AddHabitKeepsValid(habits: seq<Habit>, name: string, category: string, newId: string)
    requires HabitsValid(habits)
    requires forall k :: 0 <= k < |habits| ==> habits[k].id != newId
    ensures HabitsValid(AddHabit(habits, name, category, newId))
  {
  }

  lemma {:induction false} DeleteHabitKeepsValid(habits: seq<Habit>, id: string)
    requires HabitsValid(habits)
    ensures HabitsValid(DeleteHabit(habits, id))
  {
    if habits != [] {
      var tail := habits[1..];
      assert HabitsValid(tail) by {
        assert forall k :: 0 <= k < |tail| ==> tail[k] == habits[k + 1];
      }
      DeleteHabitKeepsValid(tail, id);
      var rest := DeleteHabit(tail, id);
      var r := DeleteHabit(habits, id);
      if habits[0].id != id {
        forall j | 0 <= j < |rest| ensures rest[j].id != habits[0].id {
          DeleteHabitMembers(tail, id, rest[j]);
          var i :| 0 <= i < |tail| && tail[i] == rest[j];
          assert tail[i] == habits[i + 1];
        }
        assert r == [habits[0]] + rest;
      } else {
        assert r == rest;
      }
    }
  }

  /** The survivors of a delete are exactly the habits with another id. */
  lemma {:induction false} DeleteHabitMembers(habits: seq<Habit>, id: string, h: Habit)
    ensures h in DeleteHabit(habits, id) <==> h in habits && h.id != id
  {
    if habits != [] {
      DeleteHabitMembers(habits[1..], id, h);
      assert h in habits <==> h == habits[0] || h in habits[1..];
    }
  }

  /** Deleting distributes over concatenation: the survivors keep their relative order. */
  lemma {:induction false} DeleteHabitConcat(a: seq<Habit>, b: seq<Habit>, id: string)
    ensures DeleteHabit(a + b, id) == DeleteHabit(a, id) + DeleteHabit(b, id)
  {
    if a == [] {
      assert a + b == b;
    } else {
      var head := if a[0].id != id then [a[0]] else [];
      assert (a + b)[0] == a[0];
      assert (a + b)[1..] == a[1..] + b;
      assert DeleteHabit(a + b, id) == head + DeleteHabit(a[1..] + b, id);
      DeleteHabitConcat(a[1..], b, id);
      assert DeleteHabit(a, id) == head + DeleteHabit(a[1..], id);
    }
  }
}
