# Habit tracker bookkeeping, modelled and proved in Dafny

This project models the logic of a single-page habit tracker. Users register
and log in against a credential store kept in browser storage. They add, delete
and check off daily habits, and earn experience points (XP). Three modules
follow the two source files:

- `Habits` (`habits.dfy`) models the habit ledger of `src/App.tsx`. It covers
  the completion toggle with its streak and XP updates and today's history
  entry, adding a habit behind a blank-name check, deleting by id, the level
  and level progress derived from XP, and the longest current streak. These
  handlers compute new arrays from old ones, so the model writes them as pure
  functions.
- `Progress` (`progress.dfy`) models the two generators of `src/App.tsx`. Each
  fills a local list inside a counting loop, so each is a method with a `while`
  loop: the seven-day progress window and the synthetic history.
  - The window's contract uses one count, the number of completed history
    entries on a day summed over all habits.
  - A lemma proves the dashboard's flatMap-and-filter formulation equal to that
    count.
  - Further lemmas tie the count to the toggle: a toggle changes no other day,
    and toggling a habit with no entry today adds exactly one completion.
- `Auth` (`auth.dfy`) models `handleSubmit` of `src/AuthModal.tsx`.
  - The browser storage is a `Store` object holding a map from keys to values.
  - The dialog is an `AuthModal` object holding its mode and its error message.
  - `HandleSubmit` follows the dialog's early returns, and its contract gives
    the whole new state on every path.
  - The username passed to the login callback is the method's result.

Calendar days are integer day numbers, and "today" is a parameter. The id of a
new habit is a parameter, assumed fresh. Streaks and XP are unbounded Dafny
`int`s. Nothing in their type keeps them non-negative, so the model proves that
each operation keeps them non-negative (`LedgerValid`).

Three behaviours of the code worth knowing:

- Un-completing a habit with no entry for today appends a completed entry for
  today (`Habits.UncompleteWithoutEntryRecordsCompletion`). That happens when a
  habit left completed on an earlier day is un-completed. The model keeps this.
  Two more toggles then leave that entry for today completed, so the double
  toggle restores today's state only when no entry for today was completed
  (`Habits.CompleteHabitTwice`).
- No code resets a streak after a missed day, so the model has no such rule.
- `src/App.tsx` loads and saves under the keys `habits` and `xp`. The
  registration initialises `habits_<user>` and `xp_<user>`. The model keeps
  both as the code has them; nothing links the two sets of keys.

## Model

| member | source | states |
|---|---|---|
| `Habits.ToggleHistory` | src/App.tsx:105-107 | with an entry for today: same length, other days untouched, today's entries negated; without one: exactly `{today, true}` appended |
| `Habits.XpAfterToggle` | src/App.tsx:115 | +10 from incomplete; from complete, −10 floored at 0; never negative from a non-negative start |
| `Habits.ToggleHabit` | src/App.tsx:101-122 | id, name and category kept; `completed` negated; streak +1, or −1 floored at 0; history as `ToggleHistory` |
| `Habits.ToggleMatching` | src/App.tsx:100-102 | same length and order; habits with the id toggled, every other habit unchanged |
| `Habits.XpAfterMatching` | src/App.tsx:100-115 | the XP after one queued update per matching habit; non-negative from a non-negative start; unchanged when no habit matches |
| `Habits.CompleteHabit` | src/App.tsx:99-126 | the list keeps its length, order and ids; exactly the habits with the id flip `completed`; XP stays non-negative from a non-negative start |
| `Habits.CompleteHabitUnique` | src/App.tsx:99-126 | with unique ids, the toggle replaces exactly habit k and applies exactly one XP update |
| `Habits.CompleteHabitAbsent` | src/App.tsx:99-126 | toggling an id no habit carries leaves habits and XP unchanged |
| `Habits.CompleteHabitKeepsValid` | src/App.tsx:99-126 | streaks and XP stay non-negative, history dates and habit ids stay unique |
| `Habits.ToggleHistoryKeepsDatesUnique` | src/App.tsx:105-107 | a toggle keeps at most one entry per day and always leaves an entry for today |
| `Habits.ToggleHistoryTwice` | src/App.tsx:105-107 | two toggles on one day restore the history, plus one not-completed entry for a day that had none |
| `Habits.ToggleHabitTwice` | src/App.tsx:99-126 | for a non-negative streak, two toggles from incomplete restore streak and completion; only the history changes, as `ToggleHistoryTwice` gives it |
| `Habits.CompleteHabitTwice` | src/App.tsx:99-126 | when no entry for today is completed, two toggles from incomplete restore XP and every other habit, and the habit keeps exactly one entry for today, not completed |
| `Habits.ToggleKeepsTodayAgreement` | src/App.tsx:102-113 | if today's entry agreed with `completed` (or there was none and the habit was open), it still agrees after the toggle |
| `Habits.UncompleteWithoutEntryRecordsCompletion` | src/App.tsx:105-113 | un-completing a habit with no entry today marks it incomplete but records today as completed |
| `Habits.Trim` | src/App.tsx:129 | the result is a slice of the name with only white space cut before and after it, and neither starts nor ends with white space |
| `Habits.TrimEmptyIffBlank` | src/App.tsx:129 | a name trims to empty exactly when every character is JavaScript white space |
| `Habits.AddHabit` | src/App.tsx:128-139 | a blank name leaves the list unchanged; otherwise exactly one habit is appended, with the untrimmed name, streak 0, not completed, no history |
| `Habits.AddHabitKeepsValid` | src/App.tsx:128-139 | adding under a fresh id keeps ids unique and every habit valid |
| `Habits.DeleteHabit` | src/App.tsx:144-146 | no survivor has the id; an absent id leaves the list unchanged |
| `Habits.DeleteHabitMembers` | src/App.tsx:144-146 | a habit survives exactly when it was present with a different id |
| `Habits.DeleteHabitConcat` | src/App.tsx:144-146 | deleting distributes over concatenation, so survivors keep their relative order |
| `Habits.DeleteHabitKeepsValid` | src/App.tsx:144-146 | deleting keeps ids unique and every habit valid |
| `Habits.Level` | src/App.tsx:148 | the level is the floor of xp / 100: `level*100 <= xp < level*100 + 100` |
| `Habits.LevelProgress` | src/App.tsx:149 | for xp ≥ 0, `Level(xp)*100 + p == xp` and `0 <= p < 100`; for negative xp the JavaScript remainder lies in (−100, 0] |
| `Habits.LongestFrom` | src/App.tsx:327-328 | the fold is at least its seed, bounds every streak, and is the seed or some habit's streak |
| `Habits.LongestStreak` | src/App.tsx:327-328 | non-negative, bounds every streak, and is 0 or the streak of some habit: the maximum, or 0 for no positive streak |
| `Progress.CountOn` | src/App.tsx:81-84 | at most the history's length; 0 for a day with no entry |
| `Progress.FilterDay` | src/App.tsx:81 | an entry is kept exactly when it is in the history and dated that day |
| `Progress.EntriesOn` | src/App.tsx:80-82 | an entry is in the flatMap exactly when it is dated that day and in some habit's history |
| `Progress.CompletedEntries` | src/App.tsx:84 | an entry is kept exactly when it is in the list and completed; the result never grows |
| `Progress.EntriesOnCount` | src/App.tsx:80-84 | the flatMap-and-filter count equals the per-habit sum of completed entries on that day |
| `Progress.GenerateProgressData` | src/App.tsx:72-97 | exactly 7 entries for today−6 … today ascending; each with the day's completed count over all habits, the current habit count, and 10 XP per completion |
| `Progress.GenerateHistory` | src/App.tsx:57-70 | `max(0, streak)` entries on consecutive days ending today, dates unique; all completed except that `todayCompleted` applies when streak is 1 |
| `Progress.ToggleHistoryOtherDay` | src/App.tsx:105-107 | a toggle on today leaves every other day's completed count unchanged |
| `Progress.ToggleHistoryToday` | src/App.tsx:105-107 | with unique dates, a toggle flips today's count between 0 and 1, or sets it to 1 for a new entry |
| `Progress.CompleteHabitOtherDay` | src/App.tsx:72-126 | a toggle changes no other day of the progress window |
| `Progress.CompleteHabitToday` | src/App.tsx:72-126 | toggling a valid ledger's habit with no entry today, from either state, adds exactly 1 to today's count |
| `Progress.AddHabitKeepsCounts` | src/App.tsx:72-97 | adding a habit changes no day's completed count |
| `Auth.LoadUsers` | src/AuthModal.tsx:15 | the stored records, or the empty record `{}` when the key is missing or holds something else |
| `Auth.PerUserKeysDistinct` | src/AuthModal.tsx:28-30 | `users`, `HabitsKey(u)` = `habits_<u>` and `XpKey(u)` = `xp_<u>` never collide, and each per-user key determines its user |
| `Auth.Store.constructor` | src/AuthModal.tsx:15 | storage starts out holding the given key-value map |
| `Auth.Store.SetItem` | src/AuthModal.tsx:28-30 | a write replaces exactly one key |
| `Auth.AuthModal.constructor` | src/AuthModal.tsx:9-12 | the dialog starts in login mode with no message |
| `Auth.AuthModal.HandleSubmit` | src/AuthModal.tsx:14-39 | an empty field gives the empty-fields error before any other check and writes nothing; a taken name gives the duplicate error and writes nothing; a new name gains exactly its record, `habits_<u>` = [] and `xp_<u>` = 0, and logs in; login writes nothing and succeeds exactly on a matching record, otherwise gives the credentials error |
| `Auth.AuthModal.ToggleMode` | src/AuthModal.tsx:59 | switches mode and clears the message |
| `Auth.RegisterThenLogin` | src/AuthModal.tsx:27-37 | after a successful registration, a login with the same credentials succeeds |
| `Auth.LookupAsWritten` | src/AuthModal.tsx:23-33 | what `users[username]` yields: an own key gives its password, an `Object.prototype` name that is not an own key is inherited, anything else is missing |
| `Auth.DuplicateAsWritten` | src/AuthModal.tsx:23 | as written, a name counts as taken when it is registered or is an inherited `Object.prototype` member |
| `Auth.PrototypeNameRefusedAsWritten` | src/AuthModal.tsx:23 | as written, "constructor" is refused as taken on an empty record set |
| `Auth.LoginAcceptedAsWritten` | src/AuthModal.tsx:33 | the login test as written accepts exactly an own record with the same password |

## Findings

| source | as written | input that shows it | evidently intended | confidence | as-written member | corrected member |
|---|---|---|---|---|---|---|
| src/AuthModal.tsx:23 | `if (users[username])` on a plain object also sees members inherited from `Object.prototype` | register `constructor` (or `toString`, `__proto__`, …) with any password on an empty store: "Usuário já existe" | only a registered username is a duplicate | high; not executed | `Auth.PrototypeNameRefusedAsWritten` | `Auth.AuthModal.HandleSubmit` |

## Left out

- Auth.AuthModal.HandleSubmit: looks up only the user's own records. The inherited names refused as written are modelled apart (`Auth.DuplicateAsWritten`, see Findings). The login test is unaffected (`Auth.LoginAcceptedAsWritten`).
- React state hooks, the `useEffect` persistence wiring, recharts and all rendering: presentation, with no logic to model.
- Date formatting with `date-fns` (`format`, `subDays`, `isToday`): days are integer day numbers. The weekday label (`day`) of a progress entry is omitted. So is the chance that the clock passes midnight between two reads.
- `Math.random` id generation: the id is a parameter, assumed fresh.
- Bar-chart ratio and seven-day average: floating-point percentages that divide by zero for an empty list.
- Resetting the add-habit form after an add (`setNewHabit`) and the field-edit handlers: UI state, not ledger state.
- `src/utils/storage.ts`: JSON encoding, parse failures and write failures are not modelled. Every write succeeds. A `users` key that is missing or holds anything but user records reads as no records.
- The login callback: only its argument is modelled, as `HandleSubmit`'s result. What the caller does with it is not part of this model.
- Progress.GenerateHistory: the `todayCompleted` argument defaults to false in the dashboard; the model takes it as an ordinary parameter, since nothing calls the function.
- Streaks and XP that storage might deliver as non-integers: these are integers in the model.
- JavaScript numbers are doubles, exact for integers only up to 2^53. The model's unbounded `int` does not capture the precision lost above that, which no realistic streak or XP reaches.
- Assigning to `users["__proto__"]` replaces the record set's prototype in JavaScript. This only arises on a path that the code as written refuses.
