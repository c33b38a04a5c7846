# HabitTracker core, modelled in Dafny

A model of the HabitTracker application's core. It has three parts:

- The habit store (`HabitManager`). It keeps an in-memory list of habits and
  an id counter. It loads the list from a storage collaborator and saves the
  whole list back after every change. It offers add, delete, list,
  find-by-name and the per-day "mark done" transition.
- The XP arithmetic (`XPSystem`). It computes the award for one action and
  turns a running total into level-ups.
- The in-memory storage (`MockStorage`). Every save replaces the stored list
  as a whole.

Files:

- `contracts.dfy` (module `Contracts`): the `Habit` entity, the raw stored
  record `RawHabit` (every key optional), and the two conversions between
  them.
- `xp_system.dfy` (module `XpSystem`): `CalculateXp` and the loop `ApplyXp`.
- `mock_storage.dfy` (module `Storage`): class `MockStorage`.
- `habit_manager.dfy` (module `Habits`): class `HabitManager`, plus the pure
  functions that specify it: `FromRecords`/`ToRecords`, `NextId`,
  `IndexOfId`, `Completed`.

The store's class invariant `Valid()` says the id counter is above every id
in the list. It holds after every load and every operation keeps it. Ids are
not always unique: storage may already hold duplicates. So the model proves
that every operation preserves uniqueness when it held before.

Clock reads become parameters. `AddHabit` takes the creation time `now`, and
`MarkDone` takes the ISO date `today`. The stateless XP object becomes plain
module functions, so the store's constructor takes only the storage.

## Model

| member | source | states |
|---|---|---|
| `Contracts.ContractToDict` | src/myapp/business_logic/habit_manager.py:36-49 | every key is written with the habit's own value (id, name, description, frequency, done flag, history); a creation time is written exactly when the habit has one |
| `Contracts.ParseCreatedAt` | src/myapp/business_logic/habit_manager.py:53-58 | a creation time is read only from a present, non-empty text, and is that text |
| `Contracts.DictToContract` | src/myapp/business_logic/habit_manager.py:51-68 | the id is copied; a missing name or description becomes "", a missing frequency "daily", a missing done flag false, a missing or null history []; present values are kept; the creation time is read as `ParseCreatedAt` reads it |
| `Contracts.EmptyRecordDefaults` | src/myapp/business_logic/habit_manager.py:59-67 | a record with no keys loads as the default habit (no id, "", "", "daily", false, no time, []) |
| `Contracts.ContractRoundTrip` | src/myapp/business_logic/habit_manager.py:41-67 | converting a habit to a record and back gives the same habit, all fields included |
| `Contracts.DictNormalises` | src/myapp/business_logic/habit_manager.py:41-67 | reading a record and writing it back fills in exactly the missing keys with their defaults (name, description, frequency, done flag, history); a creation time survives exactly when it was present and non-empty |
| `XpSystem.CalculateXp` | src/myapp/business_logic/xp_system.py:12-25 | the award is at least 10 and a multiple of 10; any amount up to 1 gives exactly 10; an amount of 1 or more gives 10 times the amount |
| `XpSystem.CalculateXpMonotone` | src/myapp/business_logic/xp_system.py:25 | a larger progress amount never earns less |
| `XpSystem.ApplyXp` | src/myapp/business_logic/xp_system.py:27-45 | remainder + 100 * levelUps equals current + delta, with levelUps >= 0 and remainder < 100; a non-negative total gives (total % 100, total / 100); a total below 100, negative ones included, comes back unchanged with no level-up; the loop terminates |
| `Storage.MockStorage.constructor` | src/myapp/dummies/mock_storage.py:9-10 | no initial list gives empty storage; otherwise the storage holds the given list (an empty list gives empty storage) |
| `Storage.MockStorage.LoadHabits` | src/myapp/dummies/mock_storage.py:12-13 | returns the stored records, in order, and changes nothing |
| `Storage.MockStorage.SaveHabits` | src/myapp/dummies/mock_storage.py:15-17 | the stored records become exactly the saved list (a replace, not an append) |
| `Storage.SaveThenLoad` | src/myapp/dummies/mock_storage.py:12-17 | a save followed by a load returns what was saved |
| `Storage.LastWriteWins` | src/myapp/dummies/mock_storage.py:15-17 | after two saves a load returns only the second payload |
| `Habits.ToRecords` | src/myapp/business_logic/habit_manager.py:86 | the save payload has one record per habit, in the same order, each the habit's conversion |
| `Habits.FromRecords` | src/myapp/business_logic/habit_manager.py:79 | the loaded list has one habit per stored record, in the same order, each the record's conversion |
| `Habits.RecordsRoundTrip` | src/myapp/business_logic/habit_manager.py:78-87 | saving a list of habits and loading it again gives the same list |
| `Habits.IdsOf` | src/myapp/business_logic/habit_manager.py:81 | the collected ids are exactly the ids that are present, habits without an id skipped |
| `Habits.MaxOf` | src/myapp/business_logic/habit_manager.py:82 | the result is an element of the non-empty list and no element is larger |
| `Habits.NextId` | src/myapp/business_logic/habit_manager.py:80-82 | the counter after a load is above every id, equals some id plus one when any habit has an id, and is 1 when none has |
| `Habits.NextIdAtMost` | src/myapp/business_logic/habit_manager.py:80-82 | when some habit has an id, reloading never sets the counter above one that was already above every id |
| `Habits.IndexOfId` | src/myapp/business_logic/habit_manager.py:157 | finds the first position with that id, or reports that no habit has it |
| `Habits.AppendFreshId` | src/myapp/business_logic/habit_manager.py:104-114 | appending a habit with the counter's id, then counting on, keeps the counter above every id and keeps ids unique |
| `Habits.RemoveAt` | src/myapp/business_logic/habit_manager.py:127 | the list loses exactly the element at position k; the elements before it stay in place and those after it move down by one |
| `Habits.RemoveAtKeepsIds` | src/myapp/business_logic/habit_manager.py:125-127 | removing one habit keeps the counter invariant and uniqueness; with unique ids the removed id no longer occurs |
| `Habits.Completed` | src/myapp/business_logic/habit_manager.py:163-171 | a completion leaves the habit done with its history ending with today; the old history stays a prefix and at most one entry is added; id, name, description, frequency and creation time are kept |
| `Habits.CompletedAppendsOnce` | src/myapp/business_logic/habit_manager.py:161-171 | a completion sets the done flag, leaves the history ending with today, appends today only if it was not already last, and changes no other field |
| `Habits.CompletedIdempotent` | src/myapp/business_logic/habit_manager.py:163-168 | completing a habit a second time on the same day changes nothing |
| `Habits.CompletedTwoDays` | src/myapp/business_logic/habit_manager.py:163-170 | completions on two different new days append both dates, in call order |
| `Habits.CompletedNoRepeatedDay` | src/myapp/business_logic/habit_manager.py:162-170 | a completion never puts the same date twice in a row into the history |
| `Habits.CompletedNoDuplicates` | src/myapp/business_logic/habit_manager.py:162-170 | a history without duplicates stays without duplicates when today is new to it or already its last entry |
| `Habits.HabitManager.constructor` | src/myapp/business_logic/habit_manager.py:22-27 | the new store holds the loaded habits and the computed counter; the storage is not changed |
| `Habits.HabitManager.Load` | src/myapp/business_logic/habit_manager.py:73-82 | the list becomes the stored records converted in order; the counter becomes `NextId` of that list; the invariant holds |
| `Habits.HabitManager.Save` | src/myapp/business_logic/habit_manager.py:84-87 | the storage holds the whole list, converted in order |
| `Habits.HabitManager.AddHabit` | src/myapp/business_logic/habit_manager.py:92-116 | returns a habit with the old counter as id, not done, an empty history and the given fields; appends it; the counter goes up by exactly 1; the new id is above every earlier id; uniqueness is kept; the whole list is saved |
| `Habits.HabitManager.DeleteHabit` | src/myapp/business_logic/habit_manager.py:118-130 | returns true exactly when some habit has the id; then removes only the first such habit, keeps the rest in order and saves; otherwise changes and saves nothing; with unique ids no habit with that id is left |
| `Habits.HabitManager.GetAll` | src/myapp/business_logic/habit_manager.py:132-134 | returns a list equal to the current habits |
| `Habits.HabitManager.FindByName` | src/myapp/business_logic/habit_manager.py:136-141 | returns the first habit in list order with exactly that name, or nothing when no habit has it |
| `Habits.HabitManager.MarkDone` | src/myapp/business_logic/habit_manager.py:146-178 | an unknown id returns nothing and changes and saves nothing; otherwise only the first habit with the id becomes its completion for today and the list is saved; the result is (0, 0) when today was already last in the history, else (CalculateXp(progressAmount), 0); ids and the counter are unchanged |
| `Habits.SuccessiveAdds` | src/myapp/business_logic/habit_manager.py:104-116 | two adds in a row return consecutive, increasing ids and keep ids unique |
| `Habits.MarkDoneTwiceSameDay` | src/myapp/business_logic/habit_manager.py:157-178 | two same-day calls leave the habit as after one completion, so at most one history entry is added; the second call awards (0, 0) |
| `Habits.OpenEmpty` | src/myapp/business_logic/habit_manager.py:78-82 | a store opened on empty storage is empty and its counter is 1 |
| `Habits.AddThenReopen` | src/myapp/business_logic/habit_manager.py:78-116 | after an add, a second store opened on the same storage holds the same habits, and its counter is no higher |

## Left out

- The JSON file adapter is not part of this model. Its "missing or corrupt file gives an empty list" behaviour is covered because the store accepts any stored list, the empty one included.
- The abstract storage interface is not modelled as a separate type. The store is written against `MockStorage`, the only storage without file I/O.
- The GUI and the two command-line entry points are not part of this model. They only call the store.
- Clock reads (`datetime.utcnow()`) are parameters: `now` for `AddHabit` and `today` for `MarkDone`.
- Contracts.ParseCreatedAt: ISO-8601 parsing is not modelled. A creation time is kept as its text, and any non-empty text is accepted, so the path where `fromisoformat` rejects a malformed text and leaves no time is not captured.
- Python's dynamic typing of raw values is not modelled. For example, a key present with a null name would load as null; in the model a record field is either a value or missing, and missing gets the default.
- Value semantics replace Python's object sharing, and the model does not capture what that sharing makes visible. In the source a habit's history list is put into its record as the same list object, the storage copies only the outer list and the dicts, and a load hands a non-empty history list back unchanged. So two stores opened on the same storage share each habit's history list: after the first store marks a habit done today, the second store's `mark_done` on it finds today already last and awards 0 XP, while the model's second store still awards XP. Likewise a habit object obtained earlier from `add_habit`, `get_all` or `find_by_name` shows later `mark_done` changes in the source; in the model it is a value that keeps its old fields.
- The date passed to `MarkDone` is unconstrained, so the model's clock may go back. The source only ever appends the current UTC date, which avoids duplicates in a history. The model proves that no date is appended right after itself (`CompletedNoRepeatedDay`), and no duplicates at all only when today is new to the history or already its last entry (`CompletedNoDuplicates`).
- Integers are unbounded, as in Python.
- A running XP total is not tracked. `mark_done` never calls `apply_xp` and always reports 0 level-ups; the model does the same.
- Save failures are not modelled: the in-memory storage cannot fail.
