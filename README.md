# Habit tracker model

A Dafny model of a small personal habit tracker. A **habit** has a name and
a list of the dates on which it was done. The **tracker** holds habits in
insertion order and looks them up by exact name. It can add a habit, delete
one, or mark one done today, and after each successful change it saves the
whole collection. Its report gives, for every habit in order, the name, the
current **streak** and the **weekly count**:

- the streak is the number of consecutive completed days counted back from today;
- the weekly count is how many of the last seven days, today included, were completed.

Dates are day numbers (`Days.Day = int`), so the day before `d` is `d - 1`.
The current date is a `today` parameter of every operation that needs it.

Files:

- `wrappers.dfy`: the `Option` type.
- `days.dfy`: module `Days`. Pure functions over completion lists: marking a day done (`WithDay`), the streak (`StreakLength`), the seven-day window (`LastWeek`) and the weekly count (`WeeklyCount`), each with lemmas.
- `habits.dfy`: module `Habits`. The portable record `HabitRecord`, which is what `to_dict` builds, and the class `Habit`. Its `MarkDoneToday` updates the list in place. Its `Streak` is the backward-walking loop, proved equal to `StreakLength`.
- `tracker.dfy`: module `Tracker`. The class `HabitTracker` holds a `seq<Habit>`. `Records()` gives its contents as values: the snapshot a save writes. The ghost field `saved` records the last save. Pure functions (`FirstMatch`, `RemoveAt`, `UniqueNames`) specify its methods. The file ends with two end-to-end scenarios.

The tracker's invariant, `Valid()`, says only that no habit object is held
twice. The source enforces nothing more: a loaded file may hold duplicate
names or duplicate dates. So unique names are not assumed. They are shown to
be preserved: if the names were unique before an operation, they still are
after it.

## Model

| member | source | states |
|---|---|---|
| `Habits.Habit.constructor` | habit_tracker.py:7-9 | a habit gets the given name and history; a missing history (`None`) becomes the empty list |
| `Days.WithDay` | habit_tracker.py:11-14 | marking a day done keeps the old list as a prefix, adds exactly `today` to the set of dates, grows the list only when `today` was absent, and keeps a duplicate-free list duplicate-free |
| `Habits.Habit.MarkDoneToday` | habit_tracker.py:11-14 | the history becomes `WithDay` of the old history; the name does not change |
| `Days.MarkedTimesIsMarkedOnce` | habit_tracker.py:11-14 | marking the same day done n >= 1 times equals marking it once, and leaves exactly one entry for a day that was absent |
| `Days.StreakLength` | habit_tracker.py:16-25 | every day in (today - k, today] is completed, today - k is not, and k is at most the number of distinct dates |
| `Days.StreakCharacterized` | habit_tracker.py:16-25 | the streak equals k if and only if the k days ending today are completed and the day before them is not |
| `Days.StreakExamples` | habit_tracker.py:16-25 | {today, today-1, today-2} gives 3; no dates gives 0; yesterday and the day before without today gives 0 |
| `Habits.Habit.Streak` | habit_tracker.py:16-25 | the backward loop over the set of dates returns `StreakLength`; the number of dates not yet walked over is its termination measure |
| `Days.WindowMembers` | habit_tracker.py:29 | the dates today - 0 … today - (n-1) are exactly those in (today - n, today], and there are n of them |
| `Days.LastWeek` | habit_tracker.py:29 | the last week holds exactly the dates in [today - 6, today], seven of them |
| `Days.WeeklyCount` | habit_tracker.py:27-31 | the size of the overlap of the distinct dates with the last week, at most 7 |
| `Days.WindowHitsCounts` | habit_tracker.py:29-31 | the overlap of a date set with an n-day window has the size of the day-by-day count of completed window days |
| `Days.WeeklyCountByDay` | habit_tracker.py:27-31 | the weekly count equals the number of the seven days ending today that are completed |
| `Days.WeeklyIgnoresRepeatsAndOldDays` | habit_tracker.py:27-31 | appending a date already present, or one outside the last week, leaves the weekly count unchanged |
| `Days.WeeklyExample` | habit_tracker.py:27-31 | dates today, today-3 and today-8 give a weekly count of 2 |
| `Days.MarkedDayCounts` | habit_tracker.py:11-31 | after today is marked done, the streak and the weekly count are both at least 1 |
| `Habits.Habit.FromDict` | habit_tracker.py:39-41 | the rebuilt habit is fresh and its portable form is exactly the given record |
| `Habits.RoundTrip` | habit_tracker.py:33-41 | converting a habit to its record and back gives a fresh habit with the same name and the same list of dates, in the same order |
| `Tracker.Snapshot` | habit_tracker.py:57-59 | the saved collection has one record per habit, in order, each the habit's portable form |
| `Tracker.HabitTracker.constructor` | habit_tracker.py:48-54 | a tracker built from loaded records holds fresh, distinct habits whose records are exactly the loaded ones, in order |
| `Tracker.HabitTracker.Save` | habit_tracker.py:57-59 | a save records the current collection and changes nothing else |
| `Tracker.FirstMatch` | habit_tracker.py:66-70 | the result is the index of the first record with that exact name; no result means no record has that name |
| `Tracker.FirstMatchIs` | habit_tracker.py:66-70 | the lookup returns i if and only if record i has the name and no earlier record has it |
| `Tracker.HabitTracker.GetHabit` | habit_tracker.py:66-70 | the scan returns the habit at the first index whose name matches, or null when no habit matches |
| `Tracker.HabitTracker.AddHabit` | habit_tracker.py:72-78 | a taken name gives `AlreadyExists` and changes nothing; otherwise one fresh habit with the name and an empty history is appended, earlier habits stay, the collection is saved, and unique names stay unique |
| `Tracker.HabitTracker.Append` | habit_tracker.py:76 | appending a habit not yet held adds its record at the end and keeps the habits distinct |
| `Tracker.AddedIsFound` | habit_tracker.py:72-78 | after a new name is appended, looking it up finds the new, last habit |
| `Tracker.AddKeepsUnique` | habit_tracker.py:72-78 | appending a name that is absent keeps names unique |
| `Tracker.FoundIsOnly` | habit_tracker.py:72-75 | with unique names, the habit found is the only one with that name |
| `Tracker.RemoveAt` | habit_tracker.py:85 | removing index i keeps the elements before i and shifts the ones after it down by one |
| `Tracker.RemoveAtMultiset` | habit_tracker.py:85 | removing index i takes away exactly one occurrence of that element and nothing else |
| `Tracker.HabitTracker.Position` | habit_tracker.py:85 | a list removal's scan finds the first index holding the object |
| `Tracker.HabitTracker.Remove` | habit_tracker.py:85 | removing a held habit object removes it at the index where it is held; the other records stay, in order |
| `Tracker.SnapshotRemoveAt` | habit_tracker.py:85-86 | the saved form of the collection without habit i is the saved collection without record i |
| `Tracker.HabitTracker.DeleteHabit` | habit_tracker.py:80-87 | an unknown name gives `NotFound` and changes nothing; otherwise exactly the habit `get_habit` finds is removed, the others keep their order, and the collection is saved; with unique names the name is then absent |
| `Tracker.DeleteRemovesName` | habit_tracker.py:80-87 | with unique names, removing the record found leaves the name absent and the names unique |
| `Tracker.HabitTracker.MarkHabit` | habit_tracker.py:94 | marking the habit at index i changes only record i, to its name with `WithDay` of its dates |
| `Tracker.HabitTracker.MarkDone` | habit_tracker.py:89-96 | an unknown name gives `NotFound` and changes nothing; otherwise only the found habit's dates change, by `WithDay`, the collection is saved, and unique names stay unique |
| `Tracker.ChangeDatesKeepsUnique` | habit_tracker.py:89-96 | changing the dates of one record keeps names unique |
| `Tracker.HabitTracker.ShowReport` | habit_tracker.py:98-109 | an empty collection gives `NoHabits`, and only an empty one does; otherwise there is one entry per habit, in order, with its name, `StreakLength` and `WeeklyCount` |
| `Tracker.DoneOnlyToday` | habit_tracker.py:16-31 | a habit done only today has streak 1 and weekly count 1 |
| `Tracker.ExerciseTracker` | habit_tracker.py:72-96 | a new tracker that adds "Exercise" and marks it done today holds exactly that habit with today as its only date |
| `Tracker.ExerciseScenario` | habit_tracker.py:72-109 | the report after adding "Exercise" and marking it done today is the single entry ("Exercise", 1, 1) |
| `Tracker.DuplicateScenario` | habit_tracker.py:72-87 | adding "X" twice gives `Ok`, then `AlreadyExists`, and leaves one habit; deleting "Y" from an empty tracker gives `NotFound` |

## Left out

- Storage file I/O (habit_tracker.py:44-59): the `habits.json` path, the existence check, `json.load` and `json.dump` are not modelled. Loading is the constructor's `loaded` argument. Saving is the ghost field `saved`, which receives the records `Snapshot` builds. A failed read or write, and malformed JSON, are not modelled.
- Dates as text: `isoformat` and `date.fromisoformat` are left out, along with the Gregorian calendar. Dates are day numbers, so a malformed date string in a loaded file, which would raise in the source, cannot occur in the model.
- The limits of Python's `date` are not modelled. Walking the streak back past `date.min` would raise `OverflowError` in the source; in the model the integers are unbounded.
- `date.today()` reads the system clock; the model takes `today` as a parameter.
- `main`, the menu, `input` and every `print` (habit_tracker.py:74, 78, 83, 87, 92, 96, 100-109, 112-144) are left out. Where the source prints an outcome, the model returns a `Status`. `show_report` returns a `Report` value instead of printing lines.
- Python object identity is modelled only as far as the tracker needs it. `to_dict` returns the habit's own list (habit_tracker.py:36), and the model copies it by value instead. `list.remove` matches by identity (habit_tracker.py:85), and `Position` models that scan. The tracker never holds one habit object twice, so the first matching object is the habit `get_habit` found.
- Habits.Habit.constructor: `completed_days or []` also replaces an empty list with a new empty list (habit_tracker.py:9); as values the two are equal, so the model keeps the given list.
- Tracker.HabitTracker.AddHabit, Tracker.HabitTracker.DeleteHabit, Tracker.HabitTracker.MarkDone: the states are compared through `Records()`, the saved form of the collection. The model does not state that objects outside the tracker are unchanged, beyond what the `modifies` clauses say.
