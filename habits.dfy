/**
 * One habit: a name and the list of dates on which it was done.
 */
module Habits {
  import opened Wrappers
  import opened Days

  /** The portable form of a habit, as written to and read back from storage. */
  datatype HabitRecord = HabitRecord(name: string, completedDays: seq<Day>)

  class Habit {
    var name: string
    var completedDays: seq<Day>

    /** A habit with the given history; an absent history is an empty one. */
    constructor (name: string, completedDays: Option<seq<Day>>)
      ensures this.name == name
      ensures completedDays.None? ==> this.completedDays == []
      ensures completedDays.Some? ==> this.completedDays == completedDays.value
    {
      this.name := name;
      this.completedDays := if completedDays.Some? then completedDays.value else [];
    }

    /**
     * Marks `today` done: appends it at the end if it is not yet recorded,
     * and otherwise leaves the history as it is.
     */
    method MarkDoneToday(today: Day)
      modifies this
      ensures name == old(name)
      ensures completedDays == WithDay(old(completedDays), today)
    {
      if today !in completedDays {
        completedDays := completedDays + [today];
      }
    }

    /** Counts the consecutive completed days walking back from `today`. */
    method Streak(today: Day) returns (streak: nat)
      ensures streak == StreakLength(DaySet(completedDays), today)
    {
      streak := 0;
      var current := today;
      var days := DaySet(completedDays);
      // the completed days not yet walked over; it shrinks at every step
      ghost var unvisited := days;
      while current in days
        invariant current == today - streak
        invariant forall d :: current < d <= today ==> d in days
        invariant unvisited <= days
        invariant forall d :: d in days && !(current < d <= today) ==> d in unvisited
        invariant |unvisited| + streak == |days|
        decreases |unvisited|
      {
        unvisited := unvisited - {current};
        streak := streak + 1;
        current := current - 1;
      }
      StreakCharacterized(days, today, streak);
    }

    /** The portable form of this habit. */
    function ToDict(): HabitRecord
      reads this
    {
      HabitRecord(name, completedDays)
    }

    /** Rebuilds a habit from its portable form. */
    static method FromDict(data: HabitRecord) returns (h: Habit)
      ensures fresh(h)
      ensures h.ToDict() == data
    {
      h := new Habit(data.name, Some(data.completedDays));
    }
  }

  /** Saving a habit and reading it back yields a fresh habit with the same name and history. */
  method RoundTrip(h: Habit) returns (copy: Habit)
    ensures fresh(copy)
    ensures copy.name == h.name && copy.completedDays == h.completedDays
  {
    copy := Habit.FromDict(h.ToDict());
  }
}
