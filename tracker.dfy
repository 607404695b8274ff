/**
 * The habit tracker: an ordered collection of habits, looked up by exact name.
 * Every successful change is followed by a save of the whole collection; the
 * last saved collection is kept as the ghost field `saved`.
 */
module Tracker {
  import opened Wrappers
  import opened Days
  import opened Habits

  /** The outcome of a change, reported where the source prints a message. */
  datatype Status = Ok | AlreadyExists | NotFound

  /** One line of the report: a habit's name, its streak and its weekly count. */
  datatype ReportEntry = ReportEntry(name: string, streak: nat, weekly: nat)

  /** The report: a "no habits" signal, or one entry per habit in order. */
  datatype Report = NoHabits | Entries(entries: seq<ReportEntry>)

  // ---------------------------------------------------------------------------
  // The collection as values

  /** The index of the first record named `name`, if there is one. */
  function FirstMatch(rs: seq<HabitRecord>, name: string): (r: Option<nat>)
    ensures r.Some? ==> r.value < |rs| && rs[r.value].name == name
    ensures r.Some? ==> forall j :: 0 <= j < r.value ==> rs[j].name != name
    ensures r.None? ==> forall j :: 0 <= j < |rs| ==> rs[j].name != name
  {
    if rs == [] then None
    else if rs[0].name == name then Some(0)
    else match FirstMatch(rs[1..], name)
      case None => None
      case Some(i) => Some(i + 1)
  }

  /** No two records share a name. */
  predicate UniqueNames(rs: seq<HabitRecord>)
  {
    forall i, j :: 0 <= i < j < |rs| ==> rs[i].name != rs[j].name
  }

  /** `s` without its element at index `i`, the others kept in order. */
  function RemoveAt<T>(s: seq<T>, i: nat): (r: seq<T>)
    requires i < |s|
    ensures |r| == |s| - 1
    ensures forall j :: 0 <= j < i ==> r[j] == s[j]
    ensures forall j :: i <= j < |r| ==> r[j] == s[j + 1]
  {
    s[..i] + s[i + 1..]
  }

  /** Removing at `i` takes away exactly one occurrence of `s[i]` and nothing else. */
  lemma RemoveAtMultiset<T>(s: seq<T>, i: nat)
    requires i < |s|
    ensures multiset(RemoveAt(s, i)) + multiset{s[i]} == multiset(s)
  {
    assert s == s[..i] + [s[i]] + s[i + 1..];
  }

  /** The portable form of every habit, in order: what a save writes. */
  function Snapshot(hs: seq<Habit>): (rs: seq<HabitRecord>)
    reads hs
    ensures |rs| == |hs|
    ensures forall i :: 0 <= i < |hs| ==> rs[i] == hs[i].ToDict()
  {
    if hs == [] then [] else [hs[0].ToDict()] + Snapshot(hs[1..])
  }

  /** The same object never occurs twice. */
  predicate Distinct<T(==)>(s: seq<T>)
  {
    forall i, j :: 0 <= i < j < |s| ==> s[i] != s[j]
  }

  /** Saving the collection without one habit writes the saved collection without its record. */
  lemma SnapshotRemoveAt(hs: seq<Habit>, i: nat)
    requires i < |hs|
    ensures Snapshot(RemoveAt(hs, i)) == RemoveAt(Snapshot(hs), i)
  {
    var l, r := Snapshot(RemoveAt(hs, i)), RemoveAt(Snapshot(hs), i);
    forall j | 0 <= j < |l|
      ensures l[j] == r[j]
    {
      if j < i {
        assert RemoveAt(hs, i)[j] == hs[j];
      } else {
        assert RemoveAt(hs, i)[j] == hs[j + 1];
      }
    }
  }

  /** Saving the collection with one more habit writes the saved collection with its record appended. */
  lemma SnapshotAppend(hs: seq<Habit>, h: Habit)
    ensures Snapshot(hs + [h]) == Snapshot(hs) + [h.ToDict()]
  {
    var l, r := Snapshot(hs + [h]), Snapshot(hs) + [h.ToDict()];
    forall j | 0 <= j < |l|
      ensures l[j] == r[j]
    {
      assert (hs + [h])[j] == if j < |hs| then hs[j] else h;
    }
  }

  /** Appending an element that is not there keeps the elements distinct. */
  lemma DistinctAppend<T>(s: seq<T>, x: T)
    requires Distinct(s) && x !in s
    ensures Distinct(s + [x])
  {
    var r := s + [x];
    forall a, b | 0 <= a < b < |r|
      ensures r[a] != r[b]
    {
      assert r[a] == s[a];
    }
  }

  /** Removing one element keeps the others distinct. */
  lemma DistinctRemoveAt<T>(s: seq<T>, i: nat)
    requires i < |s| && Distinct(s)
    ensures Distinct(RemoveAt(s, i))
  {
    var r := RemoveAt(s, i);
    forall a, b | 0 <= a < b < |r|
      ensures r[a] != r[b]
    {
      var a' := if a < i then a else a + 1;
      var b' := if b < i then b else b + 1;
      assert r[a] == s[a'] && r[b] == s[b'];
    }
  }

  /** The lookup of a name characterised both ways: first index whose record has that name. */
  lemma FirstMatchIs(rs: seq<HabitRecord>, name: string, i: nat)
    ensures FirstMatch(rs, name) == Some(i)
        <==> i < |rs| && rs[i].name == name && forall j :: 0 <= j < i ==> rs[j].name != name
  {
  }

  /** After a new name is appended, looking it up finds the new, last record. */
  lemma AddedIsFound(rs: seq<HabitRecord>, name: string)
    requires FirstMatch(rs, name).None?
    ensures FirstMatch(rs + [HabitRecord(name, [])], name) == Some(|rs|)
  {
    var rs' := rs + [HabitRecord(name, [])];
    forall j | 0 <= j < |rs|
      ensures rs'[j].name != name
    {
      assert rs'[j] == rs[j];
    }
    FirstMatchIs(rs', name, |rs|);
  }

  /** Appending a name that is not present keeps names unique. */
  lemma AddKeepsUnique(rs: seq<HabitRecord>, name: string)
    requires UniqueNames(rs) && FirstMatch(rs, name).None?
    ensures UniqueNames(rs + [HabitRecord(name, [])])
  {
    var rs' := rs + [HabitRecord(name, [])];
    forall i, j | 0 <= i < j < |rs'|
      ensures rs'[i].name != rs'[j].name
    {
      assert rs'[i] == rs[i];
      if j < |rs| {
        assert rs'[j] == rs[j];
      }
    }
  }

  /** With unique names, the record found is the only one with that name. */
  lemma FoundIsOnly(rs: seq<HabitRecord>, name: string)
    requires UniqueNames(rs) && FirstMatch(rs, name).Some?
    ensures forall j :: 0 <= j < |rs| && rs[j].name == name ==> j == FirstMatch(rs, name).value
  {
  }

  /** With unique names, removing the record found leaves the name absent and names unique. */
  lemma DeleteRemovesName(rs: seq<HabitRecord>, name: string)
    requires UniqueNames(rs) && FirstMatch(rs, name).Some?
    ensures FirstMatch(RemoveAt(rs, FirstMatch(rs, name).value), name).None?
    ensures UniqueNames(RemoveAt(rs, FirstMatch(rs, name).value))
  {
    var i := FirstMatch(rs, name).value;
    var r := RemoveAt(rs, i);
    forall a, b | 0 <= a < b < |r|
      ensures r[a].name != r[b].name
    {
      var a' := if a < i then a else a + 1;
      var b' := if b < i then b else b + 1;
      assert r[a] == rs[a'] && r[b] == rs[b'];
    }
  }

  /** Changing the dates of one record keeps names unique. */
  lemma ChangeDatesKeepsUnique(rs: seq<HabitRecord>, i: nat, days: seq<Day>)
    requires i < |rs| && UniqueNames(rs)
    ensures UniqueNames(rs[i := HabitRecord(rs[i].name, days)])
  {
    var r := rs[i := HabitRecord(rs[i].name, days)];
    forall a, b | 0 <= a < b < |r|
      ensures r[a].name != r[b].name
    {
      assert r[a].name == rs[a].name && r[b].name == rs[b].name;
    }
  }

  // ---------------------------------------------------------------------------
  // The tracker

  class HabitTracker {
    var habits: seq<Habit>
    /** The collection as last written by a save. */
    ghost var saved: seq<HabitRecord>

    /** No habit object is held twice, so changing one habit changes no other. */
    ghost predicate Valid()
      reads this`habits
    {
      Distinct(habits)
    }

    /** The collection's contents, in order. */
    function Records(): seq<HabitRecord>
      reads this`habits, habits
    {
      Snapshot(habits)
    }

    /** Starts from the habits loaded from storage (none when nothing was saved yet). */
    constructor (loaded: seq<HabitRecord>)
      ensures Valid()
      ensures Records() == loaded && saved == loaded
      ensures fresh(habits)
    {
      var hs: seq<Habit> := [];
      var i := 0;
      while i < |loaded|
        invariant 0 <= i <= |loaded|
        invariant |hs| == i
        invariant Distinct(hs)
        invariant forall j :: 0 <= j < i ==> fresh(hs[j]) && hs[j].ToDict() == loaded[j]
      {
        var h := Habit.FromDict(loaded[i]);
        hs := hs + [h];
        i := i + 1;
      }
      habits := hs;
      saved := loaded;
    }

    /** Writes the whole collection to storage, overwriting what was saved before. */
    method Save()
      modifies this`saved
      ensures saved == Records()
      ensures Records() == old(Records())
    {
      saved := Records();
    }

    /** The first habit whose name is exactly `name`, or null when there is none. */
    method GetHabit(name: string) returns (h: Habit?)
      ensures FirstMatch(Records(), name).None? ==> h == null
      ensures FirstMatch(Records(), name).Some? ==> h == habits[FirstMatch(Records(), name).value]
    {
      for i := 0 to |habits|
        invariant forall j :: 0 <= j < i ==> habits[j].name != name
      {
        if habits[i].name == name {
          FirstMatchIs(Records(), name, i);
          return habits[i];
        }
      }
      return null;
    }

    /** The position of the first occurrence of habit object `h`, as a list removal finds it. */
    method Position(h: Habit) returns (i: nat)
      requires h in habits
      ensures i < |habits| && habits[i] == h
      ensures forall j :: 0 <= j < i ==> habits[j] != h
    {
      i := 0;
      while habits[i] != h
        invariant i < |habits|
        invariant forall j :: 0 <= j < i ==> habits[j] != h
        invariant h in habits[i..]
        decreases |habits| - i
      {
        i := i + 1;
      }
    }

    /** Adds a new habit with an empty history, unless the name is already taken. */
    method AddHabit(name: string) returns (status: Status)
      requires Valid()
      modifies this`habits, this`saved
      ensures Valid()
      ensures FirstMatch(old(Records()), name).Some? ==>
        status == AlreadyExists && habits == old(habits) && Records() == old(Records()) && saved == old(saved)
      ensures FirstMatch(old(Records()), name).None? ==>
        status == Ok && |habits| == |old(habits)| + 1 && habits[..|old(habits)|] == old(habits) &&
        fresh(habits[|old(habits)|]) &&
        Records() == old(Records()) + [HabitRecord(name, [])] && saved == Records()
      ensures UniqueNames(old(Records())) ==> UniqueNames(Records())
    {
      ghost var rs := Records();
      var existing := GetHabit(name);
      if existing != null {
        return AlreadyExists;
      }
      if UniqueNames(rs) {
        AddKeepsUnique(rs, name);
      }
      var h := new Habit(name, None);
      assert h.ToDict() == HabitRecord(name, []);
      Append(h);
      assert Records() == rs + [HabitRecord(name, [])];
      Save();
      status := Ok;
    }

    /** Puts habit object `h`, not yet held, at the end of the collection. */
    method Append(h: Habit)
      requires Valid() && h !in habits
      modifies this`habits
      ensures Valid()
      ensures habits == old(habits) + [h]
      ensures Records() == old(Records()) + [h.ToDict()]
    {
      SnapshotAppend(habits, h);
      DistinctAppend(habits, h);
      var grown := habits + [h];
      ghost var after := Snapshot(grown);
      habits := grown;
      assert Snapshot(grown) == after;
    }

    /** Removes habit object `h` from the collection, at its first occurrence, as a list removal does. */
    method Remove(h: Habit) returns (ghost i: nat)
      requires Valid() && h in habits
      modifies this`habits
      ensures Valid() && saved == old(saved)
      ensures i < |old(habits)| && old(habits)[i] == h
      ensures habits == RemoveAt(old(habits), i)
      ensures Records() == RemoveAt(old(Records()), i)
    {
      var p := Position(h);
      SnapshotRemoveAt(habits, p);
      DistinctRemoveAt(habits, p);
      var kept := RemoveAt(habits, p);
      ghost var remaining := Snapshot(kept);
      habits := kept;
      assert Snapshot(kept) == remaining;
      i := p;
    }

    /** Removes the habit found by name; an unknown name changes nothing. */
    method DeleteHabit(name: string) returns (status: Status)
      requires Valid()
      modifies this`habits, this`saved
      ensures Valid()
      ensures FirstMatch(old(Records()), name).None? ==>
        status == NotFound && habits == old(habits) && Records() == old(Records()) && saved == old(saved)
      ensures FirstMatch(old(Records()), name).Some? ==>
        var i := FirstMatch(old(Records()), name).value;
        status == Ok && habits == RemoveAt(old(habits), i) &&
        Records() == RemoveAt(old(Records()), i) && saved == Records()
      ensures UniqueNames(old(Records())) ==>
        UniqueNames(Records()) && FirstMatch(Records(), name).None?
    {
      var h := GetHabit(name);
      if h == null {
        return NotFound;
      }
      ghost var rs := Records();
      ghost var k := FirstMatch(rs, name).value;
      if UniqueNames(rs) {
        DeleteRemovesName(rs, name);
      }
      ghost var i := Remove(h);
      assert old(habits)[k] == h;
      assert i == k;
      Save();
      status := Ok;
    }

    /** Marks `today` done on habit object `h`, held at index `i`; no other habit changes. */
    method MarkHabit(h: Habit, ghost i: nat, today: Day)
      requires Valid() && i < |habits| && habits[i] == h
      modifies h
      ensures Records() == old(Records())[i := HabitRecord(old(h.name), WithDay(old(h.completedDays), today))]
    {
      ghost var before := Records();
      ghost var marked := HabitRecord(h.name, WithDay(h.completedDays, today));
      h.MarkDoneToday(today);
      assert h.ToDict() == marked;
      assert Records() == before[i := marked];
    }

    /** Marks `today` done on the habit found by name; an unknown name changes nothing. */
    method MarkDone(name: string, today: Day) returns (status: Status)
      requires Valid()
      modifies this`saved, habits
      ensures Valid() && habits == old(habits)
      ensures FirstMatch(old(Records()), name).None? ==>
        status == NotFound && Records() == old(Records()) && saved == old(saved)
      ensures FirstMatch(old(Records()), name).Some? ==>
        var i := FirstMatch(old(Records()), name).value;
        var before := old(Records())[i];
        status == Ok &&
        Records() == old(Records())[i := HabitRecord(before.name, WithDay(before.completedDays, today))] &&
        saved == Records()
      ensures UniqueNames(old(Records())) ==> UniqueNames(Records())
    {
      var h := GetHabit(name);
      if h == null {
        return NotFound;
      }
      ghost var rs := Records();
      ghost var i := FirstMatch(rs, name).value;
      if UniqueNames(rs) {
        ChangeDatesKeepsUnique(rs, i, WithDay(rs[i].completedDays, today));
      }
      MarkHabit(h, i, today);
      Save();
      status := Ok;
    }

    /** One entry per habit, in order, giving its name, streak and weekly count. */
    method ShowReport(today: Day) returns (r: Report)
      ensures r.NoHabits? <==> habits == []
      ensures r.Entries? ==> |r.entries| == |habits|
      ensures r.Entries? ==> forall i :: 0 <= i < |habits| ==>
        r.entries[i] == ReportEntry(
          Records()[i].name,
          StreakLength(DaySet(Records()[i].completedDays), today),
          WeeklyCount(Records()[i].completedDays, today))
    {
      if habits == [] {
        return NoHabits;
      }
      var entries: seq<ReportEntry> := [];
      for i := 0 to |habits|
        invariant |entries| == i
        invariant forall j :: 0 <= j < i ==>
          entries[j] == ReportEntry(
            habits[j].name,
            StreakLength(DaySet(habits[j].completedDays), today),
            WeeklyCount(habits[j].completedDays, today))
      {
        var h := habits[i];
        var s := h.Streak(today);
        entries := entries + [ReportEntry(h.name, s, WeeklyCount(h.completedDays, today))];
      }
      r := Entries(entries);
    }
  }

  // ---------------------------------------------------------------------------
  // Scenarios

  /** A habit done only today has a streak of 1 and a weekly count of 1. */
  lemma DoneOnlyToday(today: Day)
    ensures StreakLength(DaySet([today]), today) == 1
    ensures WeeklyCount([today], today) == 1
  {
    StreakCharacterized(DaySet([today]), today, 1);
    assert DaySet([today]) * LastWeek(today) == {today};
  }

  /** A fresh tracker after adding "Exercise" and marking it done today. */
  method ExerciseTracker(today: Day) returns (t: HabitTracker)
    ensures t.Valid() && t.Records() == [HabitRecord("Exercise", [today])]
  {
    t := new HabitTracker([]);
    var added := t.AddHabit("Exercise");
    assert t.Records() == [HabitRecord("Exercise", [])];
    FirstMatchIs(t.Records(), "Exercise", 0);
    var marked := t.MarkDone("Exercise", today);
    assert WithDay([], today) == [today];
  }

  /** Adding "Exercise" and marking it done today reports a streak of 1 and a weekly count of 1. */
  method ExerciseScenario(today: Day) returns (r: Report)
    ensures r == Entries([ReportEntry("Exercise", 1, 1)])
  {
    var t := ExerciseTracker(today);
    DoneOnlyToday(today);
    r := t.ShowReport(today);
    assert r.entries == [ReportEntry("Exercise", 1, 1)];
  }

  /** A second add of the same name is refused and leaves one habit; deleting from nothing finds nothing. */
  method DuplicateScenario() returns (first: Status, second: Status, count: nat, deleted: Status)
    ensures first == Ok && second == AlreadyExists && count == 1 && deleted == NotFound
  {
    var t := new HabitTracker([]);
    first := t.AddHabit("X");
    second := t.AddHabit("X");
    count := |t.habits|;
    var empty := new HabitTracker([]);
    deleted := empty.DeleteHabit("Y");
  }
}
