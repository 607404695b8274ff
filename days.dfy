/**
 * Completion dates and the statistics derived from them.
 *
 * A calendar date is a day number: the day before `d` is `d - 1`. A habit
 * keeps its completion dates as a list, which the statistics read as a set.
 */
module Days {

  /** A calendar date, counted in days. */
  type Day = int

  /** The distinct dates of a completion list. */
  function DaySet(days: seq<Day>): set<Day>
  {
    set d | d in days
  }

  /** No date occurs twice in a completion list. */
  predicate NoDuplicates(days: seq<Day>)
  {
    forall i, j :: 0 <= i < j < |days| ==> days[i] != days[j]
  }

  // ---------------------------------------------------------------------------
  // Marking a day done

  /**
   * The completion list after `today` is marked done: the old list is kept as
   * a prefix, the set of dates gains exactly `today`, and the list grows by one
   * entry only when `today` was absent.
   */
  function WithDay(days: seq<Day>, today: Day): (r: seq<Day>)
    ensures days <= r
    ensures DaySet(r) == DaySet(days) + {today}
    ensures |r| == if today in days then |days| else |days| + 1
    ensures NoDuplicates(days) ==> NoDuplicates(r)
  {
    if today in days then days else days + [today]
  }

  /** The completion list after `today` has been marked done `n` times in a row. */
  function MarkedTimes(days: seq<Day>, today: Day, n: nat): seq<Day>
  {
    if n == 0 then days else WithDay(MarkedTimes(days, today, n - 1), today)
  }

  /** Marking the same day done again has no further effect, and leaves one entry for it. */
  lemma {:induction false} MarkedTimesIsMarkedOnce(days: seq<Day>, today: Day, n: nat)
    requires n >= 1
    ensures MarkedTimes(days, today, n) == WithDay(days, today)
    ensures today !in days ==> multiset(MarkedTimes(days, today, n))[today] == 1
  {
    if n > 1 {
      MarkedTimesIsMarkedOnce(days, today, n - 1);
    }
    if today !in days {
      assert MarkedTimes(days, today, n) == days + [today];
      assert multiset(days)[today] == 0;
    }
  }

  // ---------------------------------------------------------------------------
  // Streak

  /**
   * The length of the unbroken run of completed days that ends at `today`:
   * every day in (today - k, today] is completed and today - k is not. The run
   * is no longer than the number of distinct dates.
   */
  function StreakLength(done: set<Day>, today: Day): (k: nat)
    ensures forall d :: today - k < d <= today ==> d in done
    ensures today - k !in done
    ensures k <= |done|
    decreases |done|
  {
    if today in done then
      var k' := StreakLength(done - {today}, today - 1);
      RunExtends(done, today, k');
      1 + k'
    else 0
  }

  /** A run ending yesterday among the other days extends, with today, to a run ending today. */
  lemma RunExtends(done: set<Day>, today: Day, k: nat)
    requires today in done
    requires forall d :: today - 1 - k < d <= today - 1 ==> d in done - {today}
    ensures forall d :: today - 1 - k < d <= today ==> d in done
  {
    forall d | today - 1 - k < d <= today
      ensures d in done
    {
      if d != today {
        assert d in done - {today};
      }
    }
  }

  /** The run property determines the streak: both directions of the definition. */
  lemma StreakCharacterized(done: set<Day>, today: Day, k: nat)
    ensures StreakLength(done, today) == k
        <==> (forall d :: today - k < d <= today ==> d in done) && today - k !in done
  {
    var s := StreakLength(done, today);
    if (forall d :: today - k < d <= today ==> d in done) && today - k !in done {
      assert s < k ==> today - s in done;
      assert k < s ==> today - k in done;
    }
  }

  /** Three consecutive days ending today give a streak of 3; a missing today gives 0. */
  lemma StreakExamples(today: Day)
    ensures StreakLength({today, today - 1, today - 2}, today) == 3
    ensures StreakLength({}, today) == 0
    ensures StreakLength({today - 1, today - 2}, today) == 0
  {
    StreakCharacterized({today, today - 1, today - 2}, today, 3);
  }

  // ---------------------------------------------------------------------------
  // Weekly count

  /** The `n` days ending at `today`: today minus 0 through `n - 1` days. */
  function Window(today: Day, n: nat): set<Day>
  {
    if n == 0 then {} else Window(today, n - 1) + {today - n + 1}
  }

  /** A window of `n` days holds exactly the dates in (today - n, today], and `n` of them. */
  lemma {:induction false} WindowMembers(today: Day, n: nat)
    ensures forall d :: d in Window(today, n) <==> today - n < d <= today
    ensures |Window(today, n)| == n
  {
    if n > 0 {
      WindowMembers(today, n - 1);
      assert today - n + 1 !in Window(today, n - 1);
    }
  }

  /** The last seven days, today included, as the source builds them from seven offsets. */
  function LastWeek(today: Day): (w: set<Day>)
    ensures forall d :: d in w <==> today - 7 < d <= today
    ensures |w| == 7
  {
    WindowMembers(today, 7);
    Window(today, 7)
  }

  /** How many of the seven days ending today are completed days. */
  function WeeklyCount(days: seq<Day>, today: Day): (r: nat)
    ensures r <= 7
  {
    var week := LastWeek(today);
    assert week * DaySet(days) == DaySet(days) * week;
    assert |week - DaySet(days)| == |week| - |week * DaySet(days)|;
    |DaySet(days) * week|
  }

  /** Day-by-day count of the completed days among the `n` days ending at `today`. */
  function WindowHits(done: set<Day>, today: Day, n: nat): nat
  {
    if n == 0 then 0
    else (if today - n + 1 in done then 1 else 0) + WindowHits(done, today, n - 1)
  }

  /** Adding one new date to a set of days adds one to its overlap with `done` exactly when the date is completed. */
  lemma OverlapAddOne(done: set<Day>, days: set<Day>, d: Day)
    requires d !in days
    ensures |done * (days + {d})| == |done * days| + (if d in done then 1 else 0)
  {
    if d in done {
      assert done * (days + {d}) == done * days + {d};
    } else {
      assert done * (days + {d}) == done * days;
    }
  }

  /** Intersecting with a window counts each window day that is completed once. */
  lemma {:induction false} WindowHitsCounts(done: set<Day>, today: Day, n: nat)
    ensures |done * Window(today, n)| == WindowHits(done, today, n)
  {
    if n > 0 {
      WindowHitsCounts(done, today, n - 1);
      var d, w := today - n + 1, Window(today, n - 1);
      assert d !in w by {
        WindowMembers(today, n - 1);
      }
      OverlapAddOne(done, w, d);
      assert Window(today, n) == w + {d};
    }
  }

  /** The weekly count is the number of days among the last seven that were completed. */
  lemma WeeklyCountByDay(days: seq<Day>, today: Day)
    ensures WeeklyCount(days, today) == WindowHits(DaySet(days), today, 7)
  {
    WindowHitsCounts(DaySet(days), today, 7);
  }

  /** A repeated date, or a date outside the last seven days, does not change the weekly count. */
  lemma WeeklyIgnoresRepeatsAndOldDays(days: seq<Day>, d: Day, today: Day)
    requires d in days || !(today - 7 < d <= today)
    ensures WeeklyCount(days + [d], today) == WeeklyCount(days, today)
  {
    assert DaySet(days + [d]) * LastWeek(today) == DaySet(days) * LastWeek(today);
  }

  /** Completed on today, today - 3 and today - 8: only the first two fall in the last week. */
  lemma WeeklyExample(today: Day)
    ensures WeeklyCount([today, today - 3, today - 8], today) == 2
  {
    assert DaySet([today, today - 3, today - 8]) * LastWeek(today) == {today, today - 3};
  }

  /** Once today is marked done, both the streak and the weekly count are at least one. */
  lemma MarkedDayCounts(days: seq<Day>, today: Day)
    ensures StreakLength(DaySet(WithDay(days, today)), today) >= 1
    ensures WeeklyCount(WithDay(days, today), today) >= 1
  {
    var r := WithDay(days, today);
    assert today in DaySet(r) * LastWeek(today);
  }
}
