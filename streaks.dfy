/** The streak engine (treatment.py lines 139-148).  Over the daily aggregate,
    ascending by date, the dashboard marks each row as studied (total > 0),
    takes the calendar gap to the previous row (1 for the first row), calls a
    row consecutive when the gap is exactly one day and it is studied, and
    numbers the rows by the running count of non-consecutive rows.  The
    longest streak is the largest number of studied rows sharing a number.

    The model runs that numbering as a loop over an array and proves that the
    result is the length of the longest run of calendar-consecutive studied
    dates, a definition that says nothing of group numbers. */
module Streaks {
  import opened Frame
  import opened Daily
  import opened Metrics

  // The declarative definition.

  /** Date `d` is in the aggregate with a positive total. */
  ghost predicate StudiedOn(days: seq<DayTotal>, d: Day) {
    exists i :: 0 <= i < |days| && days[i].day == d && Studied(days[i])
  }

  /** The `len` calendar days from `start` on are all studied days. */
  ghost predicate IsStreak(days: seq<DayTotal>, start: Day, len: nat) {
    len >= 1 && forall d :: start <= d < start + len ==> StudiedOn(days, d)
  }

  // The group numbering of the dashboard.

  /** `Day_Diff`: the gap in days to the previous row; the first row gets 1. */
  function DayDiff(days: seq<DayTotal>, i: nat): int
    requires i < |days|
  {
    if i == 0 then 1 else days[i].day - days[i - 1].day
  }

  /** `Is_Consecutive`: the gap is one day and the row is studied. */
  predicate IsConsecutive(days: seq<DayTotal>, i: nat)
    requires i < |days|
  {
    DayDiff(days, i) == 1 && Studied(days[i])
  }

  /** How many of the first `n` rows are not consecutive. */
  function Breaks(days: seq<DayTotal>, n: nat): nat
    requires n <= |days|
  {
    if n == 0 then 0 else Breaks(days, n - 1) + (if IsConsecutive(days, n - 1) then 0 else 1)
  }

  /** `Streak_Group` is the cumulative sum of "not consecutive". */
  ghost predicate IsGroupColumn(days: seq<DayTotal>, group: seq<nat>) {
    |group| == |days| && forall i :: 0 <= i < |days| ==> group[i] == Breaks(days, i + 1)
  }

  /** Fills the `Streak_Group` column: row `i` gets the number of
      non-consecutive rows among rows 0..i. */
  method StreakGroups(days: seq<DayTotal>) returns (group: array<nat>)
    ensures group.Length == |days|
    ensures forall i :: 0 <= i < |days| ==> group[i] == Breaks(days, i + 1)
  {
    group := new nat[|days|];
    var running := 0;
    var i := 0;
    while i < |days|
      invariant 0 <= i <= |days|
      invariant running == Breaks(days, i)
      invariant forall k :: 0 <= k < i ==> group[k] == Breaks(days, k + 1)
    {
      var diff := if i == 0 then 1 else days[i].day - days[i - 1].day;
      var consecutive := diff == 1 && days[i].hours > 0.0;
      if !consecutive {
        running := running + 1;
      }
      group[i] := running;
      i := i + 1;
    }
  }

  /** How many of the first `n` rows are studied and numbered `g`. */
  function CountInGroup(days: seq<DayTotal>, group: seq<nat>, g: nat, n: nat): nat
    requires |group| == |days| && n <= |days|
  {
    if n == 0 then 0
    else CountInGroup(days, group, g, n - 1) + (if Studied(days[n - 1]) && group[n - 1] == g then 1 else 0)
  }

  /** `groupby('Streak_Group').size()` over the studied rows. */
  function GroupSize(days: seq<DayTotal>, group: seq<nat>, g: nat): nat
    requires |group| == |days|
  {
    CountInGroup(days, group, g, |days|)
  }

  /** The largest group size among the groups of the studied rows among the
      first `n` rows; None when none of them is studied (the max of an empty
      column). */
  function LargestGroup(days: seq<DayTotal>, group: seq<nat>, n: nat): (r: Option<nat>)
    requires |group| == |days| && n <= |days|
    ensures r.None? <==> forall i :: 0 <= i < n ==> !Studied(days[i])
    ensures r.Some? ==> exists i :: 0 <= i < n && Studied(days[i]) && r.value == GroupSize(days, group, group[i])
    ensures forall i :: 0 <= i < n && Studied(days[i]) ==> r.Some? && GroupSize(days, group, group[i]) <= r.value
  {
    if n == 0 then None
    else
      var rest := LargestGroup(days, group, n - 1);
      if !Studied(days[n - 1]) then rest
      else
        var size := GroupSize(days, group, group[n - 1]);
        match rest
        case None => Some(size)
        case Some(m) => Some(if size > m then size else m)
  }

  // Runs ending at a row: the bridge between the two definitions.

  /** The number of rows of the run of studied rows, each one day after the
      previous, that ends at row `k` (0 if row `k` is not studied). */
  ghost function RunEnding(days: seq<DayTotal>, k: nat): nat
    requires k < |days|
  {
    if !Studied(days[k]) then 0
    else if k > 0 && days[k].day - days[k - 1].day == 1 && Studied(days[k - 1]) then RunEnding(days, k - 1) + 1
    else 1
  }

  lemma {:induction false} BreaksMonotone(days: seq<DayTotal>, a: nat, b: nat)
    requires a <= b <= |days|
    ensures Breaks(days, a) <= Breaks(days, b)
    decreases b
  {
    if a < b { BreaksMonotone(days, a, b - 1); }
  }

  /** No row before a non-consecutive row `k` shares its group. */
  lemma {:induction false} NoneBeforeBreak(days: seq<DayTotal>, group: seq<nat>, k: nat, n: nat)
    requires IsGroupColumn(days, group) && k < |days| && !IsConsecutive(days, k) && n <= k
    ensures CountInGroup(days, group, group[k], n) == 0
  {
    if n > 0 {
      BreaksMonotone(days, n, k);
      NoneBeforeBreak(days, group, k, n - 1);
    }
  }

  /** The studied rows of a group up to a studied row `k` are exactly the run
      ending at `k`. */
  lemma {:induction false} GroupPrefixIsRun(days: seq<DayTotal>, group: seq<nat>, k: nat)
    requires IsGroupColumn(days, group) && k < |days| && Studied(days[k])
    ensures CountInGroup(days, group, group[k], k + 1) == RunEnding(days, k)
  {
    if !IsConsecutive(days, k) {
      NoneBeforeBreak(days, group, k, k);
    } else if k > 0 {
      assert group[k] == group[k - 1];
      if Studied(days[k - 1]) {
        GroupPrefixIsRun(days, group, k - 1);
      } else {
        assert !IsConsecutive(days, k - 1);
        NoneBeforeBreak(days, group, k - 1, k - 1);
      }
    }
  }

  /** A group's size is the prefix count up to its last studied row. */
  lemma {:induction false} LastOfGroup(days: seq<DayTotal>, group: seq<nat>, i: nat, n: nat)
       returns (k: nat)
    requires |group| == |days| && i < n <= |days| && Studied(days[i])
    ensures i <= k < n && Studied(days[k]) && group[k] == group[i]
    ensures CountInGroup(days, group, group[i], n) == CountInGroup(days, group, group[i], k + 1)
  {
    if Studied(days[n - 1]) && group[n - 1] == group[i] {
      k := n - 1;
    } else {
      k := LastOfGroup(days, group, i, n - 1);
    }
  }

  lemma {:induction false} CountInGroupMonotone(days: seq<DayTotal>, group: seq<nat>, g: nat, a: nat, b: nat)
    requires |group| == |days| && a <= b <= |days|
    ensures CountInGroup(days, group, g, a) <= CountInGroup(days, group, g, b)
    decreases b
  {
    if a < b { CountInGroupMonotone(days, group, g, a, b - 1); }
  }

  /** A streak of studied rows ends at row `k`. */
  lemma {:induction false} RunIsStreak(days: seq<DayTotal>, k: nat)
    requires k < |days| && Studied(days[k])
    ensures IsStreak(days, days[k].day - RunEnding(days, k) + 1, RunEnding(days, k))
  {
    var len := RunEnding(days, k);
    var start := days[k].day - len + 1;
    if len > 1 {
      RunIsStreak(days, k - 1);
      forall d | start <= d < start + len ensures StudiedOn(days, d) {
        if d == days[k].day {
          assert days[k].day == d;
        } else {
          assert start == days[k - 1].day - RunEnding(days, k - 1) + 1;
        }
      }
    } else {
      assert StudiedOn(days, days[k].day);
    }
  }

  /** In an ascending aggregate, the row one day after row `j` is row `j + 1`. */
  lemma NextDayIsNextRow(days: seq<DayTotal>, j: nat, k: nat)
    requires DatesAscending(days) && j < |days| && k < |days|
    requires days[k].day == days[j].day + 1
    ensures k == j + 1
  {
    if j + 1 < |days| {
      assert days[j].day < days[j + 1].day;
    }
  }

  /** Every streak that ends on the date of row `k` fits in the run ending at `k`. */
  lemma {:induction false} StreakFitsRun(days: seq<DayTotal>, start: Day, len: nat, k: nat)
    requires DatesAscending(days) && k < |days|
    requires IsStreak(days, start, len) && days[k].day == start + len - 1
    ensures len <= RunEnding(days, k)
    decreases len
  {
    assert StudiedOn(days, start + len - 1);
    var i :| 0 <= i < |days| && days[i].day == start + len - 1 && Studied(days[i]);
    assert i == k;
    if len > 1 {
      assert StudiedOn(days, start + len - 2);
      var j :| 0 <= j < |days| && days[j].day == start + len - 2 && Studied(days[j]);
      NextDayIsNextRow(days, j, k);
      assert IsStreak(days, start, len - 1);
      StreakFitsRun(days, start, len - 1, j);
    }
  }

  /** A group holds no more studied rows than the aggregate has study days. */
  lemma {:induction false} GroupWithinStudyDays(days: seq<DayTotal>, group: seq<nat>, g: nat, n: nat)
    requires DatesAscending(days) && |group| == |days| && n <= |days|
    ensures CountInGroup(days, group, g, n) <= DistinctStudyDays(days[..n])
  {
    if n > 0 {
      var p := days[..n];
      assert p[..n - 1] == days[..n - 1];
      GroupWithinStudyDays(days, group, g, n - 1);
      if Studied(days[n - 1]) {
        DatesBelow(days[..n - 1], days[n - 1].day);
      }
    }
  }

  /** The largest group is the length of some streak, and at most the number of study days. */
  lemma LargestGroupIsStreak(days: seq<DayTotal>, group: seq<nat>)
    requires DatesAscending(days) && IsGroupColumn(days, group)
    requires LargestGroup(days, group, |days|).Some?
    ensures 1 <= LargestGroup(days, group, |days|).value <= DistinctStudyDays(days)
    ensures exists start :: IsStreak(days, start, LargestGroup(days, group, |days|).value)
  {
    var m := LargestGroup(days, group, |days|).value;
    var i :| 0 <= i < |days| && Studied(days[i]) && m == GroupSize(days, group, group[i]);
    var k := LastOfGroup(days, group, i, |days|);
    GroupPrefixIsRun(days, group, k);
    RunIsStreak(days, k);
    GroupWithinStudyDays(days, group, group[i], |days|);
    assert days[..|days|] == days;
  }

  /** No streak is longer than the largest group. */
  lemma StreakWithinLargestGroup(days: seq<DayTotal>, group: seq<nat>, start: Day, len: nat)
    requires DatesAscending(days) && IsGroupColumn(days, group)
    requires IsStreak(days, start, len)
    ensures LargestGroup(days, group, |days|).Some?
    ensures len <= LargestGroup(days, group, |days|).value
  {
    assert StudiedOn(days, start + len - 1);
    var k :| 0 <= k < |days| && days[k].day == start + len - 1 && Studied(days[k]);
    StreakFitsRun(days, start, len, k);
    GroupPrefixIsRun(days, group, k);
    CountInGroupMonotone(days, group, group[k], k + 1, |days|);
  }

  /** `Streak_Length.max()`: the length of the longest streak of
      calendar-consecutive studied dates, or None when no date was studied. */
  method LongestStreak(days: seq<DayTotal>) returns (longest: Option<nat>)
    requires DatesAscending(days)
    ensures longest.None? <==> forall i :: 0 <= i < |days| ==> !Studied(days[i])
    ensures longest.Some? ==> 1 <= longest.value <= DistinctStudyDays(days)
    ensures longest.Some? ==> exists start :: IsStreak(days, start, longest.value)
    ensures forall start, len: nat :: IsStreak(days, start, len) ==> longest.Some? && len <= longest.value
  {
    var column := StreakGroups(days);
    var group := column[..];
    longest := LargestGroup(days, group, |days|);
    if longest.Some? {
      LargestGroupIsStreak(days, group);
    }
    forall start, len: nat | IsStreak(days, start, len) ensures longest.Some? && len <= longest.value {
      StreakWithinLargestGroup(days, group, start, len);
    }
  }

  /** A zero-hour date ends a run: over 5, 3, 0 and 2 hours on four days in
      a row, the longest streak is the first two days, and the current
      streak counts from the third. */
  lemma ZeroDayEndsStreak(d0: Day, today: Day)
    ensures var days := [DayTotal(d0, 5.0), DayTotal(d0 + 1, 3.0), DayTotal(d0 + 2, 0.0), DayTotal(d0 + 3, 2.0)];
      && IsStreak(days, d0, 2)
      && (forall start, len: nat :: IsStreak(days, start, len) ==> len <= 2)
      && CurrentStreak(days, today) == today - (d0 + 2)
  {
    var days := [DayTotal(d0, 5.0), DayTotal(d0 + 1, 3.0), DayTotal(d0 + 2, 0.0), DayTotal(d0 + 3, 2.0)];
    assert StudiedOn(days, d0) && StudiedOn(days, d0 + 1) by {
      assert days[0].day == d0 && days[1].day == d0 + 1;
    }
    forall start, len: nat | IsStreak(days, start, len) ensures len <= 2 {
      assert StudiedOn(days, start);
      assert len > 1 ==> StudiedOn(days, start + 1);
      assert len > 2 ==> StudiedOn(days, start + 2);
    }
    var z := LastZeroDay(days);
    assert days[2].hours == 0.0;
    var i :| 0 <= i < |days| && days[i].hours == 0.0 && days[i].day == z.value;
    assert i == 2;
  }

  /** A missing date ends a run even without a zero-hour row: two studied
      days two days apart are two streaks of one day. */
  lemma GapEndsStreak(d0: Day)
    ensures var days := [DayTotal(d0, 5.0), DayTotal(d0 + 2, 5.0)];
      && IsStreak(days, d0, 1)
      && (forall start, len: nat :: IsStreak(days, start, len) ==> len == 1)
  {
    var days := [DayTotal(d0, 5.0), DayTotal(d0 + 2, 5.0)];
    assert StudiedOn(days, d0) by { assert days[0].day == d0; }
    forall start, len: nat | IsStreak(days, start, len) ensures len == 1 {
      assert StudiedOn(days, start);
      assert len > 1 ==> StudiedOn(days, start + 1);
    }
  }

  /** The latest date whose total is exactly 0, if any. */
  function LastZeroDay(days: seq<DayTotal>): (r: Option<Day>)
    ensures r.None? <==> forall i :: 0 <= i < |days| ==> days[i].hours != 0.0
    ensures r.Some? ==> exists i :: 0 <= i < |days| && days[i].hours == 0.0 && days[i].day == r.value
    ensures r.Some? ==> forall i :: 0 <= i < |days| && days[i].hours == 0.0 ==> days[i].day <= r.value
  {
    if days == [] then None
    else
      var n := |days| - 1;
      var rest := LastZeroDay(days[..n]);
      assert forall i :: 0 <= i < n ==> days[..n][i] == days[i];
      if days[n].hours != 0.0 then rest
      else match rest
        case None => Some(days[n].day)
        case Some(d) => Some(if days[n].day > d then days[n].day else d)
  }

  /** The current streak: days from the latest zero-hour date to `today`, 0
      when no date has exactly 0 hours.  The days in between are not checked. */
  function CurrentStreak(days: seq<DayTotal>, today: Day): (r: int)
    ensures (forall i :: 0 <= i < |days| ==> days[i].hours != 0.0) ==> r == 0
    ensures forall i :: 0 <= i < |days| && days[i].hours == 0.0 ==> r <= today - days[i].day
    ensures (exists i :: 0 <= i < |days| && days[i].hours == 0.0) ==>
              exists i :: 0 <= i < |days| && days[i].hours == 0.0 && r == today - days[i].day
  {
    match LastZeroDay(days)
    case None => 0
    case Some(d) => today - d
  }
}
