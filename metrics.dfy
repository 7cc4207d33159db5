/** The summary counters of the dashboard: total hours, the record day, and
    the numbers of study and non-study days (treatment.py lines 131-135 and
    150-151). */
module Metrics {
  import opened Frame
  import opened Grouping
  import opened Daily

  /** `df['Hours'].sum()`: every valid value of the log, missing ones skipped. */
  function TotalHours(rows: seq<Session>): (total: real)
    ensures total == SumDaily(DailyTotals(rows))
  {
    DailyTotalsKeepHours(rows);
    SumAll(rows, ValidHours)
  }

  /** The total expressed in whole 24-hour days. */
  function DaysEquivalent(total: real): (days: real)
    ensures days * 24.0 == total
  {
    total / 24.0
  }

  /** `idxmax` over the daily totals: the position of the first row holding the
      largest total, or None for an empty aggregate (where `idxmax` raises). */
  function RecordIndex(daily: seq<DayTotal>): (k: Option<nat>)
    ensures k.None? <==> daily == []
    ensures k.Some? ==> k.value < |daily|
    ensures k.Some? ==> forall j :: 0 <= j < |daily| ==> daily[j].hours <= daily[k.value].hours
    ensures k.Some? ==> forall j :: 0 <= j < k.value ==> daily[j].hours < daily[k.value].hours
  {
    if daily == [] then None
    else
      var n := |daily| - 1;
      match RecordIndex(daily[..n])
      case None => Some(0)
      case Some(b) => if daily[n].hours > daily[b].hours then Some(n) else Some(b)
  }

  /** The record day: the date and total of the row `idxmax` picks. */
  function RecordDay(daily: seq<DayTotal>): (r: Option<DayTotal>)
    ensures r.None? <==> daily == []
    ensures r.Some? ==> r.value in daily
    ensures r.Some? ==> forall t :: t in daily ==> t.hours <= r.value.hours
  {
    match RecordIndex(daily)
    case None => None
    case Some(k) => Some(daily[k])
  }

  /** On a tie the record is the earliest of the tied dates. */
  lemma RecordIsEarliestOfTies(daily: seq<DayTotal>, t: DayTotal)
    requires DatesAscending(daily)
    requires t in daily && RecordDay(daily).Some?
    requires t.hours == RecordDay(daily).value.hours
    ensures RecordDay(daily).value.day <= t.day
  {
    var k := RecordIndex(daily).value;
    var j :| 0 <= j < |daily| && daily[j] == t;
    if j < k {
      assert daily[j].hours < daily[k].hours;
    }
  }

  /** The distinct dates with a positive total. */
  function StudiedDates(days: seq<DayTotal>): set<Day> {
    if days == [] then {}
    else StudiedDates(days[..|days| - 1])
         + (if Studied(days[|days| - 1]) then {days[|days| - 1].day} else {})
  }

  /** The distinct dates whose total is not positive. */
  function NonStudyDates(days: seq<DayTotal>): set<Day> {
    if days == [] then {}
    else NonStudyDates(days[..|days| - 1])
         + (if Studied(days[|days| - 1]) then {} else {days[|days| - 1].day})
  }

  /** The studied dates are the dates of the rows with a positive total. */
  lemma {:induction false} StudiedDatesAre(days: seq<DayTotal>)
    ensures StudiedDates(days) == set i | 0 <= i < |days| && Studied(days[i]) :: days[i].day
  {
    if days != [] {
      var n := |days| - 1;
      assert forall i :: 0 <= i < n ==> days[..n][i] == days[i];
      StudiedDatesAre(days[..n]);
    }
  }

  /** The non-study dates are the dates of the rows without a positive total. */
  lemma {:induction false} NonStudyDatesAre(days: seq<DayTotal>)
    ensures NonStudyDates(days) == set i | 0 <= i < |days| && !Studied(days[i]) :: days[i].day
  {
    if days != [] {
      var n := |days| - 1;
      assert forall i :: 0 <= i < n ==> days[..n][i] == days[i];
      NonStudyDatesAre(days[..n]);
    }
  }

  /** `nunique` of the dates of the studied rows. */
  function DistinctStudyDays(days: seq<DayTotal>): (n: nat)
    ensures n == |set i | 0 <= i < |days| && Studied(days[i]) :: days[i].day|
  {
    StudiedDatesAre(days);
    |StudiedDates(days)|
  }

  /** `nunique` of the dates of the rows without study. */
  function DaysWithoutStudy(days: seq<DayTotal>): (n: nat)
    ensures n == |set i | 0 <= i < |days| && !Studied(days[i]) :: days[i].day|
  {
    NonStudyDatesAre(days);
    |NonStudyDates(days)|
  }

  lemma {:induction false} DatesBelow(days: seq<DayTotal>, d: Day)
    requires forall i :: 0 <= i < |days| ==> days[i].day < d
    ensures d !in StudiedDates(days) && d !in NonStudyDates(days)
  {
    if days != [] {
      var n := |days| - 1;
      assert forall i :: 0 <= i < n ==> days[..n][i] == days[i];
      DatesBelow(days[..n], d);
    }
  }

  /** Every date of the daily aggregate is a study day or a non-study day and
      not both, so the two counts add up to the number of daily rows. */
  lemma {:induction false} StudyDaysPartition(days: seq<DayTotal>)
    requires DatesAscending(days)
    ensures StudiedDates(days) !! NonStudyDates(days)
    ensures |StudiedDates(days)| + |NonStudyDates(days)| == |days|
  {
    if days != [] {
      var n := |days| - 1;
      var p := days[..n];
      assert forall i :: 0 <= i < n ==> p[i] == days[i];
      StudyDaysPartition(p);
      DatesBelow(p, days[n].day);
    }
  }

  /** Over the whole log: studied plus non-study days is the number of distinct dates. */
  lemma StudyDaysCoverDates(rows: seq<Session>)
    ensures DistinctStudyDays(DailyTotals(rows)) + DaysWithoutStudy(DailyTotals(rows)) == |Dates(rows)|
  {
    StudyDaysPartition(DailyTotals(rows));
    DailyRowCount(rows);
  }
}
