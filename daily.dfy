/** The per-day aggregate of the log (one row per date that occurs in the
    log, with that date's summed hours, ascending by date) and the weekly
    mean derived from it (treatment.py lines 33, 35-36 and 139). */
module Daily {
  import opened Frame
  import opened Grouping

  /** One row of the daily aggregate. */
  datatype DayTotal = DayTotal(day: Day, hours: real)

  /** One row of the weekly aggregate: the Monday that starts the week and
      the mean of the daily totals of the dates of that week. */
  datatype WeekMean = WeekMean(week: Day, mean: real)

  /** A day the user studied: its total is strictly positive. */
  predicate Studied(t: DayTotal) {
    t.hours > 0.0
  }

  predicate DatesAscending(days: seq<DayTotal>) {
    forall i, j :: 0 <= i < j < |days| ==> days[i].day < days[j].day
  }

  function DayOf(r: Session): Day { r.day }

  /** The distinct dates of the log. */
  function Dates(rows: seq<Session>): set<Day> {
    KeysOf(rows, DayOf)
  }

  /** The summed hours of the rows dated `d`, missing values skipped. */
  function HoursOn(rows: seq<Session>, d: Day): real {
    SumBy(rows, DayOf, ValidHours, d)
  }

  function ToDayTotals(bs: seq<Bucket>): (r: seq<DayTotal>)
    ensures |r| == |bs|
    ensures forall i :: 0 <= i < |bs| ==> r[i] == DayTotal(bs[i].key, bs[i].total)
  {
    if bs == [] then [] else [DayTotal(bs[0].key, bs[0].total)] + ToDayTotals(bs[1..])
  }

  /** The daily aggregate `groupby("Full_Date")['Hours'].sum()`: one row per
      date of the log, ascending by date, each holding that date's hours.  A
      date whose rows all have missing hours is kept, with total 0. */
  function DailyTotals(rows: seq<Session>): (daily: seq<DayTotal>)
    ensures DatesAscending(daily)
    ensures forall i :: 0 <= i < |daily| ==>
              daily[i].day in Dates(rows) && daily[i].hours == HoursOn(rows, daily[i].day)
    ensures forall d :: d in Dates(rows) ==> exists i :: 0 <= i < |daily| && daily[i].day == d
  {
    var bs := GroupBy(rows, DayOf, ValidHours);
    var daily := ToDayTotals(bs);
    forall i | 0 <= i < |daily|
      ensures daily[i].day in Dates(rows) && daily[i].hours == HoursOn(rows, daily[i].day)
    {
      BucketLookup(bs, i);
      KeysMembership(bs, bs[i].key);
    }
    forall d | d in Dates(rows) ensures exists i :: 0 <= i < |daily| && daily[i].day == d {
      KeysMembership(bs, d);
    }
    daily
  }

  /** The sum of the daily totals. */
  function SumDaily(days: seq<DayTotal>): real {
    if days == [] then 0.0 else days[0].hours + SumDaily(days[1..])
  }

  lemma {:induction false} SumOfDayTotals(bs: seq<Bucket>)
    ensures SumDaily(ToDayTotals(bs)) == GrandTotal(bs)
  {
    if bs != [] {
      assert ToDayTotals(bs)[1..] == ToDayTotals(bs[1..]);
      SumOfDayTotals(bs[1..]);
    }
  }

  /** The daily aggregate has exactly as many rows as the log has distinct dates. */
  lemma DailyRowCount(rows: seq<Session>)
    ensures |DailyTotals(rows)| == |Dates(rows)|
  {
    var bs := GroupBy(rows, DayOf, ValidHours);
    KeysCardinality(bs);
  }

  /** Grouping by day neither loses nor invents hours: the daily totals add up
      to the sum of all the valid hours of the log. */
  lemma DailyTotalsKeepHours(rows: seq<Session>)
    ensures SumDaily(DailyTotals(rows)) == SumAll(rows, ValidHours)
  {
    SumOfDayTotals(GroupBy(rows, DayOf, ValidHours));
  }

  function WeekOf(t: DayTotal): Day { WeekStart(t.day) }

  function HoursOf(t: DayTotal): real { t.hours }

  function ToWeekMeans(bs: seq<Bucket>): (r: seq<WeekMean>)
    requires WellFormed(bs)
    ensures |r| == |bs|
    ensures forall i :: 0 <= i < |bs| ==> r[i] == WeekMean(bs[i].key, bs[i].total / bs[i].size as real)
  {
    if bs == [] then []
    else [WeekMean(bs[0].key, bs[0].total / bs[0].size as real)] + ToWeekMeans(bs[1..])
  }

  /** The weekly aggregate: the daily rows grouped by the Monday that starts
      their week, each week holding the mean of its daily totals (rows
      present in the daily aggregate only; weeks come out ascending).  */
  function WeeklyMeans(daily: seq<DayTotal>): (weeks: seq<WeekMean>)
    ensures forall i, j :: 0 <= i < j < |weeks| ==> weeks[i].week < weeks[j].week
    ensures forall i :: 0 <= i < |weeks| ==> WeekIsMean(daily, weeks[i])
    ensures forall t :: t in daily ==> exists i :: 0 <= i < |weeks| && weeks[i].week == WeekStart(t.day)
  {
    var bs := GroupBy(daily, WeekOf, HoursOf);
    var weeks := ToWeekMeans(bs);
    forall i | 0 <= i < |weeks| ensures WeekIsMean(daily, weeks[i]) {
      BucketIsWeek(daily, bs, i);
    }
    forall t | t in daily ensures exists i :: 0 <= i < |weeks| && weeks[i].week == WeekStart(t.day) {
      KeyOfMember(daily, t);
      KeysMembership(bs, WeekStart(t.day));
    }
    weeks
  }

  /** `w` starts a week (a Monday) that has daily rows, and its mean is the
      sum of their totals over their number. */
  ghost predicate WeekIsMean(daily: seq<DayTotal>, w: WeekMean) {
    && Weekday(w.week) == 0
    && CountBy(daily, WeekOf, w.week) > 0
    && w.mean == SumBy(daily, WeekOf, HoursOf, w.week) / CountBy(daily, WeekOf, w.week) as real
  }

  lemma BucketIsWeek(daily: seq<DayTotal>, bs: seq<Bucket>, i: nat)
    requires bs == GroupBy(daily, WeekOf, HoursOf) && i < |bs|
    ensures WeekIsMean(daily, WeekMean(bs[i].key, bs[i].total / bs[i].size as real))
  {
    BucketLookup(bs, i);
    KeysMembership(bs, bs[i].key);
    WeekKeyIsMonday(daily, bs[i].key);
  }

  lemma {:induction false} WeekKeyIsMonday(daily: seq<DayTotal>, w: Day)
    requires w in KeysOf(daily, WeekOf)
    ensures Weekday(w) == 0
  {
    if daily != [] && w !in {WeekOf(daily[|daily| - 1])} {
      WeekKeyIsMonday(daily[..|daily| - 1], w);
    }
  }

  lemma {:induction false} KeyOfMember(daily: seq<DayTotal>, t: DayTotal)
    requires t in daily
    ensures WeekOf(t) in KeysOf(daily, WeekOf)
  {
    if t != daily[|daily| - 1] {
      assert t in daily[..|daily| - 1] by {
        var i :| 0 <= i < |daily| && daily[i] == t;
        assert daily[..|daily| - 1][i] == t;
      }
      KeyOfMember(daily[..|daily| - 1], t);
    }
  }
}
