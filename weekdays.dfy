/** Average study hours per day of the week over a chosen period
    (treatment.py lines 185-206): the hours logged on a weekday divided by
    the number of distinct dates of the period that fall on that weekday,
    listed Monday to Sunday for the weekdays that occur. */
module Weekdays {
  import opened Frame
  import opened Grouping

  datatype WeekdayAverage = WeekdayAverage(weekday: int, average: real)

  function WeekdayOf(r: Session): int { Weekday(r.day) }

  /** The summed hours of the rows falling on weekday `w`, missing values skipped. */
  function HoursOnWeekday(rows: seq<Session>, w: int): real {
    SumBy(rows, WeekdayOf, ValidHours, w)
  }

  /** The distinct dates of the rows that fall on weekday `w`. */
  function DatesOnWeekday(rows: seq<Session>, w: int): set<Day> {
    if rows == [] then {}
    else DatesOnWeekday(rows[..|rows| - 1], w)
         + (if Weekday(rows[|rows| - 1].day) == w then {rows[|rows| - 1].day} else {})
  }

  /** A weekday that occurs in the rows has at least one date. */
  lemma {:induction false} OccurringWeekdayHasDates(rows: seq<Session>, w: int)
    requires w in KeysOf(rows, WeekdayOf)
    ensures 0 <= w < 7
    ensures |DatesOnWeekday(rows, w)| >= 1
  {
    var n := |rows| - 1;
    if WeekdayOf(rows[n]) == w {
      assert rows[n].day in DatesOnWeekday(rows, w);
    } else {
      OccurringWeekdayHasDates(rows[..n], w);
    }
  }

  /** `a` is the entry of weekday `a.weekday`, which occurs in the rows, and
      holds that weekday's hours over its number of distinct dates. */
  ghost predicate IsAverageOf(rows: seq<Session>, a: WeekdayAverage) {
    && 0 <= a.weekday < 7
    && |DatesOnWeekday(rows, a.weekday)| >= 1
    && a.average == HoursOnWeekday(rows, a.weekday) / |DatesOnWeekday(rows, a.weekday)| as real
  }

  function ToAverages(rows: seq<Session>, bs: seq<Bucket>): (r: seq<WeekdayAverage>)
    requires forall i :: 0 <= i < |bs| ==> |DatesOnWeekday(rows, bs[i].key)| >= 1
    ensures |r| == |bs|
    ensures forall i :: 0 <= i < |bs| ==> r[i].weekday == bs[i].key
    ensures forall i :: 0 <= i < |bs| ==>
              r[i].average == bs[i].total / |DatesOnWeekday(rows, bs[i].key)| as real
  {
    if bs == [] then []
    else
      [WeekdayAverage(bs[0].key, bs[0].total / |DatesOnWeekday(rows, bs[0].key)| as real)]
      + ToAverages(rows, bs[1..])
  }

  lemma BucketIsAverage(rows: seq<Session>, bs: seq<Bucket>, r: seq<WeekdayAverage>, i: nat)
    requires bs == GroupBy(rows, WeekdayOf, ValidHours) && i < |bs|
    requires |r| == |bs| && r[i].weekday == bs[i].key
    requires |DatesOnWeekday(rows, bs[i].key)| >= 1
    requires r[i].average == bs[i].total / |DatesOnWeekday(rows, bs[i].key)| as real
    ensures IsAverageOf(rows, r[i])
  {
    BucketLookup(bs, i);
    KeysMembership(bs, bs[i].key);
    OccurringWeekdayHasDates(rows, bs[i].key);
  }

  /** Every bucket's weekday occurs, so has a date to divide by. */
  lemma BucketsHaveDates(window: seq<Session>, bs: seq<Bucket>)
    requires bs == GroupBy(window, WeekdayOf, ValidHours)
    ensures forall i :: 0 <= i < |bs| ==> |DatesOnWeekday(window, bs[i].key)| >= 1
  {
    forall i | 0 <= i < |bs| ensures |DatesOnWeekday(window, bs[i].key)| >= 1 {
      KeysMembership(bs, bs[i].key);
      OccurringWeekdayHasDates(window, bs[i].key);
    }
  }

  /** The averages cover exactly the weekdays of the rows. */
  lemma AveragesCoverWeekdays(window: seq<Session>, bs: seq<Bucket>, r: seq<WeekdayAverage>)
    requires bs == GroupBy(window, WeekdayOf, ValidHours)
    requires |r| == |bs| && forall i :: 0 <= i < |bs| ==> r[i].weekday == bs[i].key
    ensures forall x :: x in window ==> exists i :: 0 <= i < |r| && r[i].weekday == Weekday(x.day)
    ensures forall i :: 0 <= i < |r| ==> exists x :: x in window && Weekday(x.day) == r[i].weekday
  {
    forall x | x in window ensures exists i :: 0 <= i < |r| && r[i].weekday == Weekday(x.day) {
      KeyOfMember(window, x);
      KeysMembership(bs, WeekdayOf(x));
    }
    forall i | 0 <= i < |r| ensures exists x :: x in window && Weekday(x.day) == r[i].weekday {
      KeysMembership(bs, bs[i].key);
      MemberOfKey(window, bs[i].key);
    }
  }

  /** The per-weekday average over the rows of the period (everything, or the
      rows on or after a day): weekdays ascending from Monday, each present
      weekday exactly once, each with its hours over its distinct dates. */
  function WeekdayAverages(rows: seq<Session>, since: Option<Day>): (r: seq<WeekdayAverage>)
    ensures forall i, j :: 0 <= i < j < |r| ==> r[i].weekday < r[j].weekday
    ensures forall i :: 0 <= i < |r| ==> IsAverageOf(Period(rows, since), r[i])
    ensures forall x :: x in Period(rows, since) ==>
              exists i :: 0 <= i < |r| && r[i].weekday == Weekday(x.day)
    ensures forall i :: 0 <= i < |r| ==>
              exists x :: x in Period(rows, since) && Weekday(x.day) == r[i].weekday
  {
    var window := Period(rows, since);
    var bs := GroupBy(window, WeekdayOf, ValidHours);
    BucketsHaveDates(window, bs);
    var r := ToAverages(window, bs);
    forall i | 0 <= i < |r| ensures IsAverageOf(window, r[i]) {
      BucketIsAverage(window, bs, r, i);
    }
    AveragesCoverWeekdays(window, bs, r);
    r
  }

  lemma {:induction false} KeyOfMember(rows: seq<Session>, x: Session)
    requires x in rows
    ensures WeekdayOf(x) in KeysOf(rows, WeekdayOf)
  {
    var n := |rows| - 1;
    if x != rows[n] {
      var i :| 0 <= i < |rows| && rows[i] == x;
      assert rows[..n][i] == x;
      KeyOfMember(rows[..n], x);
    }
  }

  lemma {:induction false} MemberOfKey(rows: seq<Session>, w: int)
    requires w in KeysOf(rows, WeekdayOf)
    ensures exists x :: x in rows && Weekday(x.day) == w
  {
    var n := |rows| - 1;
    if WeekdayOf(rows[n]) != w {
      MemberOfKey(rows[..n], w);
      var x :| x in rows[..n] && Weekday(x.day) == w;
      assert x in rows;
    }
  }
}
