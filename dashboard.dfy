/** The summary block of the dashboard computed from the raw log, in the
    order the script computes it (treatment.py lines 131-151): total hours,
    the total in days, the record day, the longest and the current streak,
    and the numbers of study and non-study days.  Its contract speaks only of
    the log: the hours on each date and which dates occur. */
module Dashboard {
  import opened Frame
  import opened Grouping
  import opened Daily
  import opened Metrics
  import opened Streaks

  datatype Summary = Summary(
    totalHours: real,
    daysEquivalent: real,
    record: Option<DayTotal>,
    longestStreak: Option<nat>,
    currentStreak: int,
    studyDays: nat,
    daysWithoutStudy: nat)

  /** Date `d` occurs in the log and its rows add up to a positive total. */
  ghost predicate StudiedDate(rows: seq<Session>, d: Day) {
    d in Dates(rows) && HoursOn(rows, d) > 0.0
  }

  /** The `len` calendar days from `start` on are all studied dates of the log. */
  ghost predicate LogStreak(rows: seq<Session>, start: Day, len: nat) {
    len >= 1 && forall d :: start <= d < start + len ==> StudiedDate(rows, d)
  }

  /** A date is studied in the daily aggregate exactly when it is studied in the log. */
  lemma StudiedOnAggregate(rows: seq<Session>, d: Day)
    ensures StudiedOn(DailyTotals(rows), d) <==> StudiedDate(rows, d)
  {
    var daily := DailyTotals(rows);
    if StudiedDate(rows, d) {
      var i :| 0 <= i < |daily| && daily[i].day == d;
      assert Studied(daily[i]);
    }
  }

  /** The streaks of the daily aggregate are the streaks of the log. */
  lemma StreaksOfLog(rows: seq<Session>, start: Day, len: nat)
    ensures IsStreak(DailyTotals(rows), start, len) <==> LogStreak(rows, start, len)
  {
    forall d | start <= d < start + len
      ensures StudiedOn(DailyTotals(rows), d) <==> StudiedDate(rows, d)
    {
      StudiedOnAggregate(rows, d);
    }
  }

  /** Date `d` occurs in the log and its rows add up to exactly 0 hours. */
  ghost predicate ZeroDate(rows: seq<Session>, d: Day) {
    d in Dates(rows) && HoursOn(rows, d) == 0.0
  }

  /** `r` is a date of the log with the largest daily total, the earliest
      such date on a tie (None for an empty log). */
  ghost predicate IsRecordOf(rows: seq<Session>, r: Option<DayTotal>) {
    && (r.None? <==> rows == [])
    && (r.Some? ==> && r.value.day in Dates(rows)
                    && r.value.hours == HoursOn(rows, r.value.day)
                    && (forall d :: d in Dates(rows) ==> HoursOn(rows, d) <= r.value.hours)
                    && (forall d :: d in Dates(rows) && HoursOn(rows, d) == r.value.hours ==> r.value.day <= d))
  }

  /** The dates of the log whose rows add up to a positive total. */
  ghost function LogStudyDays(rows: seq<Session>): set<Day> {
    set d | d in Dates(rows) && HoursOn(rows, d) > 0.0
  }

  /** The dates of the log whose rows add up to 0 or less. */
  ghost function LogIdleDays(rows: seq<Session>): set<Day> {
    set d | d in Dates(rows) && HoursOn(rows, d) <= 0.0
  }

  /** The dates of the studied daily rows are the log's study days. */
  lemma StudiedRowsOfLog(rows: seq<Session>, daily: seq<DayTotal>)
    requires daily == DailyTotals(rows)
    ensures (set i | 0 <= i < |daily| && Studied(daily[i]) :: daily[i].day) == LogStudyDays(rows)
  {
    forall d | d in LogStudyDays(rows)
      ensures exists i :: 0 <= i < |daily| && Studied(daily[i]) && daily[i].day == d
    {
      var i :| 0 <= i < |daily| && daily[i].day == d;
      assert Studied(daily[i]);
    }
  }

  /** The dates of the daily rows without study are the log's idle days. */
  lemma IdleRowsOfLog(rows: seq<Session>, daily: seq<DayTotal>)
    requires daily == DailyTotals(rows)
    ensures (set i | 0 <= i < |daily| && !Studied(daily[i]) :: daily[i].day) == LogIdleDays(rows)
  {
    forall d | d in LogIdleDays(rows)
      ensures exists i :: 0 <= i < |daily| && !Studied(daily[i]) && daily[i].day == d
    {
      var i :| 0 <= i < |daily| && daily[i].day == d;
      assert !Studied(daily[i]);
    }
  }

  /** `nunique` over the daily aggregate counts the log's study and non-study dates. */
  lemma StudyDaysOfLog(rows: seq<Session>)
    ensures DistinctStudyDays(DailyTotals(rows)) == |LogStudyDays(rows)|
    ensures DaysWithoutStudy(DailyTotals(rows)) == |LogIdleDays(rows)|
  {
    StudiedRowsOfLog(rows, DailyTotals(rows));
    IdleRowsOfLog(rows, DailyTotals(rows));
  }

  /** `longest` is the length of the longest streak of the log (None when no
      date of the log has a positive total). */
  ghost predicate IsLongestOf(rows: seq<Session>, longest: Option<nat>) {
    && (longest.None? <==> forall d :: d in Dates(rows) ==> HoursOn(rows, d) <= 0.0)
    && (longest.Some? ==> exists start :: LogStreak(rows, start, longest.value))
    && (forall start, len: nat :: LogStreak(rows, start, len) ==> longest.Some? && len <= longest.value)
  }

  /** `current` is `today` minus the latest zero-hour date of the log, or 0 without one. */
  ghost predicate IsCurrentOf(rows: seq<Session>, today: Day, current: int) {
    && ((forall d :: !ZeroDate(rows, d)) ==> current == 0)
    && ((exists d :: ZeroDate(rows, d)) ==>
          exists d :: ZeroDate(rows, d) && current == today - d && forall e :: ZeroDate(rows, e) ==> e <= d)
  }

  /** The record row is a date of the log holding the largest daily total. */
  lemma RecordOfLog(rows: seq<Session>)
    ensures IsRecordOf(rows, RecordDay(DailyTotals(rows)))
  {
    var daily := DailyTotals(rows);
    if rows != [] {
      assert rows[|rows| - 1].day in Dates(rows);
    }
    forall d | d in Dates(rows) ensures HoursOn(rows, d) <= RecordDay(daily).value.hours {
      var i :| 0 <= i < |daily| && daily[i].day == d;
      assert daily[i] in daily;
    }
    forall d | d in Dates(rows) && HoursOn(rows, d) == RecordDay(daily).value.hours
      ensures RecordDay(daily).value.day <= d
    {
      var i :| 0 <= i < |daily| && daily[i].day == d;
      RecordIsEarliestOfTies(daily, daily[i]);
    }
  }

  /** The current streak counts from the latest date of the log whose total is exactly 0. */
  lemma CurrentOfLog(rows: seq<Session>, today: Day)
    ensures IsCurrentOf(rows, today, CurrentStreak(DailyTotals(rows), today))
  {
    var daily := DailyTotals(rows);
    var c := CurrentStreak(daily, today);
    var z := LastZeroDay(daily);
    if z.None? {
      NoZeroDate(rows);
      assert c == 0;
    } else {
      LatestZeroDate(rows, z.value);
      assert c == today - z.value;
      assert exists d :: ZeroDate(rows, d) && c == today - d && forall e :: ZeroDate(rows, e) ==> e <= d;
    }
  }

  lemma NoZeroDate(rows: seq<Session>)
    requires LastZeroDay(DailyTotals(rows)).None?
    ensures forall d :: !ZeroDate(rows, d)
  {
    var daily := DailyTotals(rows);
    forall d | d in Dates(rows) ensures HoursOn(rows, d) != 0.0 {
      var i :| 0 <= i < |daily| && daily[i].day == d;
      assert daily[i].hours != 0.0;
    }
  }

  lemma LatestZeroDate(rows: seq<Session>, z: Day)
    requires LastZeroDay(DailyTotals(rows)) == Some(z)
    ensures ZeroDate(rows, z)
    ensures forall e :: ZeroDate(rows, e) ==> e <= z
  {
    var daily := DailyTotals(rows);
    var i :| 0 <= i < |daily| && daily[i].hours == 0.0 && daily[i].day == z;
    assert ZeroDate(rows, z);
    forall e | ZeroDate(rows, e) ensures e <= z {
      var j :| 0 <= j < |daily| && daily[j].day == e;
      assert daily[j].hours == 0.0;
    }
  }

  /** Computes the summary block of the dashboard from the log. */
  method Summarize(rows: seq<Session>, today: Day) returns (s: Summary)
    ensures s.totalHours == SumAll(rows, ValidHours)
    ensures s.daysEquivalent * 24.0 == s.totalHours
    ensures IsRecordOf(rows, s.record)
    ensures IsLongestOf(rows, s.longestStreak)
    ensures IsCurrentOf(rows, today, s.currentStreak)
    ensures s.studyDays == |LogStudyDays(rows)|
    ensures s.daysWithoutStudy == |LogIdleDays(rows)|
    ensures s.studyDays + s.daysWithoutStudy == |Dates(rows)|
  {
    var daily := DailyTotals(rows);
    var total := TotalHours(rows);
    var record := RecordDay(daily);
    RecordOfLog(rows);
    var longest := LongestStreak(daily);
    LongestOfLog(rows, longest);
    var current := CurrentStreak(daily, today);
    CurrentOfLog(rows, today);
    StudyDaysCoverDates(rows);
    StudyDaysOfLog(rows);
    s := Summary(total, DaysEquivalent(total), record, longest, current,
                 DistinctStudyDays(daily), DaysWithoutStudy(daily));
  }

  /** What the streak engine promises of the daily aggregate, read on the log. */
  lemma LongestOfLog(rows: seq<Session>, longest: Option<nat>)
    requires var daily := DailyTotals(rows);
      && (longest.None? <==> forall i :: 0 <= i < |daily| ==> !Studied(daily[i]))
      && (longest.Some? ==> exists start :: IsStreak(daily, start, longest.value))
      && (forall start, len: nat :: IsStreak(daily, start, len) ==> longest.Some? && len <= longest.value)
    ensures IsLongestOf(rows, longest)
  {
    var daily := DailyTotals(rows);
    if longest.Some? {
      var start :| IsStreak(daily, start, longest.value);
      StreaksOfLog(rows, start, longest.value);
    }
    forall start, len: nat | LogStreak(rows, start, len) ensures longest.Some? && len <= longest.value {
      StreaksOfLog(rows, start, len);
    }
    if forall d :: d in Dates(rows) ==> HoursOn(rows, d) <= 0.0 {
      forall i | 0 <= i < |daily| ensures !Studied(daily[i]) {
        assert daily[i].day in Dates(rows);
      }
    } else {
      var d :| d in Dates(rows) && HoursOn(rows, d) > 0.0;
      var i :| 0 <= i < |daily| && daily[i].day == d;
      assert Studied(daily[i]);
    }
  }
}
