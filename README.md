# Study tracker dashboard: a Dafny model of its arithmetic

The dashboard reads a log of study sessions (date, subject, hours) and shows
statistics about it: hours per day and per week, study streaks, record day,
study and non-study day counts, a subject ranking, the top three subjects of
a recent window, and the average hours per weekday. This project models that
arithmetic from `treatment.py` over an already-parsed log and proves what it
computes.

- `frame.dfy` (`Frame`) holds the log row `Session(day, subject, hours)`.
  `hours` is `None` when the cell did not parse, and sums skip it. It also holds
  the date windows and weekday arithmetic. A day is a proleptic Gregorian
  ordinal (day 1 = 0001-01-01, a Monday), so `(day + 6) % 7` is the weekday
  with 0 = Monday, and `day - weekday` is the Monday that starts its week.
- `grouping.dfy` (`Grouping`) is an integer-keyed group-by. It sums a value per
  key, counts the rows per key, and returns one bucket per distinct key in
  ascending key order. It is proved against reference sums and counts over
  the input rows.
- `daily.dfy` (`Daily`) holds the daily aggregate (one row per date of the
  log, ascending, with that date's total) and the weekly mean of the daily
  totals.
- `metrics.dfy` (`Metrics`) holds total hours, the total in days, the record
  day (`idxmax`), and the study and non-study day counts.
- `streaks.dfy` (`Streaks`) is the streak engine. The method `StreakGroups`
  fills the `Streak_Group` column with a loop over an array, as a running
  count of non-consecutive rows. `LongestStreak` takes the largest group of
  studied rows. It is proved equal to a definition that never mentions groups:
  the longest run of calendar-consecutive dates, each present with a positive
  total. It also covers the current streak.
- `subjects.dfy` (`Subjects`) holds hours per subject, the ranking by hours
  (insertion sort, proved sorted and a permutation), and the top three of a
  window.
- `weekdays.dfy` (`Weekdays`) holds the average hours per weekday over a
  period, listed Monday to Sunday.
- `dashboard.dfy` (`Dashboard`) computes the summary block in the script's
  order, and states every counter in terms of the raw log.

Three edge cases follow the script's pandas semantics:

- A date whose hours all fail to parse still gets a daily row, with total 0,
  because pandas sums a group of only missing values to 0. Such a date is a
  non-study day, and it counts as a zero-hour date for the current streak.
- With no studied day, the longest streak is the maximum of an empty column:
  NaN in the script, `None` here.
- Nothing forces totals to be non-negative. A negative total is a non-study
  day but not a zero-hour date.

## Model

| member | source | states |
|---|---|---|
| `Frame.Since` | treatment.py:122-123 | the window keeps exactly the rows dated on or after the cut-off day, each as many times as the log holds it |
| `Frame.Period` | treatment.py:185-188 | the chosen period is the whole log, or exactly the rows on or after the cut-off, with their multiplicities |
| `Frame.WeekStart` | treatment.py:35 | a week starts on a Monday, at most six days before the date |
| `Grouping.Add` | treatment.py:33 | adding a row adds its value to its key's bucket and one to its count, keeps keys ascending and unique, and changes no other bucket |
| `Grouping.GroupBy` | treatment.py:33 | one bucket per distinct key, keys ascending; each bucket holds the sum and the count of its key's rows; bucket totals add up to the sum of all values |
| `Grouping.BucketLookup` | treatment.py:33 | in ascending-key buckets, looking up a bucket's key finds that bucket |
| `Grouping.KeysCardinality` | treatment.py:33 | there are as many buckets as distinct keys |
| `Daily.DailyTotals` | treatment.py:33 | the daily aggregate is strictly ascending by date; its dates are exactly the log's dates; each row's total is the sum of the valid hours logged that date |
| `Daily.DailyRowCount` | treatment.py:33 | the daily aggregate has as many rows as the log has distinct dates |
| `Daily.DailyTotalsKeepHours` | treatment.py:33 | the daily totals add up to the sum of all valid hours of the log |
| `Daily.WeeklyMeans` | treatment.py:35-36 | weeks ascending; each week key is a Monday; each week's mean is the sum of its daily totals over its number of daily rows; every daily row's week is listed |
| `Metrics.TotalHours` | treatment.py:131 | the log's total hours equals the sum of the daily totals |
| `Metrics.DaysEquivalent` | treatment.py:132 | the total in days times 24 is the total in hours |
| `Metrics.RecordIndex` | treatment.py:133 | idxmax: None exactly for an empty aggregate; otherwise a row whose total is at least every total, and strictly above every earlier total (the first maximum) |
| `Metrics.RecordDay` | treatment.py:133-135 | the record is a row of the aggregate whose total is at least every daily total; None for an empty aggregate |
| `Metrics.RecordIsEarliestOfTies` | treatment.py:133-135 | on ties, the record date is the earliest of the tied dates |
| `Metrics.StudiedDatesAre` | treatment.py:150 | the studied dates are the dates of the rows with a positive total |
| `Metrics.NonStudyDatesAre` | treatment.py:151 | the non-study dates are the dates of the rows without a positive total |
| `Metrics.DistinctStudyDays` | treatment.py:150 | `nunique`: the number of distinct dates among the studied rows |
| `Metrics.DaysWithoutStudy` | treatment.py:151 | `nunique`: the number of distinct dates among the rows without a positive total |
| `Metrics.StudyDaysPartition` | treatment.py:150-151 | no date is both a study day and a non-study day; the two counts add up to the number of daily rows |
| `Metrics.StudyDaysCoverDates` | treatment.py:140-151 | study days plus non-study days is the number of distinct dates of the log |
| `Streaks.StreakGroups` | treatment.py:140-143 | row i's group id is the number of non-consecutive rows among rows 0..i (day gap not 1, or not studied; first row's gap is 1) |
| `Streaks.LargestGroup` | treatment.py:144-145 | max of the group sizes of the studied rows: None exactly when no row is studied; otherwise reached by some studied row's group and not exceeded by any |
| `Streaks.GroupPrefixIsRun` | treatment.py:141-144 | the studied rows of a row's group, up to that row, are exactly the run of day-apart studied rows ending there |
| `Streaks.RunIsStreak` | treatment.py:140-142 | a run of day-apart studied rows is a streak of calendar-consecutive studied dates |
| `Streaks.StreakFitsRun` | treatment.py:140-142 | in an ascending aggregate, a streak ending on a row's date fits in the run ending at that row (a missing date breaks runs) |
| `Streaks.LargestGroupIsStreak` | treatment.py:144-145 | the largest group is the length of some streak, at least 1 and at most the number of study days |
| `Streaks.StreakWithinLargestGroup` | treatment.py:144-145 | no streak of calendar-consecutive studied dates is longer than the largest group |
| `Streaks.LongestStreak` | treatment.py:139-145 | None exactly when no date is studied; otherwise between 1 and the number of study days, the length of some streak of consecutive studied dates, and no streak is longer |
| `Streaks.ZeroDayEndsStreak` | treatment.py:140-148 | over 5, 3, 0, 2 hours on four consecutive days, the longest streak is 2 and the current streak counts from the zero day |
| `Streaks.GapEndsStreak` | treatment.py:141-142 | two studied dates two days apart give streaks of length 1 only |
| `Streaks.LastZeroDay` | treatment.py:147 | the latest date whose total is exactly 0; None exactly when there is none |
| `Streaks.CurrentStreak` | treatment.py:147-148 | 0 when no date has exactly 0 hours; otherwise today minus the latest zero-hour date, without looking at the days between |
| `Subjects.AddHours` | treatment.py:109 | adding hours to a subject changes only that subject's total, adds it if new, and keeps subjects unique |
| `Subjects.SubjectTotals` | treatment.py:109 | one row per subject of the log, each with the sum of that subject's valid hours |
| `Subjects.InsertByHours` | treatment.py:110 | inserting into a ranking keeps it non-increasing and adds exactly that row |
| `Subjects.SortByHours` | treatment.py:110 | the ranking is non-increasing in hours and a permutation of its input |
| `Subjects.RankedSubjects` | treatment.py:109-110 | the subject totals, most hours first, as a permutation of the totals |
| `Subjects.RankingIsExact` | treatment.py:109-110 | the ranking lists every subject of the log exactly once, each with its total hours |
| `Subjects.DistinctAtMostOnce` | treatment.py:109 | a table without repeated subjects holds no row twice |
| `Subjects.RankingIsDistinct` | treatment.py:109-110 | the ranking names each subject at most once |
| `Subjects.DistinctCardinality` | treatment.py:109 | a table without repeated subjects has as many rows as subjects |
| `Subjects.Head3` | treatment.py:125 | `head(3)`: the first three rows of a ranking, or all of them when it is shorter |
| `Subjects.HeadOfRanking` | treatment.py:125 | the first three rows of an exact, duplicate-free ranking of the window are its top subjects |
| `Subjects.TopSubjects` | treatment.py:122-125 | at most three different subjects of the window, fewer only when it has fewer; most hours first; each with its window hours; no unlisted subject has more hours than the last one listed |
| `Weekdays.OccurringWeekdayHasDates` | treatment.py:197-201 | a weekday that occurs has at least one distinct date, so the division is defined |
| `Weekdays.AveragesCoverWeekdays` | treatment.py:194-200 | the averages list exactly the weekdays that occur in the period |
| `Weekdays.WeekdayAverages` | treatment.py:191-206 | Monday-to-Sunday order; each occurring weekday once; each average is that weekday's hours over its number of distinct dates in the period |
| `Dashboard.StudiedOnAggregate` | treatment.py:140 | a date is studied in the daily aggregate exactly when it occurs in the log with a positive total |
| `Dashboard.StreaksOfLog` | treatment.py:139-145 | the aggregate's streaks are exactly the log's runs of consecutive dates with positive totals |
| `Dashboard.RecordOfLog` | treatment.py:133-135 | the record row is a date of the log with its total, at least every date's total, and the earliest date on a tie; none only for an empty log |
| `Dashboard.StudiedRowsOfLog` | treatment.py:140-150 | the dates of the studied daily rows are exactly the log dates with a positive total |
| `Dashboard.IdleRowsOfLog` | treatment.py:140-151 | the dates of the daily rows without study are exactly the log dates with a total of 0 or less |
| `Dashboard.StudyDaysOfLog` | treatment.py:150-151 | the two `nunique` counts are the numbers of log dates with a positive total and with a total of 0 or less |
| `Dashboard.NoZeroDate` | treatment.py:147-148 | when no daily row is exactly 0, no date of the log totals exactly 0 |
| `Dashboard.LatestZeroDate` | treatment.py:147 | the latest zero-hour daily row is a zero-hour date of the log, and no later date of the log totals 0 |
| `Dashboard.CurrentOfLog` | treatment.py:147-148 | the current streak is today minus the latest zero-hour date of the log, or 0 without one |
| `Dashboard.LongestOfLog` | treatment.py:144-145 | the longest streak read on the log: None exactly when no date has a positive total, otherwise the longest run of consecutive dates with positive totals |
| `Dashboard.Summarize` | treatment.py:131-151 | the summary block on the log: total hours, total in days, the record day (earliest on ties), longest and current streak, the number of dates with a positive total, and the number with a total of 0 or less, which together are all distinct dates |

## Left out

- The guard on an empty log (treatment.py:29) is not a separate step. Every operation is total, and its contract covers the empty log.
- Fetching the CSV and the error message on failure (treatment.py:10-17) are I/O. The model starts from parsed rows.
- Parsing with `pd.to_numeric` and `pd.to_datetime` (treatment.py:30-31) are library calls. Rows arrive as day numbers, and each value is either a parsed hours value or missing. An unparseable date is not modelled.
- `datetime.now()` and the fixed 3-hour offset (treatment.py:40, 122, 148, 179) are the clock. `today` is a parameter of `CurrentStreak`. Line 148 uses the undelayed clock, unlike line 40.
- The window cut-offs (treatment.py:122-123, 179-186) compare each date's midnight with an instant `now - N days`. The model takes the first included day as the parameter `since`.
- Weekday names (`day_name`, treatment.py:191) and week periods (`to_period('W')`, treatment.py:35) are calendar library calls. They are replaced by ordinal arithmetic, with weekday 0 = Monday. The categorical Monday-to-Sunday reordering (treatment.py:204-206) becomes ascending weekday numbers.
- The rolling 7-day standard deviation (treatment.py:34) is floating-point numerics with a square root.
- Rounding to two decimals and all string formatting (treatment.py:37, 97, 129, 156-169, 209, 217) are presentation.
- Hours are exact reals. Floating-point rounding in the sums is not modelled.
- Today's hours by subject (treatment.py:42-60) is a chart. Its total is `Daily.HoursOn(rows, today)`, which the model does not state separately.
- The time-of-day breakdowns (treatment.py:254, 302-305) are not modelled. They are per-category sums feeding two charts, like the subject totals.
- Subjects are always strings. A missing subject, which pandas' group-by drops, is not modelled.
- All widgets, layout and Plotly charts (treatment.py:20-27, 45-120, 153-183, 211-338) are UI.
- `Frame.Since` and `Frame.Period`: each kept row is stated with its multiplicity, but not the kept rows' order. Every consumer of a window is a sum or a group-by, which do not depend on order.
- `Subjects.SortByHours`: the order of subjects with equal hours is not promised. pandas' default descending sort is not stable, so the source promises no order among ties either.
- `Streaks.StreakGroups`: the dataframe adds its `Studied`, `Day_Diff` and `Is_Consecutive` columns in place. The model computes them per row inside the loop, and writes only the `Streak_Group` column to a new array.
- `Dashboard.Summarize`: the record day is computed before the sort at treatment.py:139, but the group-by already returns ascending dates. The sort is therefore not modelled as a separate step: `LongestStreak` requires ascending dates, and `DailyTotals` guarantees them.
