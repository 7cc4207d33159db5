/** The raw study log as the dashboard reads it, after parsing: one record per
    study session, with its calendar day, its subject and its hours. */
module Frame {

  datatype Option<T> = None | Some(value: T)

  /** A calendar day is a day number: the proleptic Gregorian ordinal, where
      day 1 is 0001-01-01 (a Monday).  The difference of two days is the
      number of calendar days between them. */
  type Day = int

  /** One row of the log.  `hours` is None when the cell did not parse as a
      number (the dataframe holds a missing value there). */
  datatype Session = Session(day: Day, subject: string, hours: Option<real>)

  /** The contribution of a row to a sum: a missing value is skipped, which
      is the same as adding nothing. */
  function ValidHours(r: Session): (h: real)
    ensures r.hours.Some? ==> h == r.hours.value
    ensures r.hours.None? ==> h == 0.0
  {
    match r.hours
    case Some(x) => x
    case None => 0.0
  }

  /** Day of the week, 0 = Monday .. 6 = Sunday. */
  function Weekday(d: Day): (w: nat)
    ensures w < 7
  {
    (d + 6) % 7
  }

  /** The Monday that starts the (Monday-to-Sunday) week holding `d`. */
  function WeekStart(d: Day): (m: Day)
    ensures Weekday(m) == 0
    ensures m <= d < m + 7
  {
    d - Weekday(d)
  }

  /** The rows on or after day `since`, in their original order.  A row that
      the log holds twice is kept twice, so sums over the window count it twice. */
  function Since(rows: seq<Session>, since: Day): (r: seq<Session>)
    ensures |r| <= |rows|
    ensures forall x :: x in r <==> x in rows && x.day >= since
    ensures forall x :: multiset(r)[x] == if x.day >= since then multiset(rows)[x] else 0
  {
    if rows == [] then []
    else
      var rest := Since(rows[1..], since);
      assert rows == [rows[0]] + rows[1..];
      assert forall x :: x in rows <==> x == rows[0] || x in rows[1..];
      if rows[0].day >= since then [rows[0]] + rest else rest
  }

  /** The rows of a chosen period: everything, or the rows on or after a day,
      each as many times as the log holds it. */
  function Period(rows: seq<Session>, since: Option<Day>): (r: seq<Session>)
    ensures forall x :: x in r <==> x in rows && (since.Some? ==> x.day >= since.value)
    ensures forall x :: multiset(r)[x] ==
              if since.None? || x.day >= since.value then multiset(rows)[x] else 0
  {
    match since
    case None => rows
    case Some(d) => Since(rows, d)
  }
}
