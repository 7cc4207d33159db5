/** Hours per subject, ranked from most to least studied, and the three most
    studied subjects of a recent window (treatment.py lines 109-110 and
    122-125). */
module Subjects {
  import opened Frame

  datatype SubjectTotal = SubjectTotal(subject: string, hours: real)

  /** The summed hours of the rows of subject `s`, missing values skipped. */
  function SubjectHours(rows: seq<Session>, s: string): real {
    if rows == [] then 0.0
    else SubjectHours(rows[..|rows| - 1], s)
         + (if rows[|rows| - 1].subject == s then ValidHours(rows[|rows| - 1]) else 0.0)
  }

  /** The distinct subjects of the rows. */
  function SubjectsOf(rows: seq<Session>): set<string> {
    if rows == [] then {} else SubjectsOf(rows[..|rows| - 1]) + {rows[|rows| - 1].subject}
  }

  /** The subjects named in a table. */
  function Named(ts: seq<SubjectTotal>): set<string> {
    if ts == [] then {} else {ts[0].subject} + Named(ts[1..])
  }

  predicate DistinctSubjects(ts: seq<SubjectTotal>) {
    forall i, j :: 0 <= i < j < |ts| ==> ts[i].subject != ts[j].subject
  }

  predicate HoursNonIncreasing(ts: seq<SubjectTotal>) {
    forall i, j :: 0 <= i < j < |ts| ==> ts[i].hours >= ts[j].hours
  }

  lemma {:induction false} NamedMembership(ts: seq<SubjectTotal>, s: string)
    ensures s in Named(ts) <==> exists i :: 0 <= i < |ts| && ts[i].subject == s
  {
    if ts != [] {
      NamedMembership(ts[1..], s);
      if s in Named(ts[1..]) {
        var i :| 0 <= i < |ts[1..]| && ts[1..][i].subject == s;
        assert ts[i + 1].subject == s;
      }
      if exists i :: 0 <= i < |ts| && ts[i].subject == s {
        var i :| 0 <= i < |ts| && ts[i].subject == s;
        if i > 0 { assert ts[1..][i - 1].subject == s; }
      }
    }
  }

  /** The hours of the row of subject `s`, 0 if there is none. */
  function HoursFor(ts: seq<SubjectTotal>, s: string): real {
    if ts == [] then 0.0 else if ts[0].subject == s then ts[0].hours else HoursFor(ts[1..], s)
  }

  lemma {:induction false} AbsentSubject(ts: seq<SubjectTotal>, s: string)
    requires s !in Named(ts)
    ensures HoursFor(ts, s) == 0.0
  {
    if ts != [] { AbsentSubject(ts[1..], s); }
  }

  lemma FirstNotInRest(ts: seq<SubjectTotal>)
    requires DistinctSubjects(ts) && ts != []
    ensures ts[0].subject !in Named(ts[1..])
  {
    forall j | 0 <= j < |ts[1..]| ensures ts[1..][j].subject != ts[0].subject {
      assert ts[1..][j] == ts[j + 1];
    }
    NamedMembership(ts[1..], ts[0].subject);
  }

  /** In a table without repeated subjects each row is the one its subject finds. */
  lemma {:induction false} RowLookup(ts: seq<SubjectTotal>, i: nat)
    requires DistinctSubjects(ts) && i < |ts|
    ensures HoursFor(ts, ts[i].subject) == ts[i].hours
  {
    if i > 0 {
      assert ts[1..][i - 1] == ts[i];
      RowLookup(ts[1..], i - 1);
    }
  }

  /** Adds `h` hours to subject `s`, appending a row for a new subject. */
  function AddHours(ts: seq<SubjectTotal>, s: string, h: real): (r: seq<SubjectTotal>)
    requires DistinctSubjects(ts)
    ensures DistinctSubjects(r)
    ensures Named(r) == Named(ts) + {s}
    ensures forall s' :: HoursFor(r, s') == HoursFor(ts, s') + (if s' == s then h else 0.0)
  {
    if ts == [] then [SubjectTotal(s, h)]
    else if ts[0].subject == s then
      FirstNotInRest(ts);
      AbsentSubject(ts[1..], s);
      [SubjectTotal(s, ts[0].hours + h)] + ts[1..]
    else
      var rest := AddHours(ts[1..], s, h);
      FirstNotInRest(ts);
      var r := [ts[0]] + rest;
      assert r[1..] == rest;
      forall j | 0 < j < |r| ensures r[j].subject != ts[0].subject {
        NamedMembership(rest, r[j].subject);
      }
      r
  }

  /** `groupby("Study")['Hours'].sum()`: one row per subject of the log with
      that subject's hours.  The group-by lists subjects by name; this table
      keeps them in order of first appearance instead, which the ranking
      below does not see: it re-orders the rows and promises no order among
      rows with equal hours. */
  function SubjectTotals(rows: seq<Session>): (ts: seq<SubjectTotal>)
    ensures DistinctSubjects(ts)
    ensures Named(ts) == SubjectsOf(rows)
    ensures forall s :: HoursFor(ts, s) == SubjectHours(rows, s)
  {
    if rows == [] then []
    else
      var last := rows[|rows| - 1];
      AddHours(SubjectTotals(rows[..|rows| - 1]), last.subject, ValidHours(last))
  }

  /** Inserts `t` before the first row with fewer hours. */
  function InsertByHours(t: SubjectTotal, ts: seq<SubjectTotal>): (r: seq<SubjectTotal>)
    requires HoursNonIncreasing(ts)
    ensures HoursNonIncreasing(r)
    ensures multiset(r) == multiset(ts) + multiset{t}
    ensures |r| == |ts| + 1 && (r[0] == t || (ts != [] && r[0] == ts[0]))
  {
    if ts == [] || t.hours >= ts[0].hours then [t] + ts
    else
      var rest := InsertByHours(t, ts[1..]);
      assert ts == [ts[0]] + ts[1..];
      assert ts[0].hours >= rest[0].hours;
      [ts[0]] + rest
  }

  /** `sort_values(by='Hours', ascending=False)`: the same rows, most hours first.
      The order of rows with equal hours is not specified. */
  function SortByHours(ts: seq<SubjectTotal>): (r: seq<SubjectTotal>)
    ensures HoursNonIncreasing(r)
    ensures multiset(r) == multiset(ts)
  {
    if ts == [] then []
    else
      assert ts == [ts[0]] + ts[1..];
      InsertByHours(ts[0], SortByHours(ts[1..]))
  }

  /** The subject totals of the log ranked by hours, most studied first. */
  function RankedSubjects(rows: seq<Session>): (r: seq<SubjectTotal>)
    ensures HoursNonIncreasing(r)
    ensures multiset(r) == multiset(SubjectTotals(rows))
  {
    SortByHours(SubjectTotals(rows))
  }

  /** Every row of the ranking carries its subject's hours, every subject of the
      log is ranked, and each subject once. */
  lemma RankingIsExact(rows: seq<Session>)
    ensures var r := RankedSubjects(rows);
      && |r| == |SubjectsOf(rows)|
      && (forall i :: 0 <= i < |r| ==> r[i].subject in SubjectsOf(rows) && r[i].hours == SubjectHours(rows, r[i].subject))
      && (forall s :: s in SubjectsOf(rows) ==> exists i :: 0 <= i < |r| && r[i].subject == s)
  {
    var ts := SubjectTotals(rows);
    var r := RankedSubjects(rows);
    forall i | 0 <= i < |r|
      ensures r[i].subject in SubjectsOf(rows) && r[i].hours == SubjectHours(rows, r[i].subject)
    {
      assert r[i] in multiset(ts);
      var j :| 0 <= j < |ts| && ts[j] == r[i];
      RowLookup(ts, j);
      NamedMembership(ts, ts[j].subject);
    }
    forall s | s in SubjectsOf(rows) ensures exists i :: 0 <= i < |r| && r[i].subject == s {
      NamedMembership(ts, s);
      var j :| 0 <= j < |ts| && ts[j].subject == s;
      assert ts[j] in multiset(r);
    }
    DistinctCardinality(ts);
    assert |r| == |multiset(r)| == |multiset(ts)| == |ts|;
  }

  /** In a table without repeated subjects no row occurs twice. */
  lemma {:induction false} DistinctAtMostOnce(ts: seq<SubjectTotal>, x: SubjectTotal)
    requires DistinctSubjects(ts)
    ensures multiset(ts)[x] <= 1
  {
    if ts != [] {
      assert ts == [ts[0]] + ts[1..];
      forall j | 0 <= j < |ts[1..]| ensures ts[1..][j] != ts[0] {
        assert ts[1..][j] == ts[j + 1];
      }
      assert ts[0] !in ts[1..];
      DistinctAtMostOnce(ts[1..], x);
    }
  }

  /** Two positions holding the same row make it occur twice. */
  lemma TwoPositions(r: seq<SubjectTotal>, i: nat, j: nat)
    requires i < j < |r|
    ensures r[i] == r[j] ==> multiset(r)[r[i]] >= 2
  {
    assert r == r[..j] + r[j..];
    assert r[i] == r[..j][i];
    assert r[j] == r[j..][0];
  }

  /** The ranking names each subject once. */
  lemma RankingIsDistinct(rows: seq<Session>)
    ensures DistinctSubjects(RankedSubjects(rows))
  {
    var ts := SubjectTotals(rows);
    var r := RankedSubjects(rows);
    RankingIsExact(rows);
    forall i, j | 0 <= i < j < |r| ensures r[i].subject != r[j].subject {
      TwoPositions(r, i, j);
      DistinctAtMostOnce(ts, r[i]);
      assert r[i].hours == SubjectHours(rows, r[i].subject) && r[j].hours == SubjectHours(rows, r[j].subject);
    }
  }

  lemma {:induction false} DistinctCardinality(ts: seq<SubjectTotal>)
    requires DistinctSubjects(ts)
    ensures |Named(ts)| == |ts|
  {
    if ts != [] {
      FirstNotInRest(ts);
      DistinctCardinality(ts[1..]);
    }
  }

  /** The first three rows of a ranking (all of it when shorter). */
  function Head3(ranked: seq<SubjectTotal>): (top: seq<SubjectTotal>)
    ensures |top| == if |ranked| < 3 then |ranked| else 3
    ensures forall i :: 0 <= i < |top| ==> top[i] == ranked[i]
  {
    if |ranked| <= 3 then ranked else ranked[..3]
  }

  /** `top` lists at most three subjects of `window`, most hours first, each
      with its hours in the window; it is shorter than three only when the
      window has fewer subjects, and no subject of the window that it leaves
      out has more hours than the last one listed. */
  ghost predicate IsTopOf(window: seq<Session>, top: seq<SubjectTotal>) {
    && |top| <= 3
    && DistinctSubjects(top)
    && HoursNonIncreasing(top)
    && |top| == (if |SubjectsOf(window)| < 3 then |SubjectsOf(window)| else 3)
    && (forall i :: 0 <= i < |top| ==>
          top[i].subject in SubjectsOf(window) && top[i].hours == SubjectHours(window, top[i].subject))
    && (forall s :: s in SubjectsOf(window) ==>
          (exists i :: 0 <= i < |top| && top[i].subject == s)
          || SubjectHours(window, s) <= top[|top| - 1].hours)
  }

  /** The first three rows of a ranking of `window` are its three most
      studied subjects. */
  lemma HeadOfRanking(window: seq<Session>, ranked: seq<SubjectTotal>)
    requires HoursNonIncreasing(ranked) && DistinctSubjects(ranked)
    requires |ranked| == |SubjectsOf(window)|
    requires forall i :: 0 <= i < |ranked| ==>
               ranked[i].subject in SubjectsOf(window) && ranked[i].hours == SubjectHours(window, ranked[i].subject)
    requires forall s :: s in SubjectsOf(window) ==> exists i :: 0 <= i < |ranked| && ranked[i].subject == s
    ensures IsTopOf(window, Head3(ranked))
  {
    var top := Head3(ranked);
    assert forall i :: 0 <= i < |top| ==> top[i] == ranked[i];
    forall s | s in SubjectsOf(window)
      ensures (exists i :: 0 <= i < |top| && top[i].subject == s)
              || SubjectHours(window, s) <= top[|top| - 1].hours
    {
      var i :| 0 <= i < |ranked| && ranked[i].subject == s;
      if i >= 3 {
        assert ranked[2].hours >= ranked[i].hours;
      } else {
        assert top[i].subject == s;
      }
    }
  }

  /** `head(3)` of the ranking of the rows on or after day `since`. */
  function TopSubjects(rows: seq<Session>, since: Day): (top: seq<SubjectTotal>)
    ensures IsTopOf(Since(rows, since), top)
  {
    var window := Since(rows, since);
    RankingIsExact(window);
    RankingIsDistinct(window);
    HeadOfRanking(window, RankedSubjects(window));
    Head3(RankedSubjects(window))
  }
}
