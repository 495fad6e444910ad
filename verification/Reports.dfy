/** Ascending traversal of a set of dates. */
module Ascending {

  lemma NonEmpty(keys: set<int>)
    ensures keys == {} || exists k :: k in keys
  {
    assert (forall k :: k !in keys) ==> keys == {};
  }

  /** The least element, as `sorted` yields it. */
  method Least(keys: set<int>) returns (least: int)
    requires keys != {}
    ensures least in keys && forall k :: k in keys ==> least <= k
  {
    NonEmpty(keys);
    least :| least in keys;
    var rest := keys - {least};
    while rest != {}
      invariant least in keys && rest <= keys && forall k :: k in keys && k !in rest ==> least <= k
      decreases rest
    {
      NonEmpty(rest);
      var k :| k in rest;
      if k < least {
        least := k;
      }
      rest := rest - {k};
    }
  }
}

/** The weekly report: loops over buckets, proved against a declarative count per week. */
module Reports {
  import opened Ascending
  import opened Domain
  import opened Schedule
  import opened Ledger

  /** A ledger row with the instant it was created. */
  datatype Dated = Dated(entry: Entry, createdAt: int)

  datatype Bucket = Bucket(completed: nat, missed: nat, excuses: nat, points: int)

  datatype Week = Week(start: int, completed: nat, missed: nat, rate: Option<real>, excuses: nat, points: int)

  /** The local Monday of the week an instant falls in; `localDay` is the household's calendar. */
  function WeekStart(localDay: int -> int, instant: int): int {
    localDay(instant) - Weekday(localDay(instant))
  }

  function Rate(completed: nat, missed: nat): Option<real> {
    if completed + missed > 0 then Some(completed as real / (completed + missed) as real) else None
  }

  // ---------------------------------------------------------------- declarative counts

  predicate DueIn(localDay: int -> int, row: TaskRow, week: int, status: Status) {
    WeekStart(localDay, row.dueAt) == week && row.status == status
  }

  predicate ExcusedIn(localDay: int -> int, row: TaskRow, week: int) {
    row.excuseSubmittedAt.Some? && WeekStart(localDay, row.excuseSubmittedAt.value) == week
  }

  function CountDue(localDay: int -> int, rows: seq<TaskRow>, week: int, status: Status): nat {
    if rows == [] then 0
    else
      CountDue(localDay, rows[..|rows| - 1], week, status)
      + (if DueIn(localDay, rows[|rows| - 1], week, status) then 1 else 0)
  }

  function CountExcuses(localDay: int -> int, rows: seq<TaskRow>, week: int): nat {
    if rows == [] then 0
    else
      CountExcuses(localDay, rows[..|rows| - 1], week) + (if ExcusedIn(localDay, rows[|rows| - 1], week) then 1 else 0)
  }

  function SumPoints(localDay: int -> int, entries: seq<Dated>, week: int): int {
    if entries == [] then 0
    else
      var last := entries[|entries| - 1];
      SumPoints(localDay, entries[..|entries| - 1], week)
      + (if WeekStart(localDay, last.createdAt) == week then last.entry.delta else 0)
  }

  /** What the report should say about one week. */
  function WeekOf(localDay: int -> int, rows: seq<TaskRow>, entries: seq<Dated>, week: int): Week {
    var completed := CountDue(localDay, rows, week, Complete);
    var missed := CountDue(localDay, rows, week, Missed);
    Week(week, completed, missed, Rate(completed, missed),
         CountExcuses(localDay, rows, week), SumPoints(localDay, entries, week))
  }

  // ---------------------------------------------------------------- the loops

  ghost predicate Counts(b: Bucket, localDay: int -> int, rows: seq<TaskRow>, entries: seq<Dated>, week: int) {
    && b.completed == CountDue(localDay, rows, week, Complete)
    && b.missed == CountDue(localDay, rows, week, Missed)
    && b.excuses == CountExcuses(localDay, rows, week)
    && b.points == SumPoints(localDay, entries, week)
  }

  ghost predicate AllCount(buckets: map<int, Bucket>, localDay: int -> int, rows: seq<TaskRow>, entries: seq<Dated>) {
    forall week :: week in buckets ==> Counts(buckets[week], localDay, rows, entries, week)
  }

  predicate IsWeek(rangeStart: int, numWeeks: int, week: int) {
    rangeStart <= week < rangeStart + 7 * numWeeks && (week - rangeStart) % 7 == 0
  }

  method EmptyBuckets(rangeStart: int, numWeeks: int) returns (buckets: map<int, Bucket>)
    ensures forall week :: week in buckets <==> IsWeek(rangeStart, numWeeks, week)
    ensures forall week :: week in buckets ==> buckets[week] == Bucket(0, 0, 0, 0)
  {
    buckets := map[];
    var i := 0;
    while i < numWeeks
      invariant 0 <= i && (numWeeks >= 0 ==> i <= numWeeks) && (numWeeks < 0 ==> i == 0)
      invariant forall week :: week in buckets <==> IsWeek(rangeStart, i, week)
      invariant forall week :: week in buckets ==> buckets[week] == Bucket(0, 0, 0, 0)
    {
      forall week
        ensures IsWeek(rangeStart, i + 1, week) <==> IsWeek(rangeStart, i, week) || week == rangeStart + 7 * i
      {
      }
      buckets := buckets[rangeStart + 7 * i := Bucket(0, 0, 0, 0)];
      i := i + 1;
    }
  }

  method CountRows(localDay: int -> int, rows: seq<TaskRow>, empty: map<int, Bucket>) returns (buckets: map<int, Bucket>)
    requires AllCount(empty, localDay, [], [])
    ensures buckets.Keys == empty.Keys && AllCount(buckets, localDay, rows, [])
  {
    buckets := empty;
    var i := 0;
    while i < |rows|
      invariant 0 <= i <= |rows| && buckets.Keys == empty.Keys
      invariant AllCount(buckets, localDay, rows[..i], [])
    {
      assert rows[..i + 1][..i] == rows[..i];
      var row := rows[i];
      var week := WeekStart(localDay, row.dueAt);
      if week in buckets {
        if row.status == Complete {
          buckets := buckets[week := buckets[week].(completed := buckets[week].completed + 1)];
        } else if row.status == Missed {
          buckets := buckets[week := buckets[week].(missed := buckets[week].missed + 1)];
        }
      }
      if row.excuseSubmittedAt.Some? {
        var excuseWeek := WeekStart(localDay, row.excuseSubmittedAt.value);
        if excuseWeek in buckets {
          buckets := buckets[excuseWeek := buckets[excuseWeek].(excuses := buckets[excuseWeek].excuses + 1)];
        }
      }
      i := i + 1;
    }
    assert rows[..i] == rows;
  }

  method CountPoints(localDay: int -> int, rows: seq<TaskRow>, entries: seq<Dated>, counted: map<int, Bucket>)
    returns (buckets: map<int, Bucket>)
    requires AllCount(counted, localDay, rows, [])
    ensures buckets.Keys == counted.Keys && AllCount(buckets, localDay, rows, entries)
  {
    buckets := counted;
    var i := 0;
    while i < |entries|
      invariant 0 <= i <= |entries| && buckets.Keys == counted.Keys
      invariant AllCount(buckets, localDay, rows, entries[..i])
    {
      assert entries[..i + 1][..i] == entries[..i];
      var week := WeekStart(localDay, entries[i].createdAt);
      if week in buckets {
        buckets := buckets[week := buckets[week].(points := buckets[week].points + entries[i].entry.delta)];
      }
      i := i + 1;
    }
    assert entries[..i] == entries;
  }

  /**
   * One entry per week from `rangeStart`, ascending, each with the figures the week's
   * rows and ledger entries declare. A negative number of weeks is an empty range.
   */
  method BuildWeeklyReport(localDay: int -> int, rows: seq<TaskRow>, entries: seq<Dated>, rangeStart: int, numWeeks: int)
    returns (report: seq<Week>)
    ensures |report| == Max(0, numWeeks)
    ensures forall i :: 0 <= i < |report| ==> report[i] == WeekOf(localDay, rows, entries, rangeStart + 7 * i)
  {
    var buckets := EmptyBuckets(rangeStart, numWeeks);
    buckets := CountRows(localDay, rows, buckets);
    buckets := CountPoints(localDay, rows, entries, buckets);
    report := [];
    var left := buckets.Keys;
    while left != {}
      invariant |report| <= Max(0, numWeeks) && left <= buckets.Keys
      invariant forall week :: week in left <==> IsWeek(rangeStart, numWeeks, week) && rangeStart + 7 * |report| <= week
      invariant forall i :: 0 <= i < |report| ==> report[i] == WeekOf(localDay, rows, entries, rangeStart + 7 * i)
      decreases left
    {
      var week := Least(left);
      NextWeek(rangeStart, numWeeks, |report|, left, week);
      var b := buckets[week];
      report := report + [Week(week, b.completed, b.missed, Rate(b.completed, b.missed), b.excuses, b.points)];
      left := left - {week};
    }
    assert IsWeek(rangeStart, numWeeks, rangeStart + 7 * |report|) ==> rangeStart + 7 * |report| in left;
  }

  lemma NextWeek(rangeStart: int, numWeeks: int, done: nat, left: set<int>, week: int)
    requires forall w :: w in left <==> IsWeek(rangeStart, numWeeks, w) && rangeStart + 7 * done <= w
    requires week in left && forall w :: w in left ==> week <= w
    ensures week == rangeStart + 7 * done && done < numWeeks
    ensures forall w :: w in left && w != week <==> IsWeek(rangeStart, numWeeks, w) && rangeStart + 7 * (done + 1) <= w
  {
    var first := rangeStart + 7 * done;
    assert (week - rangeStart) % 7 == 0;
    assert IsWeek(rangeStart, numWeeks, first);
    assert first in left;
  }

  // ---------------------------------------------------------------- what the figures mean

  /** For a Monday start, a week's figures are about exactly the seven local days from its Monday. */
  lemma MondayWeeksAreSevenDays(localDay: int -> int, instant: int, week: int)
    requires Weekday(week) == 0
    ensures WeekStart(localDay, instant) == week <==> week <= localDay(instant) < week + 7
  {
  }

  /** A start that is not a Monday matches nothing: every figure of its weeks is empty. */
  lemma {:induction false} OffMondayReportsAreEmpty(localDay: int -> int, rows: seq<TaskRow>, entries: seq<Dated>, week: int)
    requires Weekday(week) != 0
    ensures WeekOf(localDay, rows, entries, week) == Week(week, 0, 0, None, 0, 0)
  {
    NothingCounted(localDay, rows, week);
    NothingSummed(localDay, entries, week);
  }

  lemma {:induction false} NothingCounted(localDay: int -> int, rows: seq<TaskRow>, week: int)
    requires Weekday(week) != 0
    ensures CountExcuses(localDay, rows, week) == 0 && forall status :: CountDue(localDay, rows, week, status) == 0
  {
    if rows != [] {
      NothingCounted(localDay, rows[..|rows| - 1], week);
    }
  }

  lemma {:induction false} NothingSummed(localDay: int -> int, entries: seq<Dated>, week: int)
    requires Weekday(week) != 0
    ensures SumPoints(localDay, entries, week) == 0
  {
    if entries != [] {
      NothingSummed(localDay, entries[..|entries| - 1], week);
    }
  }

  /** The rate is absent exactly when nothing was completed or missed, and otherwise lies in [0, 1]. */
  lemma RateIsAProportion(completed: nat, missed: nat)
    ensures Rate(completed, missed) == None <==> completed + missed == 0
    ensures Rate(completed, missed).Some? ==>
              && 0.0 <= Rate(completed, missed).value <= 1.0
              && Rate(completed, missed).value * (completed + missed) as real == completed as real
  {
    if completed + missed > 0 {
      var total := (completed + missed) as real;
      assert 0.0 <= completed as real <= total;
    }
  }

  // ---------------------------------------------------------------- totals

  function TotalDue(localDay: int -> int, rows: seq<TaskRow>, rangeStart: int, weeks: nat, status: Status): nat {
    if weeks == 0 then 0
    else
      TotalDue(localDay, rows, rangeStart, weeks - 1, status)
      + CountDue(localDay, rows, rangeStart + 7 * (weeks - 1), status)
  }

  function TotalPoints(localDay: int -> int, entries: seq<Dated>, rangeStart: int, weeks: nat): int {
    if weeks == 0 then 0
    else
      TotalPoints(localDay, entries, rangeStart, weeks - 1) + SumPoints(localDay, entries, rangeStart + 7 * (weeks - 1))
  }

  function TotalExcuses(localDay: int -> int, rows: seq<TaskRow>, rangeStart: int, weeks: nat): nat {
    if weeks == 0 then 0
    else
      TotalExcuses(localDay, rows, rangeStart, weeks - 1) + CountExcuses(localDay, rows, rangeStart + 7 * (weeks - 1))
  }

  predicate InRangeDays(localDay: int -> int, instant: int, rangeStart: int, weeks: nat) {
    rangeStart <= localDay(instant) < rangeStart + 7 * weeks
  }

  function DueInRange(localDay: int -> int, rows: seq<TaskRow>, rangeStart: int, weeks: nat, status: Status): nat {
    if rows == [] then 0
    else
      var last := rows[|rows| - 1];
      DueInRange(localDay, rows[..|rows| - 1], rangeStart, weeks, status)
      + (if last.status == status && InRangeDays(localDay, last.dueAt, rangeStart, weeks) then 1 else 0)
  }

  function ExcusesInRange(localDay: int -> int, rows: seq<TaskRow>, rangeStart: int, weeks: nat): nat {
    if rows == [] then 0
    else
      var at := rows[|rows| - 1].excuseSubmittedAt;
      ExcusesInRange(localDay, rows[..|rows| - 1], rangeStart, weeks)
      + (if at.Some? && InRangeDays(localDay, at.value, rangeStart, weeks) then 1 else 0)
  }

  function PointsInRange(localDay: int -> int, entries: seq<Dated>, rangeStart: int, weeks: nat): int {
    if entries == [] then 0
    else
      var last := entries[|entries| - 1];
      PointsInRange(localDay, entries[..|entries| - 1], rangeStart, weeks)
      + (if InRangeDays(localDay, last.createdAt, rangeStart, weeks) then last.entry.delta else 0)
  }

  /** From a Monday start the weekly figures add up to the figures of the whole range: nothing is lost or counted twice. */
  lemma {:induction false} TotalsAddUp(localDay: int -> int, rows: seq<TaskRow>, entries: seq<Dated>, rangeStart: int, weeks: nat, status: Status)
    requires Weekday(rangeStart) == 0
    ensures TotalDue(localDay, rows, rangeStart, weeks, status) == DueInRange(localDay, rows, rangeStart, weeks, status)
    ensures TotalExcuses(localDay, rows, rangeStart, weeks) == ExcusesInRange(localDay, rows, rangeStart, weeks)
    ensures TotalPoints(localDay, entries, rangeStart, weeks) == PointsInRange(localDay, entries, rangeStart, weeks)
  {
    if weeks == 0 {
      NoWeeks(localDay, rows, entries, rangeStart, status);
    } else {
      TotalsAddUp(localDay, rows, entries, rangeStart, weeks - 1, status);
      RowsOfOneMoreWeek(localDay, rows, rangeStart, weeks, status);
      PointsOfOneMoreWeek(localDay, entries, rangeStart, weeks);
    }
  }

  /** The report's own figures, summed entry by entry. */
  function SumCompleted(report: seq<Week>): int {
    if report == [] then 0 else SumCompleted(report[..|report| - 1]) + report[|report| - 1].completed
  }

  function SumMissed(report: seq<Week>): int {
    if report == [] then 0 else SumMissed(report[..|report| - 1]) + report[|report| - 1].missed
  }

  function SumExcuses(report: seq<Week>): int {
    if report == [] then 0 else SumExcuses(report[..|report| - 1]) + report[|report| - 1].excuses
  }

  function SumOfPoints(report: seq<Week>): int {
    if report == [] then 0 else SumOfPoints(report[..|report| - 1]) + report[|report| - 1].points
  }

  /** The report is the one the loops build. */
  ghost predicate IsReport(localDay: int -> int, rows: seq<TaskRow>, entries: seq<Dated>, rangeStart: int, report: seq<Week>) {
    forall i :: 0 <= i < |report| ==> report[i] == WeekOf(localDay, rows, entries, rangeStart + 7 * i)
  }

  /**
   * One entry of a report from a Monday, field by field: the rows due in its seven days
   * that are complete, and that are missed, the excuses sent and the points booked in them.
   */
  lemma EntryFigures(localDay: int -> int, rows: seq<TaskRow>, entries: seq<Dated>, rangeStart: int, report: seq<Week>, i: nat)
    requires Weekday(rangeStart) == 0 && IsReport(localDay, rows, entries, rangeStart, report) && i < |report|
    ensures var entry, monday := report[i], rangeStart + 7 * i;
            && entry.start == monday
            && entry.completed == DueInRange(localDay, rows, monday, 1, Complete)
            && entry.missed == DueInRange(localDay, rows, monday, 1, Missed)
            && entry.excuses == ExcusesInRange(localDay, rows, monday, 1)
            && entry.points == PointsInRange(localDay, entries, monday, 1)
  {
    var monday := rangeStart + 7 * i;
    assert Weekday(monday) == 0;
    OneWeekOfRows(localDay, rows, monday, Complete);
    OneWeekOfRows(localDay, rows, monday, Missed);
    OneWeekOfPoints(localDay, entries, monday);
  }

  /** The rate of an entry is the share of its own completed among its own completed and missed. */
  lemma EntryRate(localDay: int -> int, rows: seq<TaskRow>, entries: seq<Dated>, rangeStart: int, report: seq<Week>, i: nat)
    requires IsReport(localDay, rows, entries, rangeStart, report) && i < |report|
    ensures var entry := report[i];
            && (entry.rate == None <==> entry.completed + entry.missed == 0)
            && (entry.rate.Some? ==> entry.rate.value * (entry.completed + entry.missed) as real == entry.completed as real)
  {
    RateIsAProportion(report[i].completed, report[i].missed);
  }

  lemma OneWeekOfRows(localDay: int -> int, rows: seq<TaskRow>, monday: int, status: Status)
    requires Weekday(monday) == 0
    ensures CountDue(localDay, rows, monday, status) == DueInRange(localDay, rows, monday, 1, status)
    ensures CountExcuses(localDay, rows, monday) == ExcusesInRange(localDay, rows, monday, 1)
  {
    RowsOfOneMoreWeek(localDay, rows, monday, 1, status);
    NoWeeks(localDay, rows, [], monday, status);
  }

  lemma OneWeekOfPoints(localDay: int -> int, entries: seq<Dated>, monday: int)
    requires Weekday(monday) == 0
    ensures SumPoints(localDay, entries, monday) == PointsInRange(localDay, entries, monday, 1)
  {
    PointsOfOneMoreWeek(localDay, entries, monday, 1);
    NoWeeks(localDay, [], entries, monday, Complete);
  }

  /** From a Monday the fields of the report, each summed over its entries, are the figures of the whole range. */
  lemma ReportAddsUp(localDay: int -> int, rows: seq<TaskRow>, entries: seq<Dated>, rangeStart: int, report: seq<Week>)
    requires Weekday(rangeStart) == 0 && IsReport(localDay, rows, entries, rangeStart, report)
    ensures SumCompleted(report) == DueInRange(localDay, rows, rangeStart, |report|, Complete)
    ensures SumMissed(report) == DueInRange(localDay, rows, rangeStart, |report|, Missed)
    ensures SumExcuses(report) == ExcusesInRange(localDay, rows, rangeStart, |report|)
    ensures SumOfPoints(report) == PointsInRange(localDay, entries, rangeStart, |report|)
  {
    FieldsAreTotals(localDay, rows, entries, rangeStart, report);
    TotalsAddUp(localDay, rows, entries, rangeStart, |report|, Complete);
    TotalsAddUp(localDay, rows, entries, rangeStart, |report|, Missed);
  }

  lemma {:induction false} FieldsAreTotals(localDay: int -> int, rows: seq<TaskRow>, entries: seq<Dated>, rangeStart: int, report: seq<Week>)
    requires IsReport(localDay, rows, entries, rangeStart, report)
    ensures SumCompleted(report) == TotalDue(localDay, rows, rangeStart, |report|, Complete)
    ensures SumMissed(report) == TotalDue(localDay, rows, rangeStart, |report|, Missed)
    ensures SumExcuses(report) == TotalExcuses(localDay, rows, rangeStart, |report|)
    ensures SumOfPoints(report) == TotalPoints(localDay, entries, rangeStart, |report|)
  {
    if report != [] {
      FieldsAreTotals(localDay, rows, entries, rangeStart, report[..|report| - 1]);
    }
  }

  lemma {:induction false} RowsOfOneMoreWeek(localDay: int -> int, rows: seq<TaskRow>, rangeStart: int, weeks: nat, status: Status)
    requires Weekday(rangeStart) == 0 && weeks > 0
    ensures DueInRange(localDay, rows, rangeStart, weeks, status)
            == DueInRange(localDay, rows, rangeStart, weeks - 1, status)
               + CountDue(localDay, rows, rangeStart + 7 * (weeks - 1), status)
    ensures ExcusesInRange(localDay, rows, rangeStart, weeks)
            == ExcusesInRange(localDay, rows, rangeStart, weeks - 1)
               + CountExcuses(localDay, rows, rangeStart + 7 * (weeks - 1))
  {
    if rows != [] {
      RowsOfOneMoreWeek(localDay, rows[..|rows| - 1], rangeStart, weeks, status);
      var last := rows[|rows| - 1];
      LastWeek(localDay, last.dueAt, rangeStart, weeks);
      if last.excuseSubmittedAt.Some? {
        LastWeek(localDay, last.excuseSubmittedAt.value, rangeStart, weeks);
      }
    }
  }

  lemma {:induction false} PointsOfOneMoreWeek(localDay: int -> int, entries: seq<Dated>, rangeStart: int, weeks: nat)
    requires Weekday(rangeStart) == 0 && weeks > 0
    ensures PointsInRange(localDay, entries, rangeStart, weeks)
            == PointsInRange(localDay, entries, rangeStart, weeks - 1)
               + SumPoints(localDay, entries, rangeStart + 7 * (weeks - 1))
  {
    if entries != [] {
      PointsOfOneMoreWeek(localDay, entries[..|entries| - 1], rangeStart, weeks);
      LastWeek(localDay, entries[|entries| - 1].createdAt, rangeStart, weeks);
    }
  }

  lemma LastWeek(localDay: int -> int, instant: int, rangeStart: int, weeks: nat)
    requires Weekday(rangeStart) == 0 && weeks > 0
    ensures InRangeDays(localDay, instant, rangeStart, weeks)
            <==> InRangeDays(localDay, instant, rangeStart, weeks - 1)
                 || WeekStart(localDay, instant) == rangeStart + 7 * (weeks - 1)
    ensures !(InRangeDays(localDay, instant, rangeStart, weeks - 1)
              && WeekStart(localDay, instant) == rangeStart + 7 * (weeks - 1))
  {
    MondayWeeksAreSevenDays(localDay, instant, rangeStart + 7 * (weeks - 1));
  }

  lemma {:induction false} NoWeeks(localDay: int -> int, rows: seq<TaskRow>, entries: seq<Dated>, rangeStart: int, status: Status)
    ensures DueInRange(localDay, rows, rangeStart, 0, status) == 0
    ensures ExcusesInRange(localDay, rows, rangeStart, 0) == 0
    ensures PointsInRange(localDay, entries, rangeStart, 0) == 0
  {
    if rows != [] {
      NoWeeks(localDay, rows[..|rows| - 1], entries, rangeStart, status);
    }
    if entries != [] {
      NoWeeks(localDay, rows, entries[..|entries| - 1], rangeStart, status);
    }
  }

  // ---------------------------------------------------------------- input order

  /** The order in which the queries return rows and entries does not matter. */
  lemma InputOrderIsIrrelevant(localDay: int -> int, rows: seq<TaskRow>, rows2: seq<TaskRow>,
                               entries: seq<Dated>, entries2: seq<Dated>, week: int)
    requires multiset(rows) == multiset(rows2) && multiset(entries) == multiset(entries2)
    ensures WeekOf(localDay, rows, entries, week) == WeekOf(localDay, rows2, entries2, week)
  {
    SameRows(localDay, rows, rows2, week, Complete);
    SameRows(localDay, rows, rows2, week, Missed);
    SamePoints(localDay, entries, entries2, week);
  }

  lemma {:induction false} RowsConcat(localDay: int -> int, a: seq<TaskRow>, b: seq<TaskRow>, week: int, status: Status)
    ensures CountDue(localDay, a + b, week, status) == CountDue(localDay, a, week, status) + CountDue(localDay, b, week, status)
    ensures CountExcuses(localDay, a + b, week) == CountExcuses(localDay, a, week) + CountExcuses(localDay, b, week)
  {
    if b == [] {
      assert a + b == a;
    } else {
      assert (a + b)[..|a + b| - 1] == a + b[..|b| - 1];
      RowsConcat(localDay, a, b[..|b| - 1], week, status);
    }
  }

  lemma {:induction false} PointsConcat(localDay: int -> int, a: seq<Dated>, b: seq<Dated>, week: int)
    ensures SumPoints(localDay, a + b, week) == SumPoints(localDay, a, week) + SumPoints(localDay, b, week)
  {
    if b == [] {
      assert a + b == a;
    } else {
      assert (a + b)[..|a + b| - 1] == a + b[..|b| - 1];
      PointsConcat(localDay, a, b[..|b| - 1], week);
    }
  }

  lemma {:induction false} SameRows(localDay: int -> int, a: seq<TaskRow>, b: seq<TaskRow>, week: int, status: Status)
    requires multiset(a) == multiset(b)
    ensures CountDue(localDay, a, week, status) == CountDue(localDay, b, week, status)
    ensures CountExcuses(localDay, a, week) == CountExcuses(localDay, b, week)
  {
    if a == [] {
      assert |multiset(b)| == 0;
    } else {
      var k := Pick(a, b);
      SameRows(localDay, a[..|a| - 1], b[..k] + b[k + 1..], week, status);
      RowsConcat(localDay, b[..k], [b[k]] + b[k + 1..], week, status);
      RowsConcat(localDay, [b[k]], b[k + 1..], week, status);
      RowsConcat(localDay, b[..k], b[k + 1..], week, status);
      assert [b[k]][..0] == [];
    }
  }

  lemma {:induction false} SamePoints(localDay: int -> int, a: seq<Dated>, b: seq<Dated>, week: int)
    requires multiset(a) == multiset(b)
    ensures SumPoints(localDay, a, week) == SumPoints(localDay, b, week)
  {
    if a == [] {
      assert |multiset(b)| == 0;
    } else {
      var k := Pick(a, b);
      SamePoints(localDay, a[..|a| - 1], b[..k] + b[k + 1..], week);
      PointsConcat(localDay, b[..k], [b[k]] + b[k + 1..], week);
      PointsConcat(localDay, [b[k]], b[k + 1..], week);
      PointsConcat(localDay, b[..k], b[k + 1..], week);
      assert [b[k]][..0] == [];
    }
  }
}
