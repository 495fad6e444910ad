/**
 * Generation of instances, nightly and on demand, and the two nightly sweeps, as
 * functions on the task_instances table.
 */
module Nightly {
  import opened Domain
  import opened StateMachine
  import opened Schedule

  /** One upsert: a definition as it stands, a local date, and the clock reading taken. */
  datatype Call = Call(defn: Definition, date: int, now: int)

  predicate KeyTaken(rows: seq<TaskRow>, definition: nat, dueAt: int) {
    exists k :: 0 <= k < |rows| && rows[k].definition == definition && rows[k].dueAt == dueAt
  }

  /** INSERT ... ON CONFLICT DO NOTHING on uq_instance_def_due. */
  function InsertRow(rows: seq<TaskRow>, row: TaskRow): seq<TaskRow> {
    if KeyTaken(rows, row.definition, row.dueAt) then rows else rows + [row]
  }

  function NewRow(zone: int -> int, c: Call): TaskRow {
    var due := DueAt(c.defn, zone, c.date);
    TaskRow(c.defn.id, c.defn.assignee, None, due, c.defn.pointValue,
            if due <= c.now then Overdue else Pending, None, None, None, 0)
  }

  function Upsert(rows: seq<TaskRow>, zone: int -> int, c: Call): seq<TaskRow> {
    if Scheduled(c.defn, c.date) then InsertRow(rows, NewRow(zone, c)) else rows
  }

  function Generate(rows: seq<TaskRow>, zone: int -> int, calls: seq<Call>): seq<TaskRow> {
    if calls == [] then rows
    else Upsert(Generate(rows, zone, calls[..|calls| - 1]), zone, calls[|calls| - 1])
  }

  /** The call asks for this key. */
  predicate Asks(c: Call, zone: int -> int, definition: nat, dueAt: int) {
    Scheduled(c.defn, c.date) && c.defn.id == definition && DueAt(c.defn, zone, c.date) == dueAt
  }

  ghost predicate UniqueKeys(rows: seq<TaskRow>) {
    forall j, k :: 0 <= j < k < |rows| ==> rows[j].definition != rows[k].definition || rows[j].dueAt != rows[k].dueAt
  }

  // ---------------------------------------------------------------- generation

  /**
   * Whatever the order of jobs and on-demand calls: stored rows are never touched, no
   * key is stored twice, and the keys are the old ones plus the ones asked for.
   */
  lemma {:induction false} GenerationAddsExactlyTheAskedKeys(rows: seq<TaskRow>, zone: int -> int, calls: seq<Call>)
    requires UniqueKeys(rows)
    ensures rows <= Generate(rows, zone, calls)
    ensures UniqueKeys(Generate(rows, zone, calls))
    ensures forall d: nat, t: int :: KeyTaken(Generate(rows, zone, calls), d, t)
              <==> KeyTaken(rows, d, t) || exists k :: 0 <= k < |calls| && Asks(calls[k], zone, d, t)
  {
    if calls != [] {
      var n := |calls| - 1;
      var before, c := Generate(rows, zone, calls[..n]), calls[n];
      GenerationAddsExactlyTheAskedKeys(rows, zone, calls[..n]);
      forall d: nat, t: int
        ensures KeyTaken(Upsert(before, zone, c), d, t) <==> KeyTaken(before, d, t) || Asks(c, zone, d, t)
      {
        UpsertKeys(before, zone, c, d, t);
      }
      forall d: nat, t: int
        ensures (exists k :: 0 <= k < |calls| && Asks(calls[k], zone, d, t))
                <==> (exists k :: 0 <= k < n && Asks(calls[..n][k], zone, d, t)) || Asks(c, zone, d, t)
      {
        if k :| 0 <= k < |calls| && Asks(calls[k], zone, d, t) {
          assert k < n ==> calls[..n][k] == calls[k];
        }
      }
    }
  }

  lemma UpsertKeys(rows: seq<TaskRow>, zone: int -> int, c: Call, definition: nat, dueAt: int)
    ensures KeyTaken(Upsert(rows, zone, c), definition, dueAt)
            <==> KeyTaken(rows, definition, dueAt) || Asks(c, zone, definition, dueAt)
  {
    var out := Upsert(rows, zone, c);
    if KeyTaken(rows, definition, dueAt) {
      var k :| 0 <= k < |rows| && rows[k].definition == definition && rows[k].dueAt == dueAt;
      assert out[k] == rows[k];
    }
    if Asks(c, zone, definition, dueAt) && !KeyTaken(rows, definition, dueAt) {
      assert out[|rows|] == NewRow(zone, c);
    }
  }

  /** A rerun over keys already stored does nothing at all. */
  lemma {:induction false} RerunIsANoOp(rows: seq<TaskRow>, zone: int -> int, calls: seq<Call>)
    requires forall k :: 0 <= k < |calls| && Scheduled(calls[k].defn, calls[k].date) ==>
               KeyTaken(rows, calls[k].defn.id, DueAt(calls[k].defn, zone, calls[k].date))
    ensures Generate(rows, zone, calls) == rows
  {
    if calls != [] {
      RerunIsANoOp(rows, zone, calls[..|calls| - 1]);
      assert calls[|calls| - 1] in calls;
    }
  }

  lemma GenerationIsIdempotent(rows: seq<TaskRow>, zone: int -> int, calls: seq<Call>, again: seq<Call>)
    requires UniqueKeys(rows)
    requires forall k :: 0 <= k < |again| ==>
               exists j :: 0 <= j < |calls| && calls[j].date == again[k].date
                           && calls[j].defn.(pointValue := again[k].defn.pointValue) == again[k].defn
    ensures Generate(Generate(rows, zone, calls), zone, again) == Generate(rows, zone, calls)
  {
    var once := Generate(rows, zone, calls);
    GenerationAddsExactlyTheAskedKeys(rows, zone, calls);
    forall k | 0 <= k < |again| && Scheduled(again[k].defn, again[k].date)
      ensures KeyTaken(once, again[k].defn.id, DueAt(again[k].defn, zone, again[k].date))
    {
      var j :| 0 <= j < |calls| && calls[j].date == again[k].date
               && calls[j].defn.(pointValue := again[k].defn.pointValue) == again[k].defn;
      SameAsk(zone, calls[j], again[k]);
    }
    RerunIsANoOp(once, zone, again);
  }

  lemma SameAsk(zone: int -> int, c: Call, again: Call)
    requires c.date == again.date && c.defn.(pointValue := again.defn.pointValue) == again.defn
    requires Scheduled(again.defn, again.date)
    ensures Asks(c, zone, again.defn.id, DueAt(again.defn, zone, again.date))
  {
  }

  /**
   * Each added row is the one built by the first call that asked for its key, so it
   * keeps that call's point value however the definition is edited afterwards.
   */
  lemma {:induction false} FirstCallFixesTheRow(rows: seq<TaskRow>, zone: int -> int, calls: seq<Call>, k: nat)
    requires UniqueKeys(rows) && |rows| <= k < |Generate(rows, zone, calls)|
    ensures var row := Generate(rows, zone, calls)[k];
            exists j :: 0 <= j < |calls| && Scheduled(calls[j].defn, calls[j].date) && row == NewRow(zone, calls[j])
                        && forall i :: 0 <= i < j ==> !Asks(calls[i], zone, row.definition, row.dueAt)
  {
    if calls != [] {
      var n := |calls| - 1;
      var before := Generate(rows, zone, calls[..n]);
      GenerationAddsExactlyTheAskedKeys(rows, zone, calls[..n]);
      if k < |before| {
        FirstCallFixesTheRow(rows, zone, calls[..n], k);
        var j :| 0 <= j < n && Scheduled(calls[..n][j].defn, calls[..n][j].date) && before[k] == NewRow(zone, calls[..n][j])
                 && forall i :: 0 <= i < j ==> !Asks(calls[..n][i], zone, before[k].definition, before[k].dueAt);
        assert calls[j] == calls[..n][j];
        assert forall i :: 0 <= i < j ==> calls[i] == calls[..n][i];
      } else {
        var row := NewRow(zone, calls[n]);
        assert !KeyTaken(before, row.definition, row.dueAt);
        assert forall i :: 0 <= i < n ==> calls[i] == calls[..n][i];
        assert row == NewRow(zone, calls[n]) && Scheduled(calls[n].defn, calls[n].date);
      }
    }
  }

  /**
   * The row a call asks for, read by the household: due on the call's date at the
   * definition's time of day, the assignee's, worth the definition's value, untouched, and
   * overdue at once if its due time is not after the reading taken.
   */
  ghost predicate AsScheduled(row: TaskRow, zone: int -> int, c: Call) {
    var offset := zone(c.date * 86_400 + c.defn.dueMinute * 60);
    var local := row.dueAt / 1_000_000 + offset;
    && row.dueAt % 1_000_000 == 0 && local / 86_400 == c.date && local % 86_400 == c.defn.dueMinute * 60
    && row.definition == c.defn.id && row.assignee == c.defn.assignee && row.pointValue == c.defn.pointValue
    && row.status == (if row.dueAt <= c.now then Overdue else Pending)
    && row.series == None && row.completedAt == None && row.excuseSubmittedAt == None
    && row.pausedAt == None && row.elapsed == 0
  }

  /** Every row generation adds is as some scheduled call asks for it. */
  lemma AddedRowsAreAsScheduled(rows: seq<TaskRow>, zone: int -> int, calls: seq<Call>, k: nat)
    requires UniqueKeys(rows) && |rows| <= k < |Generate(rows, zone, calls)|
    requires forall j :: 0 <= j < |calls| ==> 0 <= calls[j].defn.dueMinute < 1440
    ensures exists j :: 0 <= j < |calls| && Scheduled(calls[j].defn, calls[j].date)
                        && AsScheduled(Generate(rows, zone, calls)[k], zone, calls[j])
  {
    FirstCallFixesTheRow(rows, zone, calls, k);
    var row := Generate(rows, zone, calls)[k];
    var j :| 0 <= j < |calls| && Scheduled(calls[j].defn, calls[j].date) && row == NewRow(zone, calls[j]);
    NewRowIsAsScheduled(zone, calls[j]);
  }

  lemma NewRowIsAsScheduled(zone: int -> int, c: Call)
    requires 0 <= c.defn.dueMinute < 1440
    ensures AsScheduled(NewRow(zone, c), zone, c)
  {
    DueReadsBack(c.defn, zone, c.date);
  }

  /** The upserts of one nightly run, in the order of its two loops; `clock` gives the readings. */
  function JobCalls(defns: seq<Definition>, today: int, clock: nat -> int): seq<Call> {
    if defns == [] then []
    else
      var n := |defns| - 1;
      JobCalls(defns[..n], today, clock) + HorizonCalls(defns[n], today, HORIZON_DAYS, n * HORIZON_DAYS, clock)
  }

  function HorizonCalls(defn: Definition, today: int, days: nat, reading: nat, clock: nat -> int): (r: seq<Call>)
    ensures |r| == days
    ensures forall k :: 0 <= k < days ==> r[k] == Call(defn, today + k, clock(reading + k))
  {
    if days == 0 then []
    else
      HorizonCalls(defn, today, days - 1, reading, clock)
      + [Call(defn, today + days - 1, clock(reading + days - 1))]
  }

  ghost predicate Calls(calls: seq<Call>, defn: Definition, date: int) {
    exists k :: 0 <= k < |calls| && calls[k].defn == defn && calls[k].date == date
  }

  lemma CallsConcat(a: seq<Call>, b: seq<Call>, defn: Definition, date: int)
    ensures Calls(a + b, defn, date) <==> Calls(a, defn, date) || Calls(b, defn, date)
  {
    if k :| 0 <= k < |a| && a[k].defn == defn && a[k].date == date {
      assert (a + b)[k] == a[k];
    }
    if k :| 0 <= k < |b| && b[k].defn == defn && b[k].date == date {
      assert (a + b)[|a| + k] == b[k];
    }
  }

  /** One job upserts every definition it lists on each of the fourteen dates, and nothing else. */
  lemma {:induction false} JobCoversTheHorizon(defns: seq<Definition>, today: int, clock: nat -> int, defn: Definition, date: int)
    ensures Calls(JobCalls(defns, today, clock), defn, date)
            <==> defn in defns && today <= date < today + HORIZON_DAYS
  {
    if defns != [] {
      var n := |defns| - 1;
      var last := HorizonCalls(defns[n], today, HORIZON_DAYS, n * HORIZON_DAYS, clock);
      JobCoversTheHorizon(defns[..n], today, clock, defn, date);
      CallsConcat(JobCalls(defns[..n], today, clock), last, defn, date);
      assert defns == defns[..n] + [defns[n]];
      if defn == defns[n] && today <= date < today + HORIZON_DAYS {
        assert last[date - today].date == date;
      }
    }
  }

  /**
   * One visit to a definition: a nightly run on a local date, with the clock its upserts
   * read, or an on-demand creation for one date, at whatever point value the definition
   * then has.
   */
  datatype Visit =
    | NightlyRun(today: int, points: int, clock: nat -> int)
    | OnDemand(date: int, points: int, now: int)

  predicate Covers(v: Visit, date: int) {
    match v
    case NightlyRun(today, _, _) => today <= date < today + HORIZON_DAYS
    case OnDemand(d, _, _) => d == date
  }

  function VisitCalls(defn: Definition, v: Visit): seq<Call> {
    var priced := defn.(pointValue := v.points);
    match v
    case NightlyRun(today, _, clock) => JobCalls([priced], today, clock)
    case OnDemand(date, _, now) => [Call(priced, date, now)]
  }

  /**
   * What else may happen to the table: sweeps and requests change rows without changing
   * what identifies them, and other definitions' rows are added.
   */
  ghost predicate Meanwhile(before: seq<TaskRow>, after: seq<TaskRow>, definition: nat) {
    && |before| <= |after| && UniqueKeys(after)
    && (forall k :: 0 <= k < |before| ==> SameIdentity(before[k], after[k]))
    && (forall k :: |before| <= k < |after| ==> after[k].definition != definition)
  }

  /** `tables[i]` is what the i-th visit finds; the first holds no row of the definition. */
  ghost predicate History(defn: Definition, zone: int -> int, visits: seq<Visit>, tables: seq<seq<TaskRow>>) {
    && |tables| == |visits| + 1
    && UniqueKeys(tables[0]) && (forall k :: 0 <= k < |tables[0]| ==> tables[0][k].definition != defn.id)
    && (forall i :: 0 <= i < |visits| ==>
          Meanwhile(Generate(tables[i], zone, VisitCalls(defn, visits[i])), tables[i + 1], defn.id))
  }

  ghost predicate FirstToCover(visits: seq<Visit>, j: nat, date: int) {
    j < |visits| && Covers(visits[j], date) && forall i :: 0 <= i < j ==> !Covers(visits[i], date)
  }

  ghost predicate Covered(visits: seq<Visit>, date: int) {
    exists j :: 0 <= j < |visits| && Covers(visits[j], date)
  }

  /** The row of some scheduled date, at the price of the first visit that covered the date. */
  ghost predicate PricedAtFirstVisit(defn: Definition, zone: int -> int, visits: seq<Visit>, row: TaskRow) {
    exists date: int, j: nat ::
      && FirstToCover(visits, j, date) && Scheduled(defn, date)
      && row.definition == defn.id && row.dueAt == DueAt(defn, zone, date) && row.pointValue == visits[j].points
  }

  lemma VisitPrices(defn: Definition, v: Visit, k: nat)
    requires k < |VisitCalls(defn, v)|
    ensures VisitCalls(defn, v)[k].defn == defn.(pointValue := v.points) && Covers(v, VisitCalls(defn, v)[k].date)
  {
    if v.NightlyRun? {
      JobIsOneHorizon(defn.(pointValue := v.points), v.today, v.clock);
    }
  }

  lemma VisitAsks(defn: Definition, zone: int -> int, v: Visit, date: int)
    requires ShiftsUnderADay(defn, zone)
    ensures (exists k :: 0 <= k < |VisitCalls(defn, v)|
                         && Asks(VisitCalls(defn, v)[k], zone, defn.id, DueAt(defn, zone, date)))
            <==> Scheduled(defn, date) && Covers(v, date)
  {
    var calls := VisitCalls(defn, v);
    var priced := defn.(pointValue := v.points);
    forall k | 0 <= k < |calls|
      ensures Covers(v, calls[k].date)
      ensures Asks(calls[k], zone, defn.id, DueAt(defn, zone, date)) <==> Scheduled(defn, date) && calls[k].date == date
    {
      VisitPrices(defn, v, k);
      DueInjective(defn, zone, calls[k].date, date);
      assert DueAt(priced, zone, calls[k].date) == DueAt(defn, zone, calls[k].date);
    }
    if Scheduled(defn, date) && Covers(v, date) {
      if v.NightlyRun? {
        JobIsOneHorizon(priced, v.today, v.clock);
        assert calls[date - v.today].date == date;
      } else {
        assert calls[0].date == date;
      }
    }
  }

  lemma JobIsOneHorizon(defn: Definition, today: int, clock: nat -> int)
    ensures JobCalls([defn], today, clock) == HorizonCalls(defn, today, HORIZON_DAYS, 0, clock)
  {
    assert JobCalls([defn][..0], today, clock) == [];
  }

  lemma DueInjective(defn: Definition, zone: int -> int, a: int, b: int)
    requires ShiftsUnderADay(defn, zone)
    ensures DueAt(defn, zone, a) == DueAt(defn, zone, b) ==> a == b
  {
    if a < b {
      DueStrictlyIncreases(defn, zone, a, b);
    } else if b < a {
      DueStrictlyIncreases(defn, zone, b, a);
    }
  }

  lemma MeanwhileKeepsKeys(before: seq<TaskRow>, after: seq<TaskRow>, definition: nat, dueAt: int)
    requires Meanwhile(before, after, definition)
    ensures KeyTaken(after, definition, dueAt) <==> KeyTaken(before, definition, dueAt)
  {
    if KeyTaken(before, definition, dueAt) {
      var k :| 0 <= k < |before| && before[k].definition == definition && before[k].dueAt == dueAt;
      assert SameIdentity(before[k], after[k]);
    }
    if KeyTaken(after, definition, dueAt) {
      var k :| 0 <= k < |after| && after[k].definition == definition && after[k].dueAt == dueAt;
      assert k < |before| && SameIdentity(before[k], after[k]);
    }
  }

  /** What the visits so far leave of the definition: one row per scheduled covered date, each with its first price. */
  ghost predicate Covering(defn: Definition, zone: int -> int, visits: seq<Visit>, rows: seq<TaskRow>) {
    && UniqueKeys(rows)
    && (forall date :: KeyTaken(rows, defn.id, DueAt(defn, zone, date)) <==> Scheduled(defn, date) && Covered(visits, date))
    && (forall k :: 0 <= k < |rows| && rows[k].definition == defn.id ==> PricedAtFirstVisit(defn, zone, visits, rows[k]))
  }

  /**
   * Nightly runs on any local dates mixed with on-demand creations, in any order and with
   * any repeats, and with sweeps, requests and other definitions' jobs between them: a
   * date has one row when it is scheduled and covered and none otherwise, and every row
   * keeps the point value of the first visit that covered its date. Offset shifts under a
   * day keep two dates from sharing a row.
   */
  lemma {:induction false} VisitsLeaveOneRowPerScheduledDate(
    defn: Definition, zone: int -> int, visits: seq<Visit>, tables: seq<seq<TaskRow>>)
    requires ShiftsUnderADay(defn, zone) && History(defn, zone, visits, tables)
    ensures Covering(defn, zone, visits, tables[|visits|])
  {
    if visits != [] {
      var n := |visits| - 1;
      assert History(defn, zone, visits[..n], tables[..n + 1]);
      VisitsLeaveOneRowPerScheduledDate(defn, zone, visits[..n], tables[..n + 1]);
      VisitKeepsCovering(defn, zone, visits, tables[n]);
      CoveringMeanwhile(defn, zone, visits, Generate(tables[n], zone, VisitCalls(defn, visits[n])), tables[n + 1]);
    }
  }

  lemma CoveringMeanwhile(defn: Definition, zone: int -> int, visits: seq<Visit>, before: seq<TaskRow>, after: seq<TaskRow>)
    requires Covering(defn, zone, visits, before) && Meanwhile(before, after, defn.id)
    ensures Covering(defn, zone, visits, after)
  {
    forall date
      ensures KeyTaken(after, defn.id, DueAt(defn, zone, date)) <==> Scheduled(defn, date) && Covered(visits, date)
    {
      MeanwhileKeepsKeys(before, after, defn.id, DueAt(defn, zone, date));
    }
    forall k | 0 <= k < |after| && after[k].definition == defn.id
      ensures PricedAtFirstVisit(defn, zone, visits, after[k])
    {
      assert SameIdentity(before[k], after[k]);
      assert PricedAtFirstVisit(defn, zone, visits, before[k]);
    }
  }

  lemma VisitKeepsCovering(defn: Definition, zone: int -> int, visits: seq<Visit>, before: seq<TaskRow>)
    requires ShiftsUnderADay(defn, zone) && visits != [] && Covering(defn, zone, visits[..|visits| - 1], before)
    ensures Covering(defn, zone, visits, Generate(before, zone, VisitCalls(defn, visits[|visits| - 1])))
  {
    var n := |visits| - 1;
    var calls := VisitCalls(defn, visits[n]);
    var rows := Generate(before, zone, calls);
    GenerationAddsExactlyTheAskedKeys(before, zone, calls);
    forall date
      ensures KeyTaken(rows, defn.id, DueAt(defn, zone, date)) <==> Scheduled(defn, date) && Covered(visits, date)
    {
      VisitAsks(defn, zone, visits[n], date);
      CoveredSplits(visits, date);
    }
    forall k | 0 <= k < |rows| && rows[k].definition == defn.id
      ensures PricedAtFirstVisit(defn, zone, visits, rows[k])
    {
      if k < |before| {
        PriceStands(defn, zone, visits, before[k]);
      } else {
        LastVisitPrices(defn, zone, visits, before, k);
      }
    }
  }

  lemma PriceStands(defn: Definition, zone: int -> int, visits: seq<Visit>, row: TaskRow)
    requires visits != [] && PricedAtFirstVisit(defn, zone, visits[..|visits| - 1], row)
    ensures PricedAtFirstVisit(defn, zone, visits, row)
  {
    var init := visits[..|visits| - 1];
    var date: int, j: nat :| FirstToCover(init, j, date) && Scheduled(defn, date)
      && row.definition == defn.id && row.dueAt == DueAt(defn, zone, date) && row.pointValue == init[j].points;
    assert forall i :: 0 <= i <= j ==> visits[i] == init[i];
    assert FirstToCover(visits, j, date);
  }

  lemma CoveredSplits(visits: seq<Visit>, date: int)
    requires visits != []
    ensures Covered(visits, date) <==> Covered(visits[..|visits| - 1], date) || Covers(visits[|visits| - 1], date)
  {
    var n := |visits| - 1;
    if Covered(visits[..n], date) {
      var j :| 0 <= j < n && Covers(visits[..n][j], date);
      assert Covers(visits[j], date);
    }
    if Covered(visits, date) {
      var j :| 0 <= j < |visits| && Covers(visits[j], date);
      assert j < n ==> Covers(visits[..n][j], date);
    }
  }

  lemma LastVisitPrices(defn: Definition, zone: int -> int, visits: seq<Visit>, before: seq<TaskRow>, k: nat)
    requires visits != [] && Covering(defn, zone, visits[..|visits| - 1], before)
    requires |before| <= k < |Generate(before, zone, VisitCalls(defn, visits[|visits| - 1]))|
    ensures PricedAtFirstVisit(defn, zone, visits, Generate(before, zone, VisitCalls(defn, visits[|visits| - 1]))[k])
  {
    var n := |visits| - 1;
    var calls := VisitCalls(defn, visits[n]);
    var rows := Generate(before, zone, calls);
    FirstCallFixesTheRow(before, zone, calls, k);
    var j :| 0 <= j < |calls| && Scheduled(calls[j].defn, calls[j].date) && rows[k] == NewRow(zone, calls[j]);
    VisitPrices(defn, visits[n], j);
    GenerationAddsExactlyTheAskedKeys(before, zone, calls);
    AddedRowIsPriced(defn, zone, visits, before, rows, k, calls[j]);
  }

  lemma AddedRowIsPriced(
    defn: Definition, zone: int -> int, visits: seq<Visit>, before: seq<TaskRow>, rows: seq<TaskRow>, k: nat, c: Call)
    requires visits != [] && Covering(defn, zone, visits[..|visits| - 1], before)
    requires before <= rows && UniqueKeys(rows) && |before| <= k < |rows| && rows[k] == NewRow(zone, c)
    requires c.defn == defn.(pointValue := visits[|visits| - 1].points) && Covers(visits[|visits| - 1], c.date)
    requires Scheduled(c.defn, c.date)
    ensures PricedAtFirstVisit(defn, zone, visits, rows[k])
  {
    assert DueAt(c.defn, zone, c.date) == DueAt(defn, zone, c.date);
    NewKeyWasFree(before, rows, k, defn.id, DueAt(defn, zone, c.date));
    NewRowIsPriced(defn, zone, visits, before, c);
  }

  lemma NewRowIsPriced(defn: Definition, zone: int -> int, visits: seq<Visit>, before: seq<TaskRow>, c: Call)
    requires visits != [] && Covering(defn, zone, visits[..|visits| - 1], before)
    requires c.defn == defn.(pointValue := visits[|visits| - 1].points) && Covers(visits[|visits| - 1], c.date)
    requires Scheduled(c.defn, c.date) && !KeyTaken(before, defn.id, DueAt(defn, zone, c.date))
    ensures PricedAtFirstVisit(defn, zone, visits, NewRow(zone, c))
  {
    NotCoveredBefore(visits, c.date);
    assert FirstToCover(visits, |visits| - 1, c.date);
    assert Scheduled(defn, c.date) && DueAt(c.defn, zone, c.date) == DueAt(defn, zone, c.date);
  }

  lemma NewKeyWasFree(before: seq<TaskRow>, rows: seq<TaskRow>, k: nat, definition: nat, dueAt: int)
    requires before <= rows && UniqueKeys(rows) && |before| <= k < |rows|
    requires rows[k].definition == definition && rows[k].dueAt == dueAt
    ensures !KeyTaken(before, definition, dueAt)
  {
    forall m | 0 <= m < |before|
      ensures before[m].definition != definition || before[m].dueAt != dueAt
    {
      assert rows[m] == before[m];
    }
  }

  lemma NotCoveredBefore(visits: seq<Visit>, date: int)
    requires visits != []
    ensures !Covered(visits[..|visits| - 1], date) ==> forall i :: 0 <= i < |visits| - 1 ==> !Covers(visits[i], date)
  {
    assert forall i :: 0 <= i < |visits| - 1 ==> visits[i] == visits[..|visits| - 1][i];
  }

  // ---------------------------------------------------------------- sweeps

  function SweepRow(row: TaskRow, active: set<nat>, overdueAt: int, missedAt: int, graceHours: int): TaskRow {
    if row.definition in active then MarkMissed(MarkOverdue(row, overdueAt), missedAt, graceHours) else row
  }

  /** Both sweeps; the job reads the clock once for each. */
  function Sweep(rows: seq<TaskRow>, active: set<nat>, overdueAt: int, missedAt: int, graceHours: int): seq<TaskRow> {
    seq(|rows|, k requires 0 <= k < |rows| => SweepRow(rows[k], active, overdueAt, missedAt, graceHours))
  }

  /**
   * What a sweep makes of a row, told before it: of an active definition's, a pending one due
   * by the first reading becomes overdue, and one overdue by then whose grace is over by the
   * second becomes missed; every other row, and every other column, is left as it was.
   */
  lemma SweepChangesIff(row: TaskRow, active: set<nat>, overdueAt: int, missedAt: int, graceHours: int)
    requires RowOk(row)
    ensures var swept := SweepRow(row, active, overdueAt, missedAt, graceHours);
            var late := row.definition in active && (row.status == Overdue || (row.status == Pending && row.dueAt <= overdueAt));
            && swept == row.(status := swept.status)
            && swept.status == (if late && GraceOver(row, graceHours, missedAt) then Missed
                                else if late then Overdue
                                else row.status)
  {
  }

  /** Sweeping and sweeping again later equals sweeping only the later time. */
  lemma LateSweepSubsumes(rows: seq<TaskRow>, active: set<nat>, o1: int, m1: int, o2: int, m2: int, graceHours: int)
    requires o1 <= m1 <= o2 <= m2
    ensures Sweep(Sweep(rows, active, o1, m1, graceHours), active, o2, m2, graceHours)
            == Sweep(rows, active, o2, m2, graceHours)
  {
    forall k | 0 <= k < |rows|
      ensures SweepRow(SweepRow(rows[k], active, o1, m1, graceHours), active, o2, m2, graceHours)
              == SweepRow(rows[k], active, o2, m2, graceHours)
    {
      LateSweepSubsumesRow(rows[k], active, o1, m1, o2, m2, graceHours);
    }
  }

  lemma LateSweepSubsumesRow(row: TaskRow, active: set<nat>, o1: int, m1: int, o2: int, m2: int, graceHours: int)
    requires o1 <= m1 <= o2 <= m2
    ensures SweepRow(SweepRow(row, active, o1, m1, graceHours), active, o2, m2, graceHours)
            == SweepRow(row, active, o2, m2, graceHours)
  {
  }

  /** A swept row of an active definition: nothing due is pending, nothing overdue is out of grace. */
  predicate Settled(row: TaskRow, overdueAt: int, missedAt: int, graceHours: int) {
    && !(row.status == Pending && row.dueAt <= overdueAt)
    && !(row.status == Overdue && GraceRemaining(row, graceHours, missedAt) <= 0)
  }

  /** After a sweep every active row is settled; a settled row is one the sweep leaves alone. */
  lemma SweepSettles(rows: seq<TaskRow>, active: set<nat>, overdueAt: int, missedAt: int, graceHours: int)
    ensures forall k :: 0 <= k < |rows| && rows[k].definition in active ==>
              Settled(Sweep(rows, active, overdueAt, missedAt, graceHours)[k], overdueAt, missedAt, graceHours)
    ensures Sweep(rows, active, overdueAt, missedAt, graceHours) == rows
            <==> forall k :: 0 <= k < |rows| && rows[k].definition in active ==>
                   Settled(rows[k], overdueAt, missedAt, graceHours)
  {
    var swept := Sweep(rows, active, overdueAt, missedAt, graceHours);
    if swept == rows {
      forall k | 0 <= k < |rows| && rows[k].definition in active
        ensures Settled(rows[k], overdueAt, missedAt, graceHours)
      {
        assert swept[k] == rows[k];
      }
    }
  }

  /** Landing a late on-demand row directly in overdue equals inserting it pending and sweeping. */
  lemma DirectOverdueEqualsPendingThenSweep(
    zone: int -> int, c: Call, active: set<nat>, overdueAt: int, missedAt: int, graceHours: int)
    requires c.defn.id in active && c.now <= overdueAt <= missedAt
    ensures SweepRow(NewRow(zone, c), active, overdueAt, missedAt, graceHours)
            == SweepRow(NewRow(zone, c).(status := Pending), active, overdueAt, missedAt, graceHours)
  {
  }

  /**
   * So a whole job, generation and sweep, does not depend on the clock readings its
   * upserts took, as long as none is later than the sweep.
   */
  lemma {:induction false} JobIgnoresUpsertClock(
    rows: seq<TaskRow>, zone: int -> int, calls: seq<Call>, other: seq<Call>,
    active: set<nat>, overdueAt: int, missedAt: int, graceHours: int)
    requires |calls| == |other| && overdueAt <= missedAt
    requires forall k :: 0 <= k < |calls| ==>
               && calls[k].defn == other[k].defn && calls[k].date == other[k].date && calls[k].defn.id in active
               && calls[k].now <= overdueAt && other[k].now <= overdueAt
    ensures Sweep(Generate(rows, zone, calls), active, overdueAt, missedAt, graceHours)
            == Sweep(Generate(rows, zone, other), active, overdueAt, missedAt, graceHours)
    ensures |Generate(rows, zone, calls)| == |Generate(rows, zone, other)|
    ensures forall k :: 0 <= k < |Generate(rows, zone, calls)| ==>
              SameIdentity(Generate(rows, zone, calls)[k], Generate(rows, zone, other)[k])
  {
    if calls != [] {
      var n := |calls| - 1;
      var a, b := Generate(rows, zone, calls[..n]), Generate(rows, zone, other[..n]);
      JobIgnoresUpsertClock(rows, zone, calls[..n], other[..n], active, overdueAt, missedAt, graceHours);
      var x, y := NewRow(zone, calls[n]), NewRow(zone, other[n]);
      SameKeys(a, b, x.definition, x.dueAt);
      DirectOverdueEqualsPendingThenSweep(zone, calls[n], active, overdueAt, missedAt, graceHours);
      DirectOverdueEqualsPendingThenSweep(zone, other[n], active, overdueAt, missedAt, graceHours);
      assert x.(status := Pending) == y.(status := Pending);
      SweepAppend(a, x, active, overdueAt, missedAt, graceHours);
      SweepAppend(b, y, active, overdueAt, missedAt, graceHours);
    }
  }

  lemma SameKeys(a: seq<TaskRow>, b: seq<TaskRow>, definition: nat, dueAt: int)
    requires |a| == |b| && forall k :: 0 <= k < |a| ==> SameIdentity(a[k], b[k])
    ensures KeyTaken(a, definition, dueAt) == KeyTaken(b, definition, dueAt)
  {
    if KeyTaken(a, definition, dueAt) {
      var k :| 0 <= k < |a| && a[k].definition == definition && a[k].dueAt == dueAt;
      assert b[k].definition == definition && b[k].dueAt == dueAt;
    }
    if KeyTaken(b, definition, dueAt) {
      var k :| 0 <= k < |b| && b[k].definition == definition && b[k].dueAt == dueAt;
      assert a[k].definition == definition && a[k].dueAt == dueAt;
    }
  }

  lemma SweepAppend(rows: seq<TaskRow>, row: TaskRow, active: set<nat>, overdueAt: int, missedAt: int, graceHours: int)
    ensures Sweep(rows + [row], active, overdueAt, missedAt, graceHours)
            == Sweep(rows, active, overdueAt, missedAt, graceHours) + [SweepRow(row, active, overdueAt, missedAt, graceHours)]
  {
  }

  /**
   * A sweep that comes late is not harmless to a teen who acts in between. Completing
   * before or after the sweep differs exactly when the row is swept while overdue, or due
   * by the first reading, and its grace is gone by the second.
   */
  lemma LateSweepMattersIff(row: TaskRow, active: set<nat>, now: int, overdueAt: int, missedAt: int, graceHours: int, review: bool)
    requires row.status in {Pending, Overdue}
    ensures var sweepFirst := Act(SweepRow(row, active, overdueAt, missedAt, graceHours), DoComplete(now, review));
            var sweepLast := SweepRow(Act(row, DoComplete(now, review)), active, overdueAt, missedAt, graceHours);
            sweepFirst != sweepLast
            <==> && row.definition in active
                 && (row.status == Overdue || row.dueAt <= overdueAt)
                 && GraceRemaining(row, graceHours, missedAt) <= 0
  {
  }

  /** Cancelling is affected as completing is: a task the sweep made missed can no longer be cancelled. */
  lemma LateSweepMattersToCancelIff(row: TaskRow, active: set<nat>, now: int, overdueAt: int, missedAt: int, graceHours: int)
    requires row.status in {Pending, Overdue}
    ensures var sweepFirst := Act(SweepRow(row, active, overdueAt, missedAt, graceHours), DoCancel(now));
            var sweepLast := SweepRow(Act(row, DoCancel(now)), active, overdueAt, missedAt, graceHours);
            sweepFirst != sweepLast
            <==> && row.definition in active
                 && (row.status == Overdue || row.dueAt <= overdueAt)
                 && GraceRemaining(row, graceHours, missedAt) <= 0
  {
  }

  /**
   * An excuse is affected more widely. Sent for a due task before the sweep it finds the
   * task pending and does not stop the clock; after the sweep it does, if the task is not
   * missed by then.
   */
  lemma LateSweepMattersToExcuseIff(
    row: TaskRow, active: set<nat>, now: int, overdueAt: int, missedAt: int, graceHours: int, excuseLength: nat)
    requires RowOk(row) && row.status in {Pending, Overdue}
    ensures var sweepFirst := Act(SweepRow(row, active, overdueAt, missedAt, graceHours), DoExcuse(now, excuseLength));
            var sweepLast := SweepRow(Act(row, DoExcuse(now, excuseLength)), active, overdueAt, missedAt, graceHours);
            sweepFirst != sweepLast
            <==> && row.definition in active && excuseLength >= 10
                 && if row.status == Pending then row.dueAt <= overdueAt
                    else GraceRemaining(row, graceHours, missedAt) <= 0
  {
  }

  /** A task a day past its grace is completed if the sweep has not come by, and missed if it has. */
  lemma LateCompletionBeatsTheSweep()
    ensures var day := 24 * 3600 * MICROS;
            var row := TaskRow(0, 0, None, 0, 10, Overdue, None, None, None, 0);
            && Act(row, DoComplete(2 * day, false)).status == Complete
            && SweepRow(Act(row, DoComplete(2 * day, false)), {0}, 2 * day, 2 * day, 24).status == Complete
            && Act(SweepRow(row, {0}, 2 * day, 2 * day, 24), DoComplete(2 * day, false)).status == Missed
  {
  }
}
