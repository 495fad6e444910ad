/**
 * The services and handlers as they run: one database session per request, rows changed
 * in place, ledger rows flushed, the whole committed or rolled back. Each method is
 * proved to do what the transaction functions of Points, Nightly and Bulk say.
 */
module Session {
  import opened Domain
  import opened StateMachine
  import opened Schedule
  import opened Ledger
  import opened Nightly
  import opened Points
  import opened Bulk
  import Runs
  import JobRuns

  class DbSession {
    var rows: seq<TaskRow>
    var ledger: seq<Entry>
    var series: seq<SeriesRow>
    /** What the database holds: the state of the last commit. */
    var saved: Store

    ghost function View(): Store
      reads this
    {
      Store(rows, ledger, series)
    }

    /** The outcome of a step that started at `before`: done, or refused and, if by an index, rolled back. */
    ghost predicate Did(outcome: Result<Store>, before: Store, error: Option<Failure>)
      reads this
    {
      match outcome
      case Ok(s) => error == None && View() == s
      case Err(why) => error == Some(why) && View() == (if why == DuplicateEntry then saved else before)
    }

    /** The outcome of a whole request: committed, or nothing stored. */
    ghost predicate Settled(outcome: Result<Store>, before: Store, error: Option<Failure>)
      reads this
    {
      match outcome
      case Ok(s) => error == None && View() == s && saved == s
      case Err(why) => error == Some(why) && View() == before && saved == before
    }

    constructor (stored: Store)
      ensures View() == stored && saved == stored
    {
      rows, ledger, series := stored.rows, stored.ledger, stored.series;
      saved := stored;
    }

    method Commit()
      modifies this
      ensures View() == old(View()) && saved == old(View())
    {
      saved := Store(rows, ledger, series);
    }

    method Rollback()
      modifies this
      ensures View() == old(saved) && saved == old(saved)
    {
      rows, ledger, series := saved.rows, saved.ledger, saved.series;
    }

    // ------------------------------------------------------------ ledger service

    method Write(e: Entry) returns (error: Option<Failure>)
      modifies this
      ensures saved == old(saved)
      ensures Post(old(ledger), e).Ok? ==>
                error == None && View() == old(View()).(ledger := Post(old(ledger), e).value)
      ensures Post(old(ledger), e).Err? ==> error == Some(DuplicateEntry) && View() == old(saved)
    {
      if Taken(ledger, e) {
        Rollback();
        return Some(DuplicateEntry);
      }
      ledger := ledger + [e];
      return None;
    }

    method AwardTaskCompletion(id: nat) returns (error: Option<Failure>)
      requires id < |rows|
      modifies this
      ensures saved == old(saved)
      ensures Did(PayTask(old(View()), id, old(rows)[id].pointValue, TaskCompleted), old(View()), error)
    {
      var row := rows[id];
      var balance := Balance(ledger, row.assignee);
      error := Write(Entry(row.assignee, row.pointValue, balance + row.pointValue, TaskCompleted, Some(id), None));
    }

    method AwardExcuseIfPolicy(id: nat, policy: Policy) returns (error: Option<Failure>)
      requires id < |rows|
      modifies this
      ensures saved == old(saved)
      ensures Did(AwardExcuse(old(View()), id, policy), old(View()), error)
    {
      if policy == PaysNothing {
        return None;
      }
      var row := rows[id];
      var delta, kind := row.pointValue, TaskCompleted;
      if policy == PaysPartial {
        delta, kind := row.pointValue / 2, ExcusedPartial;
      }
      var balance := Balance(ledger, row.assignee);
      error := Write(Entry(row.assignee, delta, balance + delta, kind, Some(id), None));
    }

    /** award_series_bonus and award_all_or_nothing_series, which differ only in the amount they are given. */
    method AwardSeries(sid: nat, member: nat, points: int) returns (error: Option<Failure>)
      modifies this
      ensures saved == old(saved)
      ensures var posted := Post(old(ledger), Stamp(old(ledger), member, points, SeriesBonus, None, Some(sid)));
              && (posted.Ok? ==> error == None && View() == old(View()).(ledger := posted.value))
              && (posted.Err? ==> error == Some(DuplicateEntry) && View() == old(saved))
    {
      var balance := Balance(ledger, member);
      error := Write(Entry(member, points, balance + points, SeriesBonus, None, Some(sid)));
    }

    method PayClaim(member: nat, points: int) returns (error: Option<Failure>)
      modifies this
      ensures saved == old(saved)
      ensures Did(FulfilClaim(old(View()), member, points), old(View()), error)
    {
      var balance := Balance(ledger, member);
      error := Write(Entry(member, -points, balance - points, ClaimFulfilled, None, None));
    }

    method AdjustPoints(member: nat, delta: int, blankReason: bool) returns (error: Option<Failure>)
      modifies this
      ensures saved == old(saved)
      ensures Did(Adjust(old(View()), member, delta, blankReason), old(View()), error)
    {
      if blankReason {
        return Some(BlankReason);
      }
      var balance := Balance(ledger, member);
      error := Write(Entry(member, delta, balance + delta, ManualAdjustment, None, None));
    }

    method WriteReversal(id: nat) returns (error: Option<Failure>)
      requires id < |rows|
      modifies this
      ensures saved == old(saved)
      ensures Did(PayTask(old(View()), id, -old(rows)[id].pointValue, Reversal), old(View()), error)
    {
      var row := rows[id];
      var balance := Balance(ledger, row.assignee);
      error := Write(Entry(row.assignee, -row.pointValue, balance - row.pointValue, Reversal, Some(id), None));
    }

    // ------------------------------------------------------------ state machine service

    method Suspend(id: nat, now: int)
      requires id < |rows|
      modifies this
      ensures saved == old(saved) && View() == SetRow(old(View()), id, SuspendGrace(old(rows)[id], now))
    {
      if rows[id].pausedAt.None? {
        var late := Max(0, now - rows[id].dueAt);
        rows := rows[id := rows[id].(elapsed := WholeSeconds(rows[id].elapsed * MICROS + late))];
      }
      rows := rows[id := rows[id].(pausedAt := Some(now))];
    }

    method Resume(id: nat)
      requires id < |rows|
      modifies this
      ensures saved == old(saved) && View() == SetRow(old(View()), id, ResumeGrace(old(rows)[id]))
    {
      rows := rows[id := rows[id].(pausedAt := None)];
    }

    /** Sets the status before paying; a duplicate then undoes both. */
    method Complete(id: nat, now: int, requiresReview: bool) returns (error: Option<Failure>)
      requires id < |rows|
      modifies this
      ensures saved == old(saved)
      ensures Did(CompleteInstance(old(View()), id, now, requiresReview), old(View()), error)
    {
      if rows[id].status !in {Pending, Overdue} {
        return Some(InvalidTransition);
      }
      rows := rows[id := rows[id].(completedAt := Some(now))];
      var trigger := if requiresReview then CompleteReview else CompleteAuto;
      rows := rows[id := rows[id].(status := Next(rows[id].status, trigger).value)];
      error := None;
      if rows[id].status == Status.Complete {
        error := AwardTaskCompletion(id);
      }
    }

    method SubmitExcuse(id: nat, now: int, excuseLength: nat) returns (error: Option<Failure>)
      requires id < |rows|
      modifies this
      ensures saved == old(saved)
      ensures Did(Points.ExcuseTask(old(View()), id, now, excuseLength), old(View()), error)
    {
      if rows[id].status !in {Pending, Overdue} {
        return Some(InvalidTransition);
      }
      if excuseLength < 10 {
        return Some(ExcuseTooShort);
      }
      rows := rows[id := rows[id].(excuseSubmittedAt := Some(now))];
      if rows[id].status == Overdue {
        Suspend(id, now);
      }
      rows := rows[id := rows[id].(status := Next(rows[id].status, StateMachine.SubmitExcuse).value)];
      return None;
    }

    method Review(id: nat, now: int, approve: bool, hasComment: bool) returns (error: Option<Failure>)
      requires id < |rows|
      modifies this
      ensures saved == old(saved)
      ensures old(rows)[id].status != ReviewPending ==> error == Some(InvalidTransition) && View() == old(View())
      ensures old(rows)[id].status == ReviewPending ==>
                forall p, g :: Did(Points.ReviewTask(old(View()), id, now, approve, hasComment, p, g), old(View()), error)
    {
      if rows[id].status != ReviewPending {
        return Some(InvalidTransition);
      }
      if !approve && !hasComment {
        return Some(MissingComment);
      }
      error := None;
      if approve {
        rows := rows[id := rows[id].(status := Next(ReviewPending, Approve).value)];
        error := AwardTaskCompletion(id);
      } else {
        var trigger := if now < rows[id].dueAt then DenyBeforeDue else DenyAfterDue;
        rows := rows[id := rows[id].(status := Next(ReviewPending, trigger).value)];
        if rows[id].status == Overdue {
          Resume(id);
        }
      }
    }

    method ResolveExcuse(id: nat, now: int, approve: bool, hasComment: bool, policy: Policy, graceHours: int)
      returns (error: Option<Failure>)
      requires id < |rows|
      modifies this
      ensures saved == old(saved)
      ensures old(rows)[id].status != ExcusePending ==> error == Some(InvalidTransition) && View() == old(View())
      ensures old(rows)[id].status == ExcusePending ==>
                Did(Points.ReviewTask(old(View()), id, now, approve, hasComment, policy, graceHours), old(View()), error)
    {
      if rows[id].status != ExcusePending {
        return Some(InvalidTransition);
      }
      if !approve && !hasComment {
        return Some(MissingComment);
      }
      error := None;
      if approve {
        rows := rows[id := rows[id].(status := Next(ExcusePending, Approve).value)];
        error := AwardExcuseIfPolicy(id, policy);
      } else {
        Resume(id);
        var trigger := DenyGraceExpired;
        if GraceRemaining(rows[id], graceHours, now) > 0 {
          trigger := DenyGraceRemaining;
        }
        rows := rows[id := rows[id].(status := Next(ExcusePending, trigger).value)];
      }
    }

    method CancelInstance(id: nat) returns (error: Option<Failure>)
      requires id < |rows|
      modifies this
      ensures saved == old(saved)
      ensures Did(Points.CancelTask(old(View()), id), old(View()), error)
    {
      if rows[id].status !in {Pending, Overdue} {
        return Some(InvalidTransition);
      }
      rows := rows[id := rows[id].(status := Next(rows[id].status, Cancel).value)];
      return None;
    }

    method ReverseCompletion(id: nat, now: int) returns (error: Option<Failure>)
      requires id < |rows|
      modifies this
      ensures saved == old(saved)
      ensures Did(Points.ReverseTask(old(View()), id, now), old(View()), error)
    {
      if rows[id].status != Status.Complete {
        return Some(InvalidTransition);
      }
      var trigger := if now < rows[id].dueAt then ReversesBeforeDue else ReversesAfterDue;
      rows := rows[id := rows[id].(status := Next(Status.Complete, trigger).value)];
      error := WriteReversal(id);
    }

    // ------------------------------------------------------------ series completion

    method SelectMembers(sid: nat) returns (members: seq<TaskRow>)
      ensures members == Members(rows, sid)
    {
      members := [];
      var i := 0;
      while i < |rows|
        invariant 0 <= i <= |rows|
        invariant members == Members(rows[..i], sid)
      {
        assert rows[..i + 1][..i] == rows[..i];
        if rows[i].series == Some(sid) {
          members := members + [rows[i]];
        }
        i := i + 1;
      }
      assert rows[..i] == rows;
    }

    /** The three comprehensions over the members, and the sum over the completed ones. */
    static method Sort(members: seq<TaskRow>) returns (completed: nat, excused: nat, other: nat, completedValue: int)
      ensures completed + excused + other == |members|
      ensures completed > 0 <==> exists m :: m in members && m.status == Status.Complete
      ensures excused > 0 <==> exists m :: m in members && m.status == Excused
      ensures other == 0 <==> forall m :: m in members ==> m.status in {Status.Complete, Excused}
      ensures completedValue == CompletedValue(members)
    {
      completed, excused, other, completedValue := 0, 0, 0, 0;
      var i := 0;
      while i < |members|
        invariant 0 <= i <= |members| && completed + excused + other == i
        invariant completed > 0 <==> exists k :: 0 <= k < i && members[k].status == Status.Complete
        invariant excused > 0 <==> exists k :: 0 <= k < i && members[k].status == Excused
        invariant other == 0 <==> forall k :: 0 <= k < i ==> members[k].status in {Status.Complete, Excused}
        invariant completedValue == CompletedValue(members[..i])
      {
        assert members[..i + 1][..i] == members[..i];
        if members[i].status == Status.Complete {
          completed, completedValue := completed + 1, completedValue + members[i].pointValue;
        } else if members[i].status == Excused {
          excused := excused + 1;
        } else {
          other := other + 1;
        }
        i := i + 1;
      }
      assert members[..i] == members;
    }

    method EvaluateSeries(sid: nat, now: int) returns (closed: bool, error: Option<Failure>)
      requires sid < |series|
      modifies this
      ensures saved == old(saved)
      ensures match Evaluate(old(View()), sid, now)
              case Ok(out) => error == None && View() == out.0 && closed == out.1
              case Err(why) => error == Some(why) && View() == saved && why == DuplicateEntry
    {
      if series[sid].status != Active {
        return false, None;
      }
      var members := SelectMembers(sid);
      if members == [] {
        return false, None;
      }
      var completed, excused, other, completedValue := Sort(members);
      if other > 0 {
        return false, None;
      }
      if completed == 0 && excused > 0 {
        return false, None;
      }
      if series[sid].mode == IndividualPlusBonus {
        error := AwardSeries(sid, series[sid].assignee, series[sid].bonus);
      } else {
        error := AwardSeries(sid, series[sid].assignee, completedValue + series[sid].bonus);
      }
      closed := error.None?;
      if closed {
        series := series[sid := series[sid].(status := Closed)];
        series := series[sid := series[sid].(closedAt := Some(now))];
      }
    }

    // ------------------------------------------------------------ request handlers

    /** Completing and evaluating the series, up to but not including the commit. */
    method CompleteDo(id: nat, now: int, requiresReview: bool) returns (error: Option<Failure>)
      requires View() == saved
      modifies this
      ensures saved == old(saved)
      ensures Points.CompleteTask(old(View()), id, now, requiresReview).Ok? ==>
                Did(Points.CompleteTask(old(View()), id, now, requiresReview), old(View()), error)
      ensures Points.CompleteTask(old(View()), id, now, requiresReview).Err? ==>
                error == Some(Points.CompleteTask(old(View()), id, now, requiresReview).why)
    {
      if id >= |rows| {
        return Some(NotFound);
      }
      error := Complete(id, now, requiresReview);
      if error.None? && rows[id].series.Some? && rows[id].series.value < |series| {
        var closed;
        closed, error := EvaluateSeries(rows[id].series.value, now);
      }
    }

    /** Dispatches on what the instance waits for; shared by the review endpoint and each bulk item. */
    method Answer(id: nat, now: int, approve: bool, hasComment: bool, policy: Policy, graceHours: int)
      returns (error: Option<Failure>)
      modifies this
      ensures saved == old(saved)
      ensures Did(Points.ReviewTask(old(View()), id, now, approve, hasComment, policy, graceHours), old(View()), error)
    {
      if id >= |rows| {
        return Some(NotFound);
      }
      if rows[id].status == ReviewPending {
        error := Review(id, now, approve, hasComment);
      } else if rows[id].status == ExcusePending {
        error := ResolveExcuse(id, now, approve, hasComment, policy, graceHours);
      } else {
        error := Some(NotPendingReview);
      }
    }

    method ReviewHandler(id: nat, now: int, approve: bool, hasComment: bool, policy: Policy, graceHours: int)
      returns (error: Option<Failure>)
      requires View() == saved
      modifies this
      ensures Settled(Points.ReviewTask(old(View()), id, now, approve, hasComment, policy, graceHours), old(View()), error)
    {
      error := Answer(id, now, approve, hasComment, policy, graceHours);
      if error.None? {
        Commit();
      } else {
        Rollback();
      }
    }

    /** One turn of the batch loop. */
    method AnswerItem(f: Handler, item: Item, policy: Policy, graceHours: int, results: seq<ItemResult>)
      returns (appended: seq<ItemResult>, error: Option<Failure>)
      requires f == Reviewer(policy, graceHours)
      modifies this
      ensures saved == old(saved)
      ensures match Bulk.Answer(f, (old(View()), results), item)
              case Ok(out) => error == None && View() == out.0 && appended == out.1
              case Err(why) => error == Some(why)
    {
      ghost var turn := f(View(), item);
      error := Answer(item.id, item.now, item.approve, item.hasComment, policy, graceHours);
      appended := results;
      if error.None? {
        appended := results + [Succeeded(item.id, rows[item.id].status)];
      } else if error != Some(DuplicateEntry) {
        appended := results + [Failed(item.id, error.value)];
        error := None;
      }
    }

    method BulkApprove(items: seq<Item>, policy: Policy, graceHours: int)
      returns (results: seq<ItemResult>, error: Option<Failure>)
      requires View() == saved
      modifies this
      ensures match Batch(old(View()), items, policy, graceHours)
              case Ok(out) => error == None && results == out.1 && View() == out.0 && saved == out.0
              case Err(why) => error == Some(why) && View() == old(View()) && saved == old(View())
    {
      results := [];
      error := None;
      var f := Reviewer(policy, graceHours);
      var k := 0;
      while k < |items|
        invariant 0 <= k <= |items| && saved == old(saved)
        invariant BatchWith(f, old(View()), items[..k]) == Ok((View(), results))
        invariant error == None
      {
        BatchTakesOneMore(f, saved, items, k);
        results, error := AnswerItem(f, items[k], policy, graceHours, results);
        if error.Some? {
          Rollback();
          BatchErrs(f, saved, items, k + 1);
          return [], error;
        }
        k := k + 1;
      }
      assert items[..k] == items;
      Commit();
    }

    // ------------------------------------------------------------ nightly job

    method UpsertInstance(defn: Definition, date: int, zone: int -> int, now: int)
      modifies `rows
      ensures rows == Upsert(old(rows), zone, Call(defn, date, now))
    {
      if !Scheduled(defn, date) {
        return;
      }
      var due := DueAt(defn, zone, date);
      var status := if due <= now then Overdue else Pending;
      var row := TaskRow(defn.id, defn.assignee, None, due, defn.pointValue, status, None, None, None, 0);
      if !KeyTaken(rows, defn.id, due) {
        rows := rows + [row];
      }
    }

    /** The horizon loop for one definition; `reading` numbers its first clock reading. */
    method GenerateHorizon(defn: Definition, today: int, zone: int -> int, reading: nat, clock: nat -> int)
      modifies `rows
      ensures rows == Generate(old(rows), zone, HorizonCalls(defn, today, HORIZON_DAYS, reading, clock))
    {
      var offset := 0;
      while offset < HORIZON_DAYS
        invariant 0 <= offset <= HORIZON_DAYS
        invariant rows == Generate(old(rows), zone, HorizonCalls(defn, today, offset, reading, clock))
      {
        ghost var next := HorizonCalls(defn, today, offset + 1, reading, clock);
        assert next[..offset] == HorizonCalls(defn, today, offset, reading, clock);
        UpsertInstance(defn, today + offset, zone, clock(reading + offset));
        offset := offset + 1;
      }
    }

    method GenerateAll(defns: seq<Definition>, today: int, zone: int -> int, clock: nat -> int)
      modifies `rows
      ensures rows == Generate(old(rows), zone, JobCalls(defns, today, clock))
    {
      var i := 0;
      while i < |defns|
        invariant 0 <= i <= |defns|
        invariant rows == Generate(old(rows), zone, JobCalls(defns[..i], today, clock))
      {
        GenerateHorizon(defns[i], today, zone, i * HORIZON_DAYS, clock);
        GenerateConcat(old(rows), zone, JobCalls(defns[..i], today, clock),
                       HorizonCalls(defns[i], today, HORIZON_DAYS, i * HORIZON_DAYS, clock));
        assert defns[..i + 1][..i] == defns[..i];
        i := i + 1;
      }
      assert defns[..i] == defns;
    }

    /**
     * `clock` gives the upserts' readings; the sweeps read the clock once each. The job is a
     * run of the system, so every theorem about runs holds of what it leaves.
     */
    method NightlyJob(defns: seq<Definition>, today: int, zone: int -> int, clock: nat -> int,
                      overdueAt: int, missedAt: int, graceHours: int)
      modifies this
      ensures var generated := Generate(old(rows), zone, JobCalls(defns, today, clock));
              var active := set d <- defns :: d.id;
              View() == saved == old(View()).(rows := Sweep(generated, active, overdueAt, missedAt, graceHours))
      ensures forall policies ::
                Runs.After(Runs.Run(old(View()), policies),
                           JobRuns.JobEvents(defns, today, zone, clock, overdueAt, missedAt, graceHours))
                == Runs.Run(View(), policies)
    {
      ghost var before := View();
      GenerateAll(defns, today, zone, clock);
      ghost var generated := rows;
      var active := set d <- defns :: d.id;
      MarkAllOverdue(active, overdueAt);
      MarkAllMissed(active, missedAt, graceHours);
      assert rows == Sweep(generated, active, overdueAt, missedAt, graceHours);
      Commit();
      forall policies
        ensures Runs.After(Runs.Run(before, policies),
                           JobRuns.JobEvents(defns, today, zone, clock, overdueAt, missedAt, graceHours))
                == Runs.Run(View(), policies)
      {
        JobRuns.NightlyJobIsARun(Runs.Run(before, policies), defns, today, zone, clock, overdueAt, missedAt, graceHours);
      }
    }

    /** The bulk UPDATE from pending to overdue. */
    method MarkAllOverdue(active: set<nat>, now: int)
      modifies `rows
      ensures |rows| == |old(rows)|
      ensures forall k :: 0 <= k < |rows| ==>
                rows[k] == if old(rows)[k].definition in active then MarkOverdue(old(rows)[k], now) else old(rows)[k]
    {
      var before := rows;
      rows := seq(|before|, k requires 0 <= k < |before| =>
        if before[k].definition in active && before[k].status == Pending && before[k].dueAt <= now
        then before[k].(status := Overdue) else before[k]);
    }

    /** The loop over overdue rows that asks the grace clock about each. */
    method MarkAllMissed(active: set<nat>, now: int, graceHours: int)
      modifies `rows
      ensures |rows| == |old(rows)|
      ensures forall k :: 0 <= k < |rows| ==>
                rows[k] == if old(rows)[k].definition in active then MarkMissed(old(rows)[k], now, graceHours) else old(rows)[k]
    {
      var i := 0;
      while i < |rows|
        invariant 0 <= i <= |rows| == |old(rows)|
        invariant forall k :: 0 <= k < i ==>
                    rows[k] == if old(rows)[k].definition in active then MarkMissed(old(rows)[k], now, graceHours) else old(rows)[k]
        invariant forall k :: i <= k < |rows| ==> rows[k] == old(rows)[k]
      {
        if rows[i].status == Overdue && rows[i].definition in active {
          if GraceRemaining(rows[i], graceHours, now) <= 0 {
            rows := rows[i := rows[i].(status := Missed)];
          }
        }
        i := i + 1;
      }
    }
  }

  lemma {:induction false} BatchErrs(f: Handler, s: Store, items: seq<Item>, k: nat)
    requires k <= |items| && BatchWith(f, s, items[..k]).Err?
    ensures BatchWith(f, s, items) == BatchWith(f, s, items[..k])
  {
    if k < |items| {
      assert items[..|items| - 1][..k] == items[..k];
      BatchErrs(f, s, items[..|items| - 1], k);
    } else {
      assert items[..k] == items;
    }
  }

  lemma BatchTakesOneMore(f: Handler, s: Store, items: seq<Item>, k: nat)
    requires k < |items| && BatchWith(f, s, items[..k]).Ok?
    ensures BatchWith(f, s, items[..k + 1]) == Bulk.Answer(f, BatchWith(f, s, items[..k]).value, items[k])
  {
    assert items[..k + 1][..k] == items[..k];
  }

  lemma {:induction false} GenerateConcat(rows: seq<TaskRow>, zone: int -> int, a: seq<Call>, b: seq<Call>)
    ensures Generate(rows, zone, a + b) == Generate(Generate(rows, zone, a), zone, b)
  {
    if b == [] {
      assert a + b == a;
    } else {
      assert (a + b)[..|a + b| - 1] == a + b[..|b| - 1];
      GenerateConcat(rows, zone, a, b[..|b| - 1]);
    }
  }
}
