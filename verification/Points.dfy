/**
 * One household's stored state, and what each request does to it as one transaction:
 * either a whole new state or a failure that leaves the old one.
 */
module Points {
  import opened Domain
  import opened StateMachine
  import opened Ledger

  datatype PayoutMode = IndividualPlusBonus | AllOrNothing

  datatype SeriesStatus = Active | Closed | Expired

  /** A series instance together with the series fields that decide its payout. */
  datatype SeriesRow = SeriesRow(assignee: nat, mode: PayoutMode, bonus: int, status: SeriesStatus, closedAt: Option<int>)

  /** A task instance is known by its index in `rows`, a series instance by its index in `series`. */
  datatype Store = Store(rows: seq<TaskRow>, ledger: seq<Entry>, series: seq<SeriesRow>)

  /** Adds a ledger row tied to a task, for the task's assignee. */
  function PayTask(s: Store, id: nat, delta: int, kind: Kind): Result<Store>
    requires id < |s.rows|
  {
    var posted :- Post(s.ledger, Stamp(s.ledger, s.rows[id].assignee, delta, kind, Some(id), None));
    Ok(s.(ledger := posted))
  }

  function SetRow(s: Store, id: nat, row: TaskRow): Store
    requires id < |s.rows|
  {
    s.(rows := s.rows[id := row])
  }

  // ---------------------------------------------------------------- series

  function Members(rows: seq<TaskRow>, sid: nat): seq<TaskRow> {
    if rows == [] then []
    else
      var last := rows[|rows| - 1];
      Members(rows[..|rows| - 1], sid) + (if last.series == Some(sid) then [last] else [])
  }

  /** Value of the completed members. */
  function CompletedValue(members: seq<TaskRow>): int {
    if members == [] then 0
    else
      var last := members[|members| - 1];
      CompletedValue(members[..|members| - 1]) + (if last.status == Complete then last.pointValue else 0)
  }

  /** Every member complete or excused, and at least one complete. */
  ghost predicate Payable(members: seq<TaskRow>) {
    && (forall m :: m in members ==> m.status in {Complete, Excused})
    && (exists m :: m in members && m.status == Complete)
  }

  function SeriesPayout(series: SeriesRow, members: seq<TaskRow>): int {
    match series.mode
    case IndividualPlusBonus => series.bonus
    case AllOrNothing => CompletedValue(members) + series.bonus
  }

  /** Closes the series if it can be closed; the flag is what the call returns. */
  ghost function Evaluate(s: Store, sid: nat, now: int): Result<(Store, bool)>
    requires sid < |s.series|
  {
    var series := s.series[sid];
    var members := Members(s.rows, sid);
    if series.status != Active || !Payable(members) then
      Ok((s, false))
    else
      var entry := Stamp(s.ledger, series.assignee, SeriesPayout(series, members), SeriesBonus, None, Some(sid));
      var posted :- Post(s.ledger, entry);
      Ok((s.(ledger := posted, series := s.series[sid := series.(status := Closed, closedAt := Some(now))]), true))
  }

  // ---------------------------------------------------------------- requests

  function CompleteInstance(s: Store, id: nat, now: int, requiresReview: bool): Result<Store> {
    if id >= |s.rows| then Err(NotFound)
    else
      var row :- CompleteRow(s.rows[id], now, requiresReview);
      if row.status == Complete then PayTask(SetRow(s, id, row), id, row.pointValue, TaskCompleted)
      else Ok(SetRow(s, id, row))
  }

  /** Completing a task, then evaluating its series if it has one. */
  ghost function CompleteTask(s: Store, id: nat, now: int, requiresReview: bool): Result<Store> {
    var done :- CompleteInstance(s, id, now, requiresReview);
    match done.rows[id].series
    case None => Ok(done)
    case Some(sid) =>
      if sid >= |done.series| then Ok(done)
      else
        var evaluated :- Evaluate(done, sid, now);
        Ok(evaluated.0)
  }

  function ExcuseTask(s: Store, id: nat, now: int, excuseLength: nat): Result<Store> {
    if id >= |s.rows| then Err(NotFound)
    else
      var row :- ExcuseRow(s.rows[id], now, excuseLength);
      Ok(SetRow(s, id, row))
  }

  /** The parent's answer, dispatched on what the instance waits for. */
  function ReviewTask(
    s: Store, id: nat, now: int, approve: bool, hasComment: bool, policy: Policy, graceHours: int): Result<Store>
  {
    if id >= |s.rows| then Err(NotFound)
    else match s.rows[id].status
      case ReviewPending =>
        var row :- ReviewRow(s.rows[id], now, approve, hasComment);
        if approve then PayTask(SetRow(s, id, row), id, row.pointValue, TaskCompleted) else Ok(SetRow(s, id, row))
      case ExcusePending =>
        var row :- ResolveRow(s.rows[id], now, approve, hasComment, graceHours);
        if approve then AwardExcuse(SetRow(s, id, row), id, policy) else Ok(SetRow(s, id, row))
      case _ => Err(NotPendingReview)
  }

  function AwardExcuse(s: Store, id: nat, policy: Policy): Result<Store>
    requires id < |s.rows|
  {
    match policy
    case PaysNothing => Ok(s)
    case PaysPartial => PayTask(s, id, Payout(policy, s.rows[id].pointValue), ExcusedPartial)
    case PaysFull => PayTask(s, id, Payout(policy, s.rows[id].pointValue), TaskCompleted)
  }

  function CancelTask(s: Store, id: nat): Result<Store> {
    if id >= |s.rows| then Err(NotFound)
    else
      var row :- CancelRow(s.rows[id]);
      Ok(SetRow(s, id, row))
  }

  function ReverseTask(s: Store, id: nat, now: int): Result<Store> {
    if id >= |s.rows| then Err(NotFound)
    else
      var row :- ReverseRow(s.rows[id], now);
      PayTask(SetRow(s, id, row), id, -row.pointValue, Reversal)
  }

  function Adjust(s: Store, member: nat, delta: int, blankReason: bool): Result<Store> {
    if blankReason then Err(BlankReason)
    else
      var posted :- Post(s.ledger, Stamp(s.ledger, member, delta, ManualAdjustment, None, None));
      Ok(s.(ledger := posted))
  }

  function FulfilClaim(s: Store, member: nat, points: int): Result<Store> {
    var posted :- Post(s.ledger, Stamp(s.ledger, member, -points, ClaimFulfilled, None, None));
    Ok(s.(ledger := posted))
  }
}
