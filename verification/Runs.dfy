/**
 * Serial runs of the whole system, and what every one of them keeps: money agrees with
 * status, balances are conserved, awards are written once.
 */
module Runs {
  import opened Domain
  import opened StateMachine
  import opened Ledger
  import opened Nightly
  import opened Points

  /** One transaction: a request, a nightly sweep, or an edit the others depend on. */
  datatype Event =
    | Insert(row: TaskRow)
    | Complete(id: nat, now: int, requiresReview: bool)
    | Excuse(id: nat, now: int, excuseLength: nat)
    | Review(id: nat, now: int, approve: bool, hasComment: bool, policy: Policy, graceHours: int)
    | Cancel(id: nat, now: int)
    | Reverse(id: nat, now: int)
    | NightlySweep(active: set<nat>, overdueAt: int, missedAt: int, graceHours: int)
    | ManualAdjust(member: nat, delta: int, blankReason: bool)
    | Claim(member: nat, points: int)
    | OpenSeries(assignee: nat, mode: PayoutMode, bonus: int)
    | EditSeries(sid: nat, mode: PayoutMode, bonus: int)

  ghost function Handle(s: Store, e: Event): Result<Store> {
    match e
    case Insert(row) => Ok(if Fresh(row) then s.(rows := InsertRow(s.rows, row)) else s)
    case Complete(id, now, requiresReview) => CompleteTask(s, id, now, requiresReview)
    case Excuse(id, now, excuseLength) => ExcuseTask(s, id, now, excuseLength)
    case Review(id, now, approve, hasComment, policy, graceHours) =>
      ReviewTask(s, id, now, approve, hasComment, policy, graceHours)
    case Cancel(id, _) => CancelTask(s, id)
    case Reverse(id, now) => ReverseTask(s, id, now)
    case NightlySweep(active, overdueAt, missedAt, graceHours) =>
      Ok(s.(rows := Sweep(s.rows, active, overdueAt, missedAt, graceHours)))
    case ManualAdjust(member, delta, blankReason) => Adjust(s, member, delta, blankReason)
    case Claim(member, points) => FulfilClaim(s, member, points)
    case OpenSeries(assignee, mode, bonus) => Ok(s.(series := s.series + [SeriesRow(assignee, mode, bonus, Active, None)]))
    case EditSeries(sid, mode, bonus) =>
      if sid >= |s.series| then Err(NotFound)
      else Ok(s.(series := s.series[sid := s.series[sid].(mode := mode, bonus := bonus)]))
  }

  /**
   * A state of a run: what is stored, and, for each excused instance, the payout policy
   * that was in force when the excuse was approved. The second part is history only.
   */
  datatype Run = Run(store: Store, policies: map<nat, Policy>)

  const EMPTY: Run := Run(Store([], [], []), map[])

  ghost predicate ApprovesExcuse(s: Store, e: Event) {
    e.Review? && e.approve && e.id < |s.rows| && s.rows[e.id].status == ExcusePending
  }

  /** A failing transaction is rolled back whole. */
  ghost function Step(r: Run, e: Event): Run {
    match Handle(r.store, e)
    case Err(_) => r
    case Ok(s) => Run(s, if ApprovesExcuse(r.store, e) then r.policies[e.id := e.policy] else r.policies)
  }

  ghost function After(r: Run, events: seq<Event>): Run {
    if events == [] then r else Step(After(r, events[..|events| - 1]), events[|events| - 1])
  }

  // ---------------------------------------------------------------- invariant

  function PolicyOf(r: Run, id: nat): Policy {
    if id in r.policies then r.policies[id] else PaysNothing
  }

  /** What an instance is worth, fixed by its status. */
  function Worth(row: TaskRow, policy: Policy): int {
    match row.status
    case Complete => row.pointValue
    case Excused => Payout(policy, row.pointValue)
    case _ => 0
  }

  /** The ledger rows of an instance, as its status dictates them. */
  ghost predicate RowMoney(l: seq<Entry>, id: nat, row: TaskRow, policy: Policy) {
    var completed, partial, reversed := HasTask(l, id, TaskCompleted), HasTask(l, id, ExcusedPartial), HasTask(l, id, Reversal);
    && TaskSum(l, id) == Worth(row, policy)
    && match row.status
       case Complete => completed && !partial && !reversed
       case Excused =>
         (match policy
          case PaysNothing => !partial && completed == reversed
          case PaysPartial => partial && completed == reversed
          case PaysFull => completed && !partial && !reversed)
       case _ => !partial && completed == reversed
  }

  predicate TaskKind(k: Kind) {
    k in {TaskCompleted, ExcusedPartial, Reversal}
  }

  /** What a task row of each kind carries. */
  function KindDelta(k: Kind, points: int): int {
    match k
    case TaskCompleted => points
    case ExcusedPartial => points / 2
    case Reversal => -points
    case _ => 0
  }

  /** A ledger row points where its kind says; a task row credits the assignee its kind's share of the value. */
  predicate TiedRow(s: Store, e: Entry) {
    && (TaskKind(e.kind) <==> e.task.Some?)
    && (e.task.Some? ==> e.task.value < |s.rows| && e.member == s.rows[e.task.value].assignee
                         && e.delta == KindDelta(e.kind, s.rows[e.task.value].pointValue))
    && (e.kind == SeriesBonus <==> e.series.Some?)
    && (e.series.Some? ==> e.series.value < |s.series|)
  }

  ghost predicate Tied(s: Store) {
    forall k :: 0 <= k < |s.ledger| ==> TiedRow(s, s.ledger[k])
  }

  ghost predicate LedgerOk(s: Store) {
    Unique(s.ledger) && Exact(s.ledger) && Tied(s)
  }

  /** A series instance is closed exactly when its bonus row exists. */
  ghost predicate SeriesOk(s: Store) {
    forall j :: 0 <= j < |s.series| ==>
      s.series[j].status != Expired && (s.series[j].status == Closed <==> HasBonus(s.ledger, j))
  }

  ghost predicate RowsOk(r: Run) {
    forall i :: 0 <= i < |r.store.rows| ==>
      RowOk(r.store.rows[i]) && RowMoney(r.store.ledger, i, r.store.rows[i], PolicyOf(r, i))
  }

  ghost predicate Inv(r: Run) {
    LedgerOk(r.store) && SeriesOk(r.store) && RowsOk(r)
  }

  // ---------------------------------------------------------------- one step

  /** Replacing one row by a successor whose ledger rows already fit keeps the invariant. */
  lemma SetRowKeeps(r: Run, id: nat, row: TaskRow, policies: map<nat, Policy>)
    requires LedgerOk(r.store) && SeriesOk(r.store) && id < |r.store.rows|
    requires SameIdentity(r.store.rows[id], row)
    requires RowOk(row) && RowMoney(r.store.ledger, id, row, PolicyOf(Run(r.store, policies), id))
    requires forall i :: 0 <= i < |r.store.rows| && i != id ==>
               && RowOk(r.store.rows[i])
               && RowMoney(r.store.ledger, i, r.store.rows[i], PolicyOf(r, i))
               && PolicyOf(Run(r.store, policies), i) == PolicyOf(r, i)
    ensures Inv(Run(SetRow(r.store, id, row), policies))
  {
    var out := Run(SetRow(r.store, id, row), policies);
    forall i | 0 <= i < |out.store.rows|
      ensures RowOk(out.store.rows[i]) && RowMoney(out.store.ledger, i, out.store.rows[i], PolicyOf(out, i))
    {
      assert PolicyOf(out, i) == PolicyOf(Run(r.store, policies), i);
    }
  }

  lemma PayKeeps(s: Store, id: nat, delta: int, kind: Kind)
    requires LedgerOk(s) && id < |s.rows| && TaskKind(kind) && delta == KindDelta(kind, s.rows[id].pointValue)
    ensures PayTask(s, id, delta, kind).Ok? <==> !HasTask(s.ledger, id, kind)
    ensures PayTask(s, id, delta, kind).Err? ==> PayTask(s, id, delta, kind).why == DuplicateEntry
    ensures PayTask(s, id, delta, kind).Ok? ==>
              var t := PayTask(s, id, delta, kind).value;
              && t == s.(ledger := t.ledger) && LedgerOk(t)
              && (forall i: nat :: TaskSum(t.ledger, i) == TaskSum(s.ledger, i) + if i == id then delta else 0)
              && (forall i: nat, k: Kind :: HasTask(t.ledger, i, k) <==> HasTask(s.ledger, i, k) || (i == id && k == kind))
              && (forall j: nat :: HasBonus(t.ledger, j) <==> HasBonus(s.ledger, j))
  {
    var e := Stamp(s.ledger, s.rows[id].assignee, delta, kind, Some(id), None);
    TakenTask(s.ledger, e, id);
    if !Taken(s.ledger, e) {
      TaskRowKeepsLedger(s, e);
      Appended(s.ledger, e);
    }
  }

  lemma TaskRowKeepsLedger(s: Store, e: Entry)
    requires LedgerOk(s) && TiedRow(s, e) && !Taken(s.ledger, e)
    requires e == Stamp(s.ledger, e.member, e.delta, e.kind, e.task, e.series)
    ensures LedgerOk(s.(ledger := s.ledger + [e]))
  {
    PostKeepsLedger(s.ledger, e);
    TiedOneMore(s, e);
  }

  lemma TiedOneMore(s: Store, e: Entry)
    requires Tied(s) && TiedRow(s, e)
    ensures Tied(s.(ledger := s.ledger + [e]))
  {
    var out := s.(ledger := s.ledger + [e]);
    forall k | 0 <= k < |out.ledger|
      ensures TiedRow(out, out.ledger[k])
    {
      assert k < |s.ledger| ==> TiedRow(s, s.ledger[k]);
    }
  }

  /** Rows other than the one paid keep their money. */
  lemma PayKeepsOthers(s: Store, t: Store, id: nat, i: nat, row: TaskRow, policy: Policy)
    requires i != id && RowMoney(s.ledger, i, row, policy)
    requires TaskSum(t.ledger, i) == TaskSum(s.ledger, i)
    requires forall k: Kind :: HasTask(t.ledger, i, k) <==> HasTask(s.ledger, i, k)
    ensures RowMoney(t.ledger, i, row, policy)
  {
  }

  /** The status changes that come with a ledger row, and the row each comes with. */
  predicate Earns(from: Status, row: TaskRow, policy: Policy, delta: int, kind: Kind) {
    var open := from !in {Status.Complete, Excused};
    || (open && row.status == Status.Complete && kind == TaskCompleted && delta == row.pointValue)
    || (open && row.status == Excused && policy == PaysFull && kind == TaskCompleted && delta == row.pointValue)
    || (open && row.status == Excused && policy == PaysPartial && kind == ExcusedPartial && delta == row.pointValue / 2)
    || (from == Status.Complete && row.status in {Overdue, Missed} && kind == Reversal && delta == -row.pointValue)
  }

  lemma MoneyFollows(l: seq<Entry>, t: seq<Entry>, id: nat, from: TaskRow, row: TaskRow, before: Policy, policy: Policy, delta: int, kind: Kind)
    requires RowMoney(l, id, from, before) && SameIdentity(from, row) && Earns(from.status, row, policy, delta, kind)
    requires !HasTask(l, id, kind)
    requires TaskSum(t, id) == TaskSum(l, id) + delta
    requires forall k: Kind :: HasTask(t, id, k) <==> HasTask(l, id, k) || k == kind
    ensures RowMoney(t, id, row, policy)
  {
  }

  lemma SetRowKeepsLedger(s: Store, id: nat, row: TaskRow)
    requires LedgerOk(s) && id < |s.rows| && SameIdentity(s.rows[id], row)
    ensures LedgerOk(SetRow(s, id, row))
  {
  }

  lemma PayKeepsRows(r: Run, t: Store, id: nat, row: TaskRow, policies: map<nat, Policy>)
    requires Inv(r) && id < |r.store.rows| && SameIdentity(r.store.rows[id], row) && RowOk(row)
    requires t.rows == r.store.rows[id := row] && t.series == r.store.series && LedgerOk(t)
    requires forall i :: i != id ==> PolicyOf(Run(r.store, policies), i) == PolicyOf(r, i)
    requires forall i: nat :: i != id ==> TaskSum(t.ledger, i) == TaskSum(r.store.ledger, i)
    requires forall i: nat, k: Kind :: i != id ==> (HasTask(t.ledger, i, k) <==> HasTask(r.store.ledger, i, k))
    requires forall j: nat :: HasBonus(t.ledger, j) <==> HasBonus(r.store.ledger, j)
    requires RowMoney(t.ledger, id, row, PolicyOf(Run(r.store, policies), id))
    ensures Inv(Run(t, policies))
  {
    var out := Run(t, policies);
    forall i | 0 <= i < |t.rows|
      ensures RowOk(t.rows[i]) && RowMoney(t.ledger, i, t.rows[i], PolicyOf(out, i))
    {
      assert PolicyOf(out, i) == PolicyOf(Run(r.store, policies), i);
      if i != id {
        PayKeepsOthers(r.store, t, id, i, r.store.rows[i], PolicyOf(r, i));
      }
    }
  }

  /** Moving a row to a new status and paying for it in the same transaction. */
  lemma MoveAndPay(r: Run, id: nat, row: TaskRow, delta: int, kind: Kind, policies: map<nat, Policy>)
    requires Inv(r) && id < |r.store.rows| && TaskKind(kind)
    requires SameIdentity(r.store.rows[id], row) && RowOk(row)
    requires Earns(r.store.rows[id].status, row, PolicyOf(Run(r.store, policies), id), delta, kind)
    requires forall i :: i != id ==> PolicyOf(Run(r.store, policies), i) == PolicyOf(r, i)
    ensures var paid := PayTask(SetRow(r.store, id, row), id, delta, kind);
            && (paid.Ok? <==> !HasTask(r.store.ledger, id, kind))
            && (paid.Err? ==> paid.why == DuplicateEntry)
            && (paid.Ok? ==> Inv(Run(paid.value, policies)) && HasTask(paid.value.ledger, id, kind))
  {
    var moved := SetRow(r.store, id, row);
    SetRowKeepsLedger(r.store, id, row);
    PayKeeps(moved, id, delta, kind);
    var paid := PayTask(moved, id, delta, kind);
    if paid.Ok? {
      MoneyFollows(r.store.ledger, paid.value.ledger, id, r.store.rows[id], row, PolicyOf(r, id),
                   PolicyOf(Run(r.store, policies), id), delta, kind);
      PayKeepsRows(r, paid.value, id, row, policies);
    }
  }

  /** An instance that is neither complete nor excused has been paid exactly if it was reversed. */
  lemma OpenRowPaidIffReversed(r: Run, id: nat)
    requires Inv(r) && id < |r.store.rows| && r.store.rows[id].status !in {Status.Complete, Excused}
    ensures HasTask(r.store.ledger, id, TaskCompleted) <==> HasTask(r.store.ledger, id, Reversal)
    ensures !HasTask(r.store.ledger, id, ExcusedPartial)
  {
    assert RowMoney(r.store.ledger, id, r.store.rows[id], PolicyOf(r, id));
  }

  lemma CompleteRowIsPaidOnce(r: Run, id: nat)
    requires Inv(r) && id < |r.store.rows| && r.store.rows[id].status == Status.Complete
    ensures HasTask(r.store.ledger, id, TaskCompleted) && !HasTask(r.store.ledger, id, Reversal)
  {
    assert RowMoney(r.store.ledger, id, r.store.rows[id], PolicyOf(r, id));
  }

  lemma CompleteKeeps(r: Run, id: nat, now: int, requiresReview: bool)
    requires Inv(r)
    ensures var out := CompleteInstance(r.store, id, now, requiresReview);
            && (out.Ok? ==> Inv(Run(out.value, r.policies)))
            && (id < |r.store.rows| && r.store.rows[id].status in {Pending, Overdue} ==>
                  if !requiresReview && HasTask(r.store.ledger, id, Reversal) then out == Err(DuplicateEntry) else out.Ok?)
  {
    if id < |r.store.rows| && r.store.rows[id].status in {Pending, Overdue} {
      var moved := CompleteRow(r.store.rows[id], now, requiresReview);
      OpenRowPaidIffReversed(r, id);
      if moved.Ok? && moved.value.status == Status.Complete {
        MoveAndPay(r, id, moved.value, moved.value.pointValue, TaskCompleted, r.policies);
      } else if moved.Ok? {
        SetRowKeeps(r, id, moved.value, r.policies);
      }
    }
  }

  /** Appending a row tied to no task leaves every instance's money alone. */
  lemma UntiedRowKeepsMoney(r: Run, e: Entry)
    requires RowsOk(r) && e.task == None
    ensures forall i :: 0 <= i < |r.store.rows| ==>
              RowMoney(r.store.ledger + [e], i, r.store.rows[i], PolicyOf(r, i))
  {
    Appended(r.store.ledger, e);
    forall i | 0 <= i < |r.store.rows|
      ensures RowMoney(r.store.ledger + [e], i, r.store.rows[i], PolicyOf(r, i))
    {
      assert RowMoney(r.store.ledger, i, r.store.rows[i], PolicyOf(r, i));
    }
  }

  lemma BonusKeepsLedger(s: Store, sid: nat, e: Entry)
    requires LedgerOk(s) && sid < |s.series| && !HasBonus(s.ledger, sid)
    requires e == Stamp(s.ledger, e.member, e.delta, SeriesBonus, None, Some(sid))
    ensures Post(s.ledger, e) == Ok(s.ledger + [e])
    ensures LedgerOk(s.(ledger := s.ledger + [e]))
  {
    TakenBonus(s.ledger, e, sid);
    PostKeepsLedger(s.ledger, e);
  }

  lemma BonusKeepsSeries(s: Store, sid: nat, e: Entry, closed: SeriesRow)
    requires SeriesOk(s) && sid < |s.series| && closed.status == Closed
    requires e.series == Some(sid) && e.kind == SeriesBonus
    ensures HasBonus(s.ledger + [e], sid)
    ensures SeriesOk(Store(s.rows, s.ledger + [e], s.series[sid := closed]))
  {
    Appended(s.ledger, e);
  }

  lemma ClosingKeeps(r: Run, sid: nat, e: Entry, closed: SeriesRow)
    requires Inv(r) && sid < |r.store.series| && !HasBonus(r.store.ledger, sid) && closed.status == Closed
    requires e == Stamp(r.store.ledger, e.member, e.delta, SeriesBonus, None, Some(sid))
    ensures Post(r.store.ledger, e) == Ok(r.store.ledger + [e])
    ensures HasBonus(r.store.ledger + [e], sid)
    ensures Inv(Run(Store(r.store.rows, r.store.ledger + [e], r.store.series[sid := closed]), r.policies))
  {
    BonusKeepsLedger(r.store, sid, e);
    BonusKeepsSeries(r.store, sid, e, closed);
    UntiedRowKeepsMoney(r, e);
  }

  /** On a reachable state closing a series never meets a duplicate: active means unpaid. */
  lemma EvaluateKeeps(r: Run, sid: nat, now: int)
    requires Inv(r) && sid < |r.store.series|
    ensures var out := Evaluate(r.store, sid, now);
            && out.Ok?
            && Inv(Run(out.value.0, r.policies))
            && (out.value.1 <==> !HasBonus(r.store.ledger, sid) && Payable(Members(r.store.rows, sid)))
            && (out.value.1 ==> HasBonus(out.value.0.ledger, sid))
  {
    var s, series := r.store, r.store.series[sid];
    if series.status == Active && Payable(Members(s.rows, sid)) {
      var e := Stamp(s.ledger, series.assignee, SeriesPayout(series, Members(s.rows, sid)), SeriesBonus, None, Some(sid));
      ClosingKeeps(r, sid, e, series.(status := Closed, closedAt := Some(now)));
    }
  }

  lemma CompleteTaskKeeps(r: Run, id: nat, now: int, requiresReview: bool)
    requires Inv(r)
    ensures var out := CompleteTask(r.store, id, now, requiresReview);
            && (out.Ok? ==> Inv(Run(out.value, r.policies)))
            && (id < |r.store.rows| && r.store.rows[id].status in {Pending, Overdue} ==>
                  if !requiresReview && HasTask(r.store.ledger, id, Reversal) then out == Err(DuplicateEntry) else out.Ok?)
  {
    CompleteKeeps(r, id, now, requiresReview);
    if CompleteInstance(r.store, id, now, requiresReview).Ok? {
      EvaluatedKeeps(r, id, now, requiresReview);
    }
  }

  lemma EvaluatedKeeps(r: Run, id: nat, now: int, requiresReview: bool)
    requires CompleteInstance(r.store, id, now, requiresReview).Ok?
    requires Inv(Run(CompleteInstance(r.store, id, now, requiresReview).value, r.policies))
    ensures CompleteTask(r.store, id, now, requiresReview).Ok?
    ensures Inv(Run(CompleteTask(r.store, id, now, requiresReview).value, r.policies))
  {
    var done := CompleteInstance(r.store, id, now, requiresReview).value;
    if done.rows[id].series.Some? && done.rows[id].series.value < |done.series| {
      EvaluateKeeps(Run(done, r.policies), done.rows[id].series.value, now);
    }
  }

  /** When a parent's answer fails although every guard lets it through. */
  ghost predicate ReviewClashes(s: Store, e: Event)
    requires e.Review? && e.id < |s.rows|
  {
    && e.approve
    && HasTask(s.ledger, e.id, Reversal)
    && (s.rows[e.id].status == ReviewPending || (s.rows[e.id].status == ExcusePending && e.policy == PaysFull))
  }

  ghost predicate ReviewGuards(s: Store, e: Event)
    requires e.Review?
  {
    e.id < |s.rows| && s.rows[e.id].status in {ReviewPending, ExcusePending} && (e.approve || e.hasComment)
  }

  lemma ReviewKeeps(r: Run, e: Event)
    requires Inv(r) && e.Review?
    ensures Inv(Step(r, e))
    ensures ReviewGuards(r.store, e) ==>
              if ReviewClashes(r.store, e) then Handle(r.store, e) == Err(DuplicateEntry) else Handle(r.store, e).Ok?
    ensures !ReviewGuards(r.store, e) ==>
              Handle(r.store, e).Err? && Handle(r.store, e).why in {NotFound, MissingComment, NotPendingReview}
  {
    if ReviewGuards(r.store, e) {
      var row := r.store.rows[e.id];
      OpenRowPaidIffReversed(r, e.id);
      if row.status == ReviewPending {
        var moved := ReviewRow(row, e.now, e.approve, e.hasComment).value;
        if e.approve {
          MoveAndPay(r, e.id, moved, moved.pointValue, TaskCompleted, r.policies);
        } else {
          SetRowKeeps(r, e.id, moved, r.policies);
        }
      } else if e.approve {
        ExcuseApprovalKeeps(r, e);
      } else {
        SetRowKeeps(r, e.id, ResolveRow(row, e.now, false, e.hasComment, e.graceHours).value, r.policies);
      }
    }
  }

  lemma NothingPaid(r: Run, id: nat, row: TaskRow, policies: map<nat, Policy>)
    requires Inv(r) && id < |r.store.rows| && r.store.rows[id].status == ExcusePending
    requires SameIdentity(r.store.rows[id], row) && RowOk(row) && row.status == Excused
    requires policies == r.policies[id := PaysNothing]
    ensures Inv(Run(SetRow(r.store, id, row), policies))
  {
    assert RowMoney(r.store.ledger, id, r.store.rows[id], PolicyOf(r, id));
    SetRowKeeps(r, id, row, policies);
  }

  lemma ExcuseApprovalKeeps(r: Run, e: Event)
    requires Inv(r) && ApprovesExcuse(r.store, e)
    ensures Inv(Step(r, e))
    ensures if ReviewClashes(r.store, e) then Handle(r.store, e) == Err(DuplicateEntry) else Handle(r.store, e).Ok?
  {
    var row := ResolveRow(r.store.rows[e.id], e.now, true, e.hasComment, e.graceHours).value;
    var policies := r.policies[e.id := e.policy];
    OpenRowPaidIffReversed(r, e.id);
    match e.policy
    case PaysNothing => NothingPaid(r, e.id, row, policies);
    case PaysPartial => MoveAndPay(r, e.id, row, Payout(PaysPartial, row.pointValue), ExcusedPartial, policies);
    case PaysFull => MoveAndPay(r, e.id, row, Payout(PaysFull, row.pointValue), TaskCompleted, policies);
  }

  /** A completed instance can always be reversed, once. */
  lemma ReverseKeeps(r: Run, id: nat, now: int)
    requires Inv(r)
    ensures var out := ReverseTask(r.store, id, now);
            && (out.Ok? ==> Inv(Run(out.value, r.policies)))
            && (id < |r.store.rows| && r.store.rows[id].status == Status.Complete ==>
                  out.Ok? && !HasTask(r.store.ledger, id, Reversal) && HasTask(out.value.ledger, id, Reversal))
  {
    if id < |r.store.rows| && r.store.rows[id].status == Status.Complete {
      var row := ReverseRow(r.store.rows[id], now).value;
      var delta := -row.pointValue;
      assert ReverseTask(r.store, id, now) == PayTask(SetRow(r.store, id, row), id, delta, Reversal);
      CompleteRowIsPaidOnce(r, id);
      MoveAndPay(r, id, row, delta, Reversal, r.policies);
    }
  }

  lemma PlainRowKeeps(r: Run, id: nat, a: Action)
    requires Inv(r) && id < |r.store.rows|
    requires a.DoExcuse? || a.DoCancel?
    ensures Inv(Run(SetRow(r.store, id, Act(r.store.rows[id], a)), r.policies))
  {
    SetRowKeeps(r, id, Act(r.store.rows[id], a), r.policies);
  }

  lemma SweepKeeps(r: Run, active: set<nat>, overdueAt: int, missedAt: int, graceHours: int)
    requires Inv(r)
    ensures Inv(Run(r.store.(rows := Sweep(r.store.rows, active, overdueAt, missedAt, graceHours)), r.policies))
  {
    var rows := Sweep(r.store.rows, active, overdueAt, missedAt, graceHours);
    var out := Run(r.store.(rows := rows), r.policies);
    forall i | 0 <= i < |rows|
      ensures RowOk(rows[i]) && RowMoney(r.store.ledger, i, rows[i], PolicyOf(out, i))
      ensures SameIdentity(r.store.rows[i], rows[i])
    {
      assert RowMoney(r.store.ledger, i, r.store.rows[i], PolicyOf(r, i));
    }
  }

  lemma NoEntriesBeyond(s: Store, l: seq<Entry>, id: nat)
    requires forall k :: 0 <= k < |l| ==> l[k].task != Some(id)
    ensures TaskSum(l, id) == 0 && forall k: Kind :: !HasTask(l, id, k)
  {
  }

  lemma InsertKeeps(r: Run, row: TaskRow)
    requires Inv(r) && Fresh(row)
    ensures Inv(Run(r.store.(rows := InsertRow(r.store.rows, row)), r.policies))
  {
    var rows := InsertRow(r.store.rows, row);
    var out := Run(r.store.(rows := rows), r.policies);
    NoEntriesBeyond(r.store, r.store.ledger, |r.store.rows|);
    forall i | 0 <= i < |rows|
      ensures RowOk(rows[i]) && RowMoney(r.store.ledger, i, rows[i], PolicyOf(out, i))
    {
      assert i < |r.store.rows| ==> RowMoney(r.store.ledger, i, r.store.rows[i], PolicyOf(r, i));
    }
  }

  /** A ledger row tied to nothing: adjustments and claim debits are never refused. */
  lemma FreePostKeeps(r: Run, member: nat, delta: int, kind: Kind)
    requires Inv(r) && kind in {ManualAdjustment, ClaimFulfilled}
    ensures var e := Stamp(r.store.ledger, member, delta, kind, None, None);
            && Post(r.store.ledger, e) == Ok(r.store.ledger + [e])
            && Inv(Run(r.store.(ledger := r.store.ledger + [e]), r.policies))
  {
    var e := Stamp(r.store.ledger, member, delta, kind, None, None);
    FreePostKeepsLedger(r.store, e);
    FreePostKeepsSeries(r.store, e);
    UntiedRowKeepsMoney(r, e);
  }

  lemma FreePostKeepsLedger(s: Store, e: Entry)
    requires LedgerOk(s) && e.kind in {ManualAdjustment, ClaimFulfilled}
    requires e == Stamp(s.ledger, e.member, e.delta, e.kind, None, None)
    ensures Post(s.ledger, e) == Ok(s.ledger + [e])
    ensures LedgerOk(s.(ledger := s.ledger + [e]))
  {
    PostKeepsLedger(s.ledger, e);
  }

  lemma FreePostKeepsSeries(s: Store, e: Entry)
    requires SeriesOk(s) && e.series == None
    ensures SeriesOk(s.(ledger := s.ledger + [e]))
  {
    Appended(s.ledger, e);
  }

  lemma SeriesKeepsRows(r: Run, series: seq<SeriesRow>)
    requires RowsOk(r)
    ensures RowsOk(Run(r.store.(series := series), r.policies))
  {
    var out := Run(r.store.(series := series), r.policies);
    forall i | 0 <= i < |out.store.rows|
      ensures RowOk(out.store.rows[i]) && RowMoney(out.store.ledger, i, out.store.rows[i], PolicyOf(out, i))
    {
      assert RowMoney(r.store.ledger, i, r.store.rows[i], PolicyOf(r, i));
    }
  }

  lemma SeriesKeepsLedger(s: Store, series: seq<SeriesRow>)
    requires LedgerOk(s) && |s.series| <= |series|
    ensures LedgerOk(s.(series := series))
  {
    var t := s.(series := series);
    forall k | 0 <= k < |t.ledger|
      ensures TiedRow(t, t.ledger[k])
    {
      assert TiedRow(s, s.ledger[k]);
    }
  }

  lemma NewSeriesIsUnpaid(s: Store, sid: nat)
    requires Tied(s) && |s.series| <= sid
    ensures !HasBonus(s.ledger, sid)
  {
    forall k | 0 <= k < |s.ledger|
      ensures s.ledger[k].series != Some(sid)
    {
      assert TiedRow(s, s.ledger[k]);
    }
  }

  lemma SeriesEditKeeps(r: Run, e: Event)
    requires Inv(r) && (e.OpenSeries? || e.EditSeries?)
    ensures Inv(Step(r, e))
  {
    var series := Step(r, e).store.series;
    assert Step(r, e) == Run(r.store.(series := series), r.policies);
    NewSeriesIsUnpaid(r.store, |r.store.series|);
    SeriesKeepsRows(r, series);
    SeriesKeepsLedger(r.store, series);
  }

  lemma RequestKeeps(r: Run, e: Event)
    requires Inv(r) && (e.Complete? || e.Excuse? || e.Cancel? || e.Reverse?)
    ensures Inv(Step(r, e))
  {
    match e
    case Complete(id, now, requiresReview) => CompleteTaskKeeps(r, id, now, requiresReview);
    case Excuse(id, now, excuseLength) => if id < |r.store.rows| { PlainRowKeeps(r, id, DoExcuse(now, excuseLength)); }
    case Cancel(id, now) => if id < |r.store.rows| { PlainRowKeeps(r, id, DoCancel(now)); }
    case Reverse(id, now) => ReverseKeeps(r, id, now);
  }

  lemma InsertStepKeeps(r: Run, e: Event)
    requires Inv(r) && e.Insert?
    ensures Inv(Step(r, e))
  {
    if Fresh(e.row) {
      InsertKeeps(r, e.row);
    }
  }

  lemma SweepStepKeeps(r: Run, e: Event)
    requires Inv(r) && e.NightlySweep?
    ensures Inv(Step(r, e))
  {
    SweepKeeps(r, e.active, e.overdueAt, e.missedAt, e.graceHours);
  }

  lemma FreeStepKeeps(r: Run, e: Event)
    requires Inv(r) && (e.ManualAdjust? || e.Claim?)
    ensures Inv(Step(r, e))
  {
    var member, delta, kind := e.member, if e.ManualAdjust? then e.delta else -e.points,
                               if e.ManualAdjust? then ManualAdjustment else ClaimFulfilled;
    FreePostKeeps(r, member, delta, kind);
    var row := Stamp(r.store.ledger, member, delta, kind, None, None);
    assert Step(r, e) == r || Step(r, e) == Run(r.store.(ledger := r.store.ledger + [row]), r.policies);
  }

  lemma StepKeeps(r: Run, e: Event)
    requires Inv(r)
    ensures Inv(Step(r, e))
  {
    if e.Review? {
      ReviewKeeps(r, e);
    } else if e.OpenSeries? || e.EditSeries? {
      SeriesEditKeeps(r, e);
    } else if e.Complete? || e.Excuse? || e.Cancel? || e.Reverse? {
      RequestKeeps(r, e);
    } else if e.Insert? {
      InsertStepKeeps(r, e);
    } else if e.NightlySweep? {
      SweepStepKeeps(r, e);
    } else {
      FreeStepKeeps(r, e);
    }
  }

  lemma {:induction false} InvForever(r: Run, events: seq<Event>)
    requires Inv(r)
    ensures Inv(After(r, events))
  {
    if events != [] {
      InvForever(r, events[..|events| - 1]);
      StepKeeps(After(r, events[..|events| - 1]), events[|events| - 1]);
    }
  }
}
