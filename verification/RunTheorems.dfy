/** What holds in every state a serial run can reach from an empty household. */
module RunTheorems {
  import opened Domain
  import opened StateMachine
  import opened Ledger
  import opened Points
  import opened Runs
  import GraceClock

  lemma Reachable(events: seq<Event>)
    ensures Inv(After(EMPTY, events))
  {
    InvForever(EMPTY, events);
  }

  // ---------------------------------------------------------------- money

  /** The ledger rows tied to an instance sum to what its status is worth, reversals included. */
  lemma MoneyMatchesStatus(events: seq<Event>, id: nat)
    requires id < |After(EMPTY, events).store.rows|
    ensures var r := After(EMPTY, events);
            TaskSum(r.store.ledger, id) == Worth(r.store.rows[id], PolicyOf(r, id))
  {
    Reachable(events);
    var r := After(EMPTY, events);
    assert RowMoney(r.store.ledger, id, r.store.rows[id], PolicyOf(r, id));
  }

  /** An excused instance is paid by the policy its approval was given under, for ever after. */
  lemma {:induction false} ApprovalPolicyIsFinal(r: Run, e: Event, events: seq<Event>)
    requires Inv(r) && ApprovesExcuse(r.store, e) && Handle(r.store, e).Ok?
    ensures var out := After(Step(r, e), events);
            && e.id < |out.store.rows|
            && out.store.rows[e.id] == Step(r, e).store.rows[e.id]
            && out.store.rows[e.id].status == Excused
            && TaskSum(out.store.ledger, e.id) == Payout(e.policy, out.store.rows[e.id].pointValue)
  {
    StepKeeps(r, e);
    ExcusedStays(Step(r, e), events, e.id, e.policy);
  }

  lemma {:induction false} ExcusedStays(r: Run, events: seq<Event>, id: nat, policy: Policy)
    requires Inv(r) && id < |r.store.rows| && r.store.rows[id].status == Excused && PolicyOf(r, id) == policy
    ensures var out := After(r, events);
            && id < |out.store.rows| && out.store.rows[id] == r.store.rows[id] && PolicyOf(out, id) == policy
            && TaskSum(out.store.ledger, id) == Payout(policy, out.store.rows[id].pointValue)
  {
    InvForever(r, events);
    if events != [] {
      var n := |events| - 1;
      ExcusedStays(r, events[..n], id, policy);
      var acts := StepIsPlay(After(r, events[..n]), events[n], id);
      TerminalRowsAreFrozen(r.store.rows[id], acts);
    }
    var out := After(r, events);
    assert RowMoney(out.store.ledger, id, out.store.rows[id], PolicyOf(out, id));
  }

  /** What an instance has been paid beyond what its status is worth. */
  ghost function Gap(r: Run, id: nat): int
    requires id < |r.store.rows|
  {
    TaskSum(r.store.ledger, id) - Worth(r.store.rows[id], PolicyOf(r, id))
  }

  lemma PaymentSum(s: Store, id: nat, delta: int, kind: Kind, i: nat)
    requires id < |s.rows| && PayTask(s, id, delta, kind).Ok?
    ensures PayTask(s, id, delta, kind).value.rows == s.rows
    ensures TaskSum(PayTask(s, id, delta, kind).value.ledger, i) == TaskSum(s.ledger, i) + if i == id then delta else 0
  {
    Appended(s.ledger, Stamp(s.ledger, s.rows[id].assignee, delta, kind, Some(id), None));
  }

  lemma CompletionPays(s: Store, id: nat, now: int, requiresReview: bool, i: nat)
    requires CompleteInstance(s, id, now, requiresReview).Ok? && i < |s.rows|
    ensures var t := CompleteInstance(s, id, now, requiresReview).value;
            && |t.rows| == |s.rows|
            && forall policy :: TaskSum(t.ledger, i) - Worth(t.rows[i], policy) == TaskSum(s.ledger, i) - Worth(s.rows[i], policy)
  {
    var row := CompleteRow(s.rows[id], now, requiresReview).value;
    if row.status == Status.Complete {
      PaymentSum(SetRow(s, id, row), id, row.pointValue, TaskCompleted, i);
    }
  }

  lemma EvaluationPays(s: Store, sid: nat, now: int, i: nat)
    requires sid < |s.series| && Evaluate(s, sid, now).Ok?
    ensures var t := Evaluate(s, sid, now).value.0;
            t.rows == s.rows && TaskSum(t.ledger, i) == TaskSum(s.ledger, i)
  {
    var series := s.series[sid];
    Appended(s.ledger, Stamp(s.ledger, series.assignee, SeriesPayout(series, Members(s.rows, sid)), SeriesBonus, None, Some(sid)));
  }

  lemma CompleteTaskPays(r: Run, e: Event, i: nat)
    requires e.Complete? && i < |r.store.rows|
    ensures i < |Step(r, e).store.rows| && Gap(Step(r, e), i) == Gap(r, i)
  {
    var done := CompleteInstance(r.store, e.id, e.now, e.requiresReview);
    if done.Ok? {
      CompletionPays(r.store, e.id, e.now, e.requiresReview, i);
      var at := done.value.rows[e.id].series;
      if at.Some? && at.value < |done.value.series| && Evaluate(done.value, at.value, e.now).Ok? {
        EvaluationPays(done.value, at.value, e.now, i);
      }
    }
  }

  /** Moving one row, and paying for the move what it changes the row's worth by. */
  lemma MovePays(r: Run, id: nat, row: TaskRow, delta: int, kind: Kind, policies: map<nat, Policy>, i: nat)
    requires id < |r.store.rows| && i < |r.store.rows|
    requires forall k :: k != id ==> PolicyOf(Run(r.store, policies), k) == PolicyOf(r, k)
    requires Worth(row, PolicyOf(Run(r.store, policies), id)) == Worth(r.store.rows[id], PolicyOf(r, id)) + delta
    requires PayTask(SetRow(r.store, id, row), id, delta, kind).Ok?
    ensures var t := PayTask(SetRow(r.store, id, row), id, delta, kind).value;
            i < |t.rows| && Gap(Run(t, policies), i) == Gap(r, i)
  {
    PaymentSum(SetRow(r.store, id, row), id, delta, kind, i);
    assert PolicyOf(Run(r.store, policies), i) == if i in policies then policies[i] else PaysNothing;
  }

  lemma ReviewPays(r: Run, e: Event, i: nat)
    requires e.Review? && i < |r.store.rows| && Handle(r.store, e).Ok?
    ensures i < |Step(r, e).store.rows| && Gap(Step(r, e), i) == Gap(r, i)
  {
    if !e.approve {
      DenialPays(r, e, i);
    } else if r.store.rows[e.id].status == ReviewPending {
      ApprovalPays(r, e, i);
    } else {
      ExcusePays(r, e, i);
    }
  }

  lemma DenialPays(r: Run, e: Event, i: nat)
    requires e.Review? && !e.approve && i < |r.store.rows| && Handle(r.store, e).Ok?
    ensures i < |Step(r, e).store.rows| && Gap(Step(r, e), i) == Gap(r, i)
  {
  }

  lemma ApprovalPays(r: Run, e: Event, i: nat)
    requires e.Review? && e.approve && i < |r.store.rows| && Handle(r.store, e).Ok?
    requires r.store.rows[e.id].status == ReviewPending
    ensures i < |Step(r, e).store.rows| && Gap(Step(r, e), i) == Gap(r, i)
  {
    var row := ReviewRow(r.store.rows[e.id], e.now, true, e.hasComment).value;
    assert Handle(r.store, e) == PayTask(SetRow(r.store, e.id, row), e.id, row.pointValue, TaskCompleted);
    MovePays(r, e.id, row, row.pointValue, TaskCompleted, r.policies, i);
  }

  lemma ExcusePays(r: Run, e: Event, i: nat)
    requires e.Review? && e.approve && i < |r.store.rows| && Handle(r.store, e).Ok?
    requires r.store.rows[e.id].status == ExcusePending
    ensures i < |Step(r, e).store.rows| && Gap(Step(r, e), i) == Gap(r, i)
  {
    var row := ResolveRow(r.store.rows[e.id], e.now, true, e.hasComment, e.graceHours).value;
    var policies := r.policies[e.id := e.policy];
    if e.policy == PaysNothing {
      assert Step(r, e) == Run(SetRow(r.store, e.id, row), policies);
    } else {
      var kind := if e.policy == PaysPartial then ExcusedPartial else TaskCompleted;
      var delta := Payout(e.policy, row.pointValue);
      assert Handle(r.store, e) == PayTask(SetRow(r.store, e.id, row), e.id, delta, kind);
      MovePays(r, e.id, row, delta, kind, policies, i);
    }
  }

  lemma ReversalPays(r: Run, e: Event, i: nat)
    requires e.Reverse? && i < |r.store.rows| && Handle(r.store, e).Ok?
    ensures i < |Step(r, e).store.rows| && Gap(Step(r, e), i) == Gap(r, i)
  {
    var row := ReverseRow(r.store.rows[e.id], e.now).value;
    assert Handle(r.store, e) == PayTask(SetRow(r.store, e.id, row), e.id, -row.pointValue, Reversal);
    MovePays(r, e.id, row, -row.pointValue, Reversal, r.policies, i);
  }

  lemma UntiedRowKeepsGap(r: Run, row: Entry, i: nat)
    requires row.task == None && i < |r.store.rows|
    ensures Gap(Run(r.store.(ledger := r.store.ledger + [row]), r.policies), i) == Gap(r, i)
  {
    Appended(r.store.ledger, row);
    assert PolicyOf(Run(r.store.(ledger := r.store.ledger + [row]), r.policies), i) == PolicyOf(r, i);
  }

  lemma UntiedPays(r: Run, e: Event, i: nat)
    requires (e.ManualAdjust? || e.Claim?) && i < |r.store.rows|
    ensures i < |Step(r, e).store.rows| && Gap(Step(r, e), i) == Gap(r, i)
  {
    var delta, kind := if e.ManualAdjust? then e.delta else -e.points,
                       if e.ManualAdjust? then ManualAdjustment else ClaimFulfilled;
    var row := Stamp(r.store.ledger, e.member, delta, kind, None, None);
    UntiedRowKeepsGap(r, row, i);
    assert Step(r, e) == r || Step(r, e) == Run(r.store.(ledger := r.store.ledger + [row]), r.policies);
  }

  /**
   * Every transaction, on any state at all, pays an instance exactly the difference
   * between what its new status is worth and what its old one was.
   */
  lemma StepPaysTheDifference(r: Run, e: Event, i: nat)
    requires i < |r.store.rows|
    ensures i < |Step(r, e).store.rows| && Gap(Step(r, e), i) == Gap(r, i)
  {
    if Handle(r.store, e).Ok? {
      if e.Complete? {
        CompleteTaskPays(r, e, i);
      } else if e.Review? {
        ReviewPays(r, e, i);
      } else if e.Reverse? {
        ReversalPays(r, e, i);
      } else if e.ManualAdjust? || e.Claim? {
        UntiedPays(r, e, i);
      }
    }
  }

  /** Sum over a member's first `n` instances of the ledger rows tied to each. */
  ghost function TiedTotal(rows: seq<TaskRow>, l: seq<Entry>, member: nat, n: nat): int
    requires n <= |rows|
  {
    if n == 0 then 0
    else TiedTotal(rows, l, member, n - 1) + (if rows[n - 1].assignee == member then TaskSum(l, n - 1) else 0)
  }

  /** Sum over a member's first `n` instances of what each is worth. */
  ghost function WorthTotal(r: Run, member: nat, n: nat): int
    requires n <= |r.store.rows|
  {
    if n == 0 then 0
    else
      var row := r.store.rows[n - 1];
      WorthTotal(r, member, n - 1) + (if row.assignee == member then Worth(row, PolicyOf(r, n - 1)) else 0)
  }

  lemma {:induction false} TiedTotalAppend(rows: seq<TaskRow>, l: seq<Entry>, e: Entry, member: nat, n: nat)
    requires n <= |rows|
    ensures TiedTotal(rows, l + [e], member, n)
            == TiedTotal(rows, l, member, n)
               + if e.task.Some? && e.task.value < n && rows[e.task.value].assignee == member then e.delta else 0
  {
    Appended(l, e);
    if n > 0 {
      TiedTotalAppend(rows, l, e, member, n - 1);
    }
  }

  /** Splitting a ledger by what each row is tied to loses nothing. */
  lemma {:induction false} BalanceSplits(rows: seq<TaskRow>, l: seq<Entry>, member: nat)
    requires forall k :: 0 <= k < |l| ==>
               && (TaskKind(l[k].kind) <==> l[k].task.Some?)
               && (l[k].task.Some? ==> l[k].task.value < |rows| && l[k].member == rows[l[k].task.value].assignee)
    ensures Balance(l, member)
            == TiedTotal(rows, l, member, |rows|) + KindSum(l, member, SeriesBonus)
               + KindSum(l, member, ManualAdjustment) + KindSum(l, member, ClaimFulfilled)
  {
    if l == [] {
      NothingTied(rows, member, |rows|);
    } else {
      var e := l[|l| - 1];
      assert l == l[..|l| - 1] + [e];
      BalanceSplits(rows, l[..|l| - 1], member);
      TiedTotalAppend(rows, l[..|l| - 1], e, member, |rows|);
      Appended(l[..|l| - 1], e);
    }
  }

  lemma {:induction false} NothingTied(rows: seq<TaskRow>, member: nat, n: nat)
    requires n <= |rows|
    ensures TiedTotal(rows, [], member, n) == 0
  {
    if n > 0 {
      NothingTied(rows, member, n - 1);
    }
  }

  lemma {:induction false} TiedIsWorth(r: Run, member: nat, n: nat)
    requires Inv(r) && n <= |r.store.rows|
    ensures TiedTotal(r.store.rows, r.store.ledger, member, n) == WorthTotal(r, member, n)
  {
    if n > 0 {
      TiedIsWorth(r, member, n - 1);
      assert RowMoney(r.store.ledger, n - 1, r.store.rows[n - 1], PolicyOf(r, n - 1));
    }
  }

  /**
   * A member's balance is the worth of their instances as fixed by status, plus series
   * bonuses, manual adjustments and (negative) claim debits: nothing leaks.
   */
  lemma BalanceIsConserved(events: seq<Event>, member: nat)
    ensures var r := After(EMPTY, events);
            var l := r.store.ledger;
            Balance(l, member)
            == WorthTotal(r, member, |r.store.rows|) + KindSum(l, member, SeriesBonus)
               + KindSum(l, member, ManualAdjustment) + KindSum(l, member, ClaimFulfilled)
  {
    Reachable(events);
    var r := After(EMPTY, events);
    TiedIsWorth(r, member, |r.store.rows|);
    BalanceSplits(r.store.rows, r.store.ledger, member);
  }

  /** Whichever writers interleave, each stored balance_after is the exact running balance of its member. */
  lemma StoredBalancesAreExact(events: seq<Event>, k: nat)
    requires k < |After(EMPTY, events).store.ledger|
    ensures var l := After(EMPTY, events).store.ledger;
            l[k].balanceAfter == Balance(l[..k + 1], l[k].member)
  {
    Reachable(events);
  }

  // ---------------------------------------------------------------- duplicates

  /**
   * The duplicate error is met exactly when a payment is attempted, every guard being
   * passed, for an instance whose completion was reversed earlier.
   */
  lemma DuplicateIffReversed(events: seq<Event>, e: Event)
    ensures var s := After(EMPTY, events).store;
            Handle(s, e) == Err(DuplicateEntry)
            <==> || (&& e.Complete? && e.id < |s.rows| && s.rows[e.id].status in {Pending, Overdue}
                     && !e.requiresReview && HasTask(s.ledger, e.id, Reversal))
                 || (&& e.Review? && ReviewGuards(s, e) && ReviewClashes(s, e))
  {
    Reachable(events);
    var r := After(EMPTY, events);
    match e
    case Complete(id, now, requiresReview) => CompleteTaskKeeps(r, id, now, requiresReview);
    case Review(_, _, _, _, _, _) => ReviewKeeps(r, e);
    case Reverse(id, now) => ReverseKeeps(r, id, now);
    case ManualAdjust(member, delta, _) => FreePostKeeps(r, member, delta, ManualAdjustment);
    case Claim(member, points) => FreePostKeeps(r, member, -points, ClaimFulfilled);
    case _ =>
  }

  lemma CompletionExtendsLedger(r: Run, e: Event)
    requires e.Complete?
    ensures r.store.ledger <= Step(r, e).store.ledger
  {
    var done := CompleteInstance(r.store, e.id, e.now, e.requiresReview);
    if done.Ok? {
      assert r.store.ledger <= done.value.ledger;
      if CompleteTask(r.store, e.id, e.now, e.requiresReview).Ok? {
        assert done.value.ledger <= CompleteTask(r.store, e.id, e.now, e.requiresReview).value.ledger;
      }
    }
  }

  lemma ReviewExtendsLedger(r: Run, e: Event)
    requires e.Review?
    ensures r.store.ledger <= Step(r, e).store.ledger
  {
  }

  lemma StepExtendsLedger(r: Run, e: Event)
    ensures r.store.ledger <= Step(r, e).store.ledger
  {
    if e.Complete? {
      CompletionExtendsLedger(r, e);
    } else if e.Review? {
      ReviewExtendsLedger(r, e);
    }
  }

  /** No transaction updates or deletes a ledger row. */
  lemma {:induction false} LedgerIsAppendOnly(r: Run, events: seq<Event>)
    ensures r.store.ledger <= After(r, events).store.ledger
  {
    if events != [] {
      var n := |events| - 1;
      LedgerIsAppendOnly(r, events[..n]);
      StepExtendsLedger(After(r, events[..n]), events[n]);
    }
  }

  /** One completion row and one reversal row, the second the negation of the first. */
  ghost predicate CancelledOut(s: Store, id: nat)
    requires id < |s.rows|
  {
    exists paid: nat, undone: nat ::
      && RowsOfKind(s.ledger, id, TaskCompleted, {paid})
      && RowsOfKind(s.ledger, id, Reversal, {undone})
      && paid < |s.ledger| && undone < |s.ledger|
      && s.ledger[paid].delta == s.rows[id].pointValue
      && s.ledger[undone].delta == -s.ledger[paid].delta
      && s.ledger[undone].member == s.ledger[paid].member
  }

  lemma ReversedRowsCancel(s: Store, id: nat, paid: nat, undone: nat)
    requires LedgerOk(s) && id < |s.rows| && paid < |s.ledger| && undone < |s.ledger|
    requires s.ledger[paid].task == Some(id) && s.ledger[paid].kind == TaskCompleted
    requires s.ledger[undone].task == Some(id) && s.ledger[undone].kind == Reversal
    ensures CancelledOut(s, id)
  {
    OnlyRow(s.ledger, id, TaskCompleted, paid);
    OnlyRow(s.ledger, id, Reversal, undone);
  }

  lemma ReversedNow(r: Run, id: nat)
    requires Inv(r) && id < |r.store.rows| && HasTask(r.store.ledger, id, Reversal)
    ensures r.store.rows[id].status != Status.Complete && CancelledOut(r.store, id)
  {
    var l := r.store.ledger;
    ReversedWasPaid(r, id);
    var undone: nat :| undone < |l| && l[undone].task == Some(id) && l[undone].kind == Reversal;
    var paid: nat :| paid < |l| && l[paid].task == Some(id) && l[paid].kind == TaskCompleted;
    ReversedRowsCancel(r.store, id, paid, undone);
  }

  lemma ReversedWasPaid(r: Run, id: nat)
    requires RowsOk(r) && id < |r.store.rows| && HasTask(r.store.ledger, id, Reversal)
    ensures r.store.rows[id].status != Status.Complete && HasTask(r.store.ledger, id, TaskCompleted)
  {
    assert RowMoney(r.store.ledger, id, r.store.rows[id], PolicyOf(r, id));
  }

  /**
   * Once reversed, an instance never becomes complete again, whatever follows; it holds
   * one reversal row, which negates the one completion row exactly.
   */
  lemma ReversalIsFinal(r: Run, id: nat, events: seq<Event>)
    requires Inv(r) && id < |r.store.rows| && HasTask(r.store.ledger, id, Reversal)
    ensures var s := After(r, events).store;
            id < |s.rows| && s.rows[id].status != Status.Complete && CancelledOut(s, id)
  {
    InvForever(r, events);
    LedgerIsAppendOnly(r, events);
    RowsOnlyGrow(r, events);
    PrefixKeepsRow(r.store.ledger, After(r, events).store.ledger, id, Reversal);
    ReversedNow(After(r, events), id);
  }

  lemma PrefixKeepsRow(l: seq<Entry>, longer: seq<Entry>, id: nat, kind: Kind)
    requires l <= longer && HasTask(l, id, kind)
    ensures HasTask(longer, id, kind)
  {
    var k :| 0 <= k < |l| && l[k].task == Some(id) && l[k].kind == kind;
    assert longer[k] == l[k];
  }

  /** `at` holds exactly the positions of an instance's rows of one kind. */
  ghost predicate RowsOfKind(l: seq<Entry>, id: nat, kind: Kind, at: set<nat>) {
    forall k: nat :: k in at <==> k < |l| && l[k].task == Some(id) && l[k].kind == kind
  }

  lemma OnlyRow(l: seq<Entry>, id: nat, kind: Kind, at: nat)
    requires Unique(l) && at < |l| && l[at].task == Some(id) && l[at].kind == kind
    ensures RowsOfKind(l, id, kind, {at})
  {
    forall k: nat | k < |l| && l[k].task == Some(id) && l[k].kind == kind
      ensures k == at
    {
      if k < at {
        assert Clash(l[k], l[at]);
      } else if at < k {
        assert Clash(l[at], l[k]);
      }
    }
  }

  // ---------------------------------------------------------------- rows over a run

  ghost function Begin(e: Event): int {
    match e
    case NightlySweep(_, overdueAt, _, _) => overdueAt
    case Complete(_, now, _) => now
    case Excuse(_, now, _) => now
    case Review(_, now, _, _, _, _) => now
    case Cancel(_, now) => now
    case Reverse(_, now) => now
    case _ => 0
  }

  ghost function Finish(e: Event): int {
    if e.NightlySweep? then e.missedAt else Begin(e)
  }

  predicate Timed(e: Event) {
    e.Complete? || e.Excuse? || e.Review? || e.Cancel? || e.Reverse? || e.NightlySweep?
  }

  /** The action a request stands for, on the row it names. */
  ghost function ActionOf(e: Event, row: TaskRow): Action {
    match e
    case Complete(_, now, requiresReview) => DoComplete(now, requiresReview)
    case Excuse(_, now, excuseLength) => DoExcuse(now, excuseLength)
    case Review(_, now, approve, hasComment, _, graceHours) =>
      if row.status == ReviewPending then DoReview(now, approve, hasComment)
      else DoResolve(now, approve, hasComment, graceHours)
    case Cancel(_, now) => DoCancel(now)
    case Reverse(_, now) => DoReverse(now)
    case _ => DoCancel(0)
  }

  /** The row once the action a request stands for has been taken on it. */
  ghost function RequestRow(row: TaskRow, e: Event): TaskRow {
    Act(row, ActionOf(e, row))
  }

  ghost predicate Untouched(r: Run, e: Event, id: nat) {
    id < |r.store.rows| && id < |Step(r, e).store.rows| && Step(r, e).store.rows[id] == r.store.rows[id]
  }

  /** Evaluating a series changes no row: a completion replaces the row it names and no other. */
  lemma CompletionRows(s: Store, id: nat, now: int, requiresReview: bool)
    requires CompleteTask(s, id, now, requiresReview).Ok?
    ensures id < |s.rows| && CompleteRow(s.rows[id], now, requiresReview).Ok?
    ensures CompleteTask(s, id, now, requiresReview).value.rows == s.rows[id := CompleteRow(s.rows[id], now, requiresReview).value]
  {
    var done := CompleteInstance(s, id, now, requiresReview).value;
    assert done.rows == s.rows[id := CompleteRow(s.rows[id], now, requiresReview).value];
  }

  lemma CompletionIsOneAction(r: Run, e: Event, id: nat)
    requires id < |r.store.rows| && e.Complete?
    ensures Untouched(r, e, id)
            || (id < |Step(r, e).store.rows| && Step(r, e).store.rows[id] == Act(r.store.rows[id], ActionOf(e, r.store.rows[id])))
  {
    if CompleteTask(r.store, e.id, e.now, e.requiresReview).Ok? {
      CompletionRows(r.store, e.id, e.now, e.requiresReview);
    }
  }

  lemma ReviewIsOneAction(r: Run, e: Event, id: nat)
    requires id < |r.store.rows| && e.Review?
    ensures Untouched(r, e, id)
            || (id < |Step(r, e).store.rows| && Step(r, e).store.rows[id] == Act(r.store.rows[id], ActionOf(e, r.store.rows[id])))
  {
  }

  lemma RequestIsOneAction(r: Run, e: Event, id: nat)
    requires id < |r.store.rows| && !e.NightlySweep?
    ensures Untouched(r, e, id)
            || (Timed(e) && id < |Step(r, e).store.rows|
                && Step(r, e).store.rows[id] == Act(r.store.rows[id], ActionOf(e, r.store.rows[id])))
  {
    if e.Complete? {
      CompletionIsOneAction(r, e, id);
    } else if e.Review? {
      ReviewIsOneAction(r, e, id);
    }
  }

  /** What a transaction does to one row is to play at most two actions on it, at its own time. */
  lemma StepIsPlay(r: Run, e: Event, id: nat) returns (acts: seq<Action>)
    requires id < |r.store.rows|
    ensures id < |Step(r, e).store.rows|
    ensures Step(r, e).store.rows[id] == Play(r.store.rows[id], acts)
    ensures |acts| <= 2 && (acts != [] ==> Timed(e))
    ensures forall k :: 0 <= k < |acts| ==> acts[k].now == if k == 0 then Begin(e) else Finish(e)
  {
    var row := r.store.rows[id];
    if e.NightlySweep? {
      if row.definition in e.active {
        acts := [DoMarkOverdue(e.overdueAt), DoMarkMissed(e.missedAt, e.graceHours)];
        PlayTwo(row, acts[0], acts[1]);
      } else {
        acts := [];
      }
    } else {
      RequestIsOneAction(r, e, id);
      acts := if Untouched(r, e, id) then [] else [ActionOf(e, row)];
      PlayOne(row, ActionOf(e, row));
    }
  }

  lemma PlayOne(row: TaskRow, a: Action)
    ensures Play(row, [a]) == Act(row, a)
  {
    assert [a][..0] == [];
  }

  lemma {:induction false} RowsOnlyGrow(r: Run, events: seq<Event>)
    ensures |r.store.rows| <= |After(r, events).store.rows|
    ensures forall i :: 0 <= i < |r.store.rows| ==> SameIdentity(r.store.rows[i], After(r, events).store.rows[i])
  {
    if events != [] {
      var n := |events| - 1;
      RowsOnlyGrow(r, events[..n]);
      var mid := After(r, events[..n]);
      forall i | 0 <= i < |r.store.rows|
        ensures i < |After(r, events).store.rows| && SameIdentity(r.store.rows[i], After(r, events).store.rows[i])
      {
        var acts := StepIsPlay(mid, events[n], i);
        IdentityIsFrozen(mid.store.rows[i], acts);
      }
    }
  }

  ghost predicate InOrder(start: int, events: seq<Event>, end: int) {
    && (forall k :: 0 <= k < |events| && Timed(events[k]) ==> start <= Begin(events[k]) <= Finish(events[k]) <= end)
    && (forall j, k :: 0 <= j < k < |events| && Timed(events[j]) && Timed(events[k]) ==> Finish(events[j]) <= Begin(events[k]))
  }

  /** Over a run, a row plays a chronological sequence of actions: every theorem about rows is one about the system. */
  lemma {:induction false} RunIsPlay(r: Run, events: seq<Event>, id: nat, start: int, end: int) returns (acts: seq<Action>)
    requires id < |r.store.rows| && InOrder(start, events, end)
    ensures id < |After(r, events).store.rows|
    ensures After(r, events).store.rows[id] == Play(r.store.rows[id], acts)
    ensures GraceClock.Chronological(start, acts)
    ensures forall k :: 0 <= k < |acts| ==> acts[k].now <= end
  {
    if events == [] {
      acts := [];
    } else {
      var n := |events| - 1;
      var e := events[n];
      var before := RunIsPlay(r, events[..n], id, start, if Timed(e) then Begin(e) else end);
      var last := StepIsPlay(After(r, events[..n]), e, id);
      acts := before + last;
      PlayAppend(r.store.rows[id], before, last);
      JoinInOrder(start, before, last, Begin(e), Finish(e));
    }
  }

  lemma JoinInOrder(start: int, before: seq<Action>, last: seq<Action>, begin: int, finish: int)
    requires GraceClock.Chronological(start, before)
    requires last != [] ==> start <= begin <= finish
    requires last != [] ==> forall k :: 0 <= k < |before| ==> before[k].now <= begin
    requires |last| <= 2 && forall k :: 0 <= k < |last| ==> last[k].now == if k == 0 then begin else finish
    ensures GraceClock.Chronological(start, before + last)
  {
  }

  /** Missed, excused and cancelled instances never change again, in any run. */
  lemma {:induction false} TerminalInstancesAreFrozen(r: Run, events: seq<Event>, id: nat)
    requires id < |r.store.rows| && Terminal(r.store.rows[id].status)
    ensures id < |After(r, events).store.rows| && After(r, events).store.rows[id] == r.store.rows[id]
  {
    if events != [] {
      var n := |events| - 1;
      TerminalInstancesAreFrozen(r, events[..n], id);
      var acts := StepIsPlay(After(r, events[..n]), events[n], id);
      TerminalRowsAreFrozen(r.store.rows[id], acts);
    }
  }

  /** The grace charge of an instance never falls along a run of the system, in whole seconds. */
  lemma SystemChargeNeverFalls(r: Run, events: seq<Event>, id: nat, from: int, to: int)
    requires Inv(r) && id < |r.store.rows| && InOrder(from, events, to) && from <= to
    ensures id < |After(r, events).store.rows|
    ensures GraceUsed(r.store.rows[id], from) / MICROS <= GraceUsed(After(r, events).store.rows[id], to) / MICROS
  {
    var acts := RunIsPlay(r, events, id, from, to);
    GraceClock.ChargeNeverFalls(r.store.rows[id], acts, from, to);
  }

  /**
   * In every reachable state a paused clock belongs to an excuse, so an overdue row's
   * clock runs, and every row in the parent inbox has the submission time it sorts by.
   */
  lemma ReachableRowsAreOk(events: seq<Event>, id: nat)
    requires id < |After(EMPTY, events).store.rows|
    ensures var row := After(EMPTY, events).store.rows[id];
            && (row.pausedAt.Some? ==> row.status in {ExcusePending, Excused})
            && (row.status == Overdue ==> row.pausedAt.None?)
            && (row.status == ReviewPending ==> row.completedAt.Some?)
            && (row.status == ExcusePending ==> row.excuseSubmittedAt.Some?)
  {
    Reachable(events);
  }

  // ---------------------------------------------------------------- overdue before due

  /** The transaction is one of the two moves that make an instance overdue before it is due. */
  ghost predicate TurnsEarly(r: Run, e: Event, id: nat) {
    && id < |r.store.rows| && (e.Reverse? || e.Review?) && e.id == id
    && TurnsOverdueEarly(r.store.rows[id], ActionOf(e, r.store.rows[id]))
  }

  lemma EarlyMoveGoesThrough(r: Run, e: Event, id: nat)
    requires Inv(r) && TurnsEarly(r, e, id)
    ensures id < |Step(r, e).store.rows|
    ensures Step(r, e).store.rows[id] == Act(r.store.rows[id], ActionOf(e, r.store.rows[id]))
  {
    if e.Reverse? {
      ReversalGoesThrough(r, e.id, e.now);
    } else {
      DenialGoesThrough(r, e, id);
    }
  }

  lemma ReversalGoesThrough(r: Run, id: nat, now: int)
    requires Inv(r) && id < |r.store.rows| && r.store.rows[id].status == Status.Complete
    ensures id < |Step(r, Reverse(id, now)).store.rows|
    ensures Step(r, Reverse(id, now)).store.rows[id] == Act(r.store.rows[id], DoReverse(now))
  {
    CompleteIsReversible(r, id, now);
    ReversalMovesTheRow(r, id, now);
  }

  lemma CompleteIsReversible(r: Run, id: nat, now: int)
    requires Inv(r) && id < |r.store.rows| && r.store.rows[id].status == Status.Complete
    ensures ReverseTask(r.store, id, now).Ok?
  {
    ReverseKeeps(r, id, now);
  }

  lemma ReversalMovesTheRow(r: Run, id: nat, now: int)
    requires id < |r.store.rows| && r.store.rows[id].status == Status.Complete && ReverseTask(r.store, id, now).Ok?
    ensures Step(r, Reverse(id, now)).store.rows == r.store.rows[id := Act(r.store.rows[id], DoReverse(now))]
  {
  }

  lemma DenialGoesThrough(r: Run, e: Event, id: nat)
    requires e.Review? && e.id == id < |r.store.rows| && r.store.rows[id].status == ExcusePending
    requires !e.approve && e.hasComment
    ensures id < |Step(r, e).store.rows|
    ensures Step(r, e).store.rows[id] == Act(r.store.rows[id], ActionOf(e, r.store.rows[id]))
  {
    var out := ReviewTask(r.store, id, e.now, false, true, e.policy, e.graceHours);
    assert out.Ok? && out.value.rows[id] == ResolveRow(r.store.rows[id], e.now, false, true, e.graceHours).value;
  }

  lemma SweepIsNotEarly(r: Run, e: Event, id: nat)
    requires e.NightlySweep? && id < |r.store.rows| && r.store.rows[id].status != Overdue
    ensures Step(r, e).store.rows[id].status == Overdue ==> r.store.rows[id].dueAt <= e.overdueAt
  {
  }

  lemma StepTurnsEarlyIff(r: Run, e: Event, id: nat)
    requires Inv(r) && id < |r.store.rows| && r.store.rows[id].status != Overdue
    requires Timed(e) ==> Begin(e) < r.store.rows[id].dueAt
    ensures id < |Step(r, e).store.rows|
    ensures Step(r, e).store.rows[id].status == Overdue <==> TurnsEarly(r, e, id)
  {
    var row := r.store.rows[id];
    if e.NightlySweep? {
      SweepIsNotEarly(r, e, id);
    } else {
      RequestIsOneAction(r, e, id);
      OverdueMeansDueIff(row, ActionOf(e, row));
      if TurnsEarly(r, e, id) {
        EarlyMoveGoesThrough(r, e, id);
      } else if (e.Reverse? || e.Review?) && !Untouched(r, e, id) {
        TouchedByItsOwn(r, e, id);
      }
    }
  }

  lemma TouchedByItsOwn(r: Run, e: Event, id: nat)
    requires id < |r.store.rows| && (e.Reverse? || e.Review?) && !Untouched(r, e, id)
    ensures e.id == id
  {
  }

  /** In the k-th state of the run the instance exists and is overdue. */
  ghost predicate OverdueAt(r: Run, events: seq<Event>, id: nat, k: nat) {
    && k <= |events| && id < |After(r, events[..k]).store.rows|
    && After(r, events[..k]).store.rows[id].status == Overdue
  }

  /** The transaction takes an overdue instance out of overdue. */
  ghost predicate TakesOut(r: Run, e: Event, id: nat)
    requires id < |r.store.rows|
  {
    || (e.Complete? && e.id == id && (e.requiresReview || !HasTask(r.store.ledger, id, Reversal)))
    || (e.Excuse? && e.id == id && e.excuseLength >= 10)
    || (e.Cancel? && e.id == id)
    || (e.NightlySweep? && r.store.rows[id].definition in e.active
        && GraceRemaining(r.store.rows[id], e.graceHours, e.missedAt) <= 0)
  }

  lemma CompletionTakesOutIff(r: Run, e: Event, id: nat)
    requires Inv(r) && id < |r.store.rows| && r.store.rows[id].status == Overdue && e.Complete?
    ensures id < |Step(r, e).store.rows|
    ensures Step(r, e).store.rows[id].status == Overdue <==> !TakesOut(r, e, id)
  {
    CompleteTaskKeeps(r, e.id, e.now, e.requiresReview);
    if CompleteTask(r.store, e.id, e.now, e.requiresReview).Ok? {
      CompletionRows(r.store, e.id, e.now, e.requiresReview);
    }
  }

  /** What takes an overdue instance out of overdue, told before the transaction. */
  lemma TakesOutIff(r: Run, e: Event, id: nat)
    requires Inv(r) && id < |r.store.rows| && r.store.rows[id].status == Overdue
    ensures id < |Step(r, e).store.rows|
    ensures Step(r, e).store.rows[id].status == Overdue <==> !TakesOut(r, e, id)
  {
    if e.Complete? {
      CompletionTakesOutIff(r, e, id);
    } else if e.Review? {
      ReviewIsOneAction(r, e, id);
    } else if e.Reverse? {
      RequestIsOneAction(r, e, id);
    }
  }

  /** The k-th transaction turned the instance overdue early, and none since has taken it out. */
  ghost predicate EarlySince(r: Run, events: seq<Event>, id: nat, k: nat) {
    && k < |events| && TurnsEarly(After(r, events[..k]), events[k], id)
    && forall j :: k < j < |events| ==> StaysIn(r, events, id, j)
  }

  ghost predicate StaysIn(r: Run, events: seq<Event>, id: nat, j: nat) {
    j < |events| && id < |After(r, events[..j]).store.rows| && !TakesOut(After(r, events[..j]), events[j], id)
  }

  ghost predicate EverEarly(r: Run, events: seq<Event>, id: nat) {
    exists k :: EarlySince(r, events, id, k)
  }

  lemma StaysInPrefix(r: Run, events: seq<Event>, id: nat, j: nat)
    requires j + 1 < |events|
    ensures StaysIn(r, events, id, j) <==> StaysIn(r, events[..|events| - 1], id, j)
  {
    assert events[..|events| - 1][..j] == events[..j];
  }

  lemma SinceSplits(r: Run, events: seq<Event>, id: nat, k: nat)
    requires k + 1 < |events|
    ensures EarlySince(r, events, id, k)
            <==> EarlySince(r, events[..|events| - 1], id, k) && StaysIn(r, events, id, |events| - 1)
  {
    var n := |events| - 1;
    assert events[..n][..k] == events[..k];
    if EarlySince(r, events, id, k) {
      forall j | k < j < n
        ensures StaysIn(r, events[..n], id, j)
      {
        StaysInPrefix(r, events, id, j);
      }
    }
    if EarlySince(r, events[..n], id, k) && StaysIn(r, events, id, n) {
      forall j | k < j < |events|
        ensures StaysIn(r, events, id, j)
      {
        if j < n {
          StaysInPrefix(r, events, id, j);
        }
      }
    }
  }

  lemma EverEarlySplits(r: Run, events: seq<Event>, id: nat)
    requires events != []
    ensures EverEarly(r, events, id)
            <==> || TurnsEarly(After(r, events[..|events| - 1]), events[|events| - 1], id)
                 || (EverEarly(r, events[..|events| - 1], id) && StaysIn(r, events, id, |events| - 1))
  {
    var n := |events| - 1;
    forall k: nat | k < n
      ensures EarlySince(r, events, id, k) <==> EarlySince(r, events[..n], id, k) && StaysIn(r, events, id, n)
    {
      SinceSplits(r, events, id, k);
    }
    assert EarlySince(r, events, id, n) <==> TurnsEarly(After(r, events[..n]), events[n], id);
  }

  /** What the last transaction does, before the instance is due. */
  lemma LastStepDecides(r: Run, events: seq<Event>, id: nat, start: int, now: int)
    requires Inv(r) && events != [] && id < |r.store.rows|
    requires InOrder(start, events, now) && now < r.store.rows[id].dueAt
    ensures var n := |events| - 1;
            var mid := After(r, events[..n]);
            && id < |mid.store.rows|
            && (OverdueAt(r, events, id, |events|)
                <==> if mid.store.rows[id].status == Overdue then StaysIn(r, events, id, n) else TurnsEarly(mid, events[n], id))
            && (mid.store.rows[id].status == Overdue ==> !TurnsEarly(mid, events[n], id))
  {
    var n := |events| - 1;
    var mid := After(r, events[..n]);
    assert events[..|events|] == events;
    RowsOnlyGrow(r, events[..n]);
    InvForever(r, events[..n]);
    if mid.store.rows[id].status == Overdue {
      TakesOutIff(mid, events[n], id);
    } else {
      StepTurnsEarlyIff(mid, events[n], id);
    }
  }

  /**
   * Over whole runs: before its due time an instance is overdue exactly when a parent
   * reversed it or denied its excuse early, and it was not completed, excused or cancelled,
   * or swept without grace, after that.
   */
  lemma {:induction false} OverdueBeforeDueIff(r: Run, events: seq<Event>, id: nat, start: int, now: int)
    requires Inv(r) && id < |r.store.rows| && r.store.rows[id].status != Overdue
    requires InOrder(start, events, now) && now < r.store.rows[id].dueAt
    ensures OverdueAt(r, events, id, |events|) <==> EverEarly(r, events, id)
  {
    if events == [] {
      assert events[..0] == events;
    } else {
      var n := |events| - 1;
      OverdueBeforeDueIff(r, events[..n], id, start, now);
      assert events[..n][..n] == events[..n];
      EverEarlySplits(r, events, id);
      LastStepDecides(r, events, id, start, now);
    }
  }
}
