/** What a series bonus is paid for, and that it is paid at most once, over whole runs. */
module SeriesSafety {
  import opened Domain
  import opened StateMachine
  import opened Ledger
  import opened Points
  import opened Runs
  import RunTheorems

  // ---------------------------------------------------------------- member order

  lemma {:induction false} ValueConcat(a: seq<TaskRow>, b: seq<TaskRow>)
    ensures CompletedValue(a + b) == CompletedValue(a) + CompletedValue(b)
  {
    if b == [] {
      assert a + b == a;
    } else {
      var n := |b| - 1;
      assert (a + b)[..|a + b| - 1] == a + b[..n];
      ValueConcat(a, b[..n]);
    }
  }

  /** The query may return the members in any order: what is decided and paid is the same. */
  lemma {:induction false} MemberOrderIsIrrelevant(series: SeriesRow, a: seq<TaskRow>, b: seq<TaskRow>)
    requires multiset(a) == multiset(b)
    ensures Payable(a) <==> Payable(b)
    ensures SeriesPayout(series, a) == SeriesPayout(series, b)
  {
    forall m
      ensures m in a <==> m in b
    {
      assert m in multiset(a) <==> m in multiset(b);
    }
    SameValue(a, b);
  }

  lemma {:induction false} SameValue(a: seq<TaskRow>, b: seq<TaskRow>)
    requires multiset(a) == multiset(b)
    ensures CompletedValue(a) == CompletedValue(b)
  {
    if a == [] {
      assert |multiset(b)| == 0;
    } else {
      var k := Pick(a, b);
      SameValue(a[..|a| - 1], b[..k] + b[k + 1..]);
      ValueConcat(b[..k], [b[k]] + b[k + 1..]);
      ValueConcat([b[k]], b[k + 1..]);
      ValueConcat(b[..k], b[k + 1..]);
      assert CompletedValue([b[k]][..0]) == 0;
    }
  }

  // ---------------------------------------------------------------- whole runs

  /** In every reachable state a series instance is closed exactly when its one bonus row exists. */
  lemma ClosedIffPaidOnce(events: seq<Event>, sid: nat)
    requires sid < |After(EMPTY, events).store.series|
    ensures var s := After(EMPTY, events).store;
            && (s.series[sid].status == Closed <==> HasBonus(s.ledger, sid))
            && (forall j, k :: 0 <= j < k < |s.ledger| && s.ledger[j].series == Some(sid) ==> s.ledger[k].series != Some(sid))
  {
    RunTheorems.Reachable(events);
    var s := After(EMPTY, events).store;
    forall j, k | 0 <= j < k < |s.ledger| && s.ledger[j].series == Some(sid)
      ensures s.ledger[k].series != Some(sid)
    {
      assert !Clash(s.ledger[j], s.ledger[k]);
    }
  }

  /** Once an evaluation has returned true for a series, none ever does again. */
  lemma EvaluateSucceedsAtMostOnce(r: Run, sid: nat, now: int, events: seq<Event>, later: int)
    requires Inv(r) && sid < |r.store.series|
    requires Evaluate(r.store, sid, now).Ok? && Evaluate(r.store, sid, now).value.1
    ensures var closed := Run(Evaluate(r.store, sid, now).value.0, r.policies);
            var out := After(closed, events).store;
            sid < |out.series| && Evaluate(out, sid, later) == Ok((out, false))
  {
    EvaluateKeeps(r, sid, now);
    var closed := Run(Evaluate(r.store, sid, now).value.0, r.policies);
    PaidSeriesStaysPaid(closed, sid, events);
    EvaluateKeeps(After(closed, events), sid, later);
  }

  lemma PaidSeriesStaysPaid(r: Run, sid: nat, events: seq<Event>)
    requires Inv(r) && sid < |r.store.series| && HasBonus(r.store.ledger, sid)
    ensures var out := After(r, events);
            Inv(out) && sid < |out.store.series| && HasBonus(out.store.ledger, sid)
  {
    InvForever(r, events);
    RunTheorems.LedgerIsAppendOnly(r, events);
    SeriesOnlyGrow(r, events);
    var k :| 0 <= k < |r.store.ledger| && r.store.ledger[k].series == Some(sid) && r.store.ledger[k].kind == SeriesBonus;
    assert After(r, events).store.ledger[k] == r.store.ledger[k];
  }

  lemma {:induction false} SeriesOnlyGrow(r: Run, events: seq<Event>)
    ensures |r.store.series| <= |After(r, events).store.series|
  {
    if events != [] {
      SeriesOnlyGrow(r, events[..|events| - 1]);
      StepGrowsSeries(After(r, events[..|events| - 1]), events[|events| - 1]);
    }
  }

  lemma StepGrowsSeries(r: Run, e: Event)
    ensures |r.store.series| <= |Step(r, e).store.series|
  {
  }

  /**
   * A transaction adds a bonus row only by completing a member that leaves every member
   * complete or excused and at least one complete; the row credits the series' assignee
   * with the bonus, plus the completed values when the series pays all or nothing.
   */
  lemma BonusIsEarned(r: Run, e: Event, sid: nat)
    requires !HasBonus(r.store.ledger, sid) && HasBonus(Step(r, e).store.ledger, sid)
    ensures var s := Step(r, e).store;
            && e.Complete? && e.id < |s.rows| && s.rows[e.id].series == Some(sid) && s.rows[e.id].status == Status.Complete
            && sid < |r.store.series| && r.store.series[sid].status == Active && s.series[sid].status == Closed
            && Payable(Members(s.rows, sid))
            && var last := s.ledger[|s.ledger| - 1];
               && last.series == Some(sid) && last.member == r.store.series[sid].assignee
               && last.delta == r.store.series[sid].bonus
                                + if r.store.series[sid].mode == AllOrNothing then CompletedValue(Members(s.rows, sid)) else 0
  {
    OnlyCompletionAddsBonus(r, e, sid);
    var done := CompleteInstance(r.store, e.id, e.now, e.requiresReview).value;
    CompletingAddsNoBonus(r.store, e.id, e.now, e.requiresReview, sid);
    var at := done.rows[e.id].series.value;
    EvaluateAddsOwnBonus(done, at, e.now, sid);
    MemberOf(done.rows, e.id, sid);
  }

  /** What the ledger has paid the completed members among the first `n` rows. */
  ghost function PaidToMembers(s: Store, sid: nat, n: nat): int
    requires n <= |s.rows|
  {
    if n == 0 then 0
    else
      var row := s.rows[n - 1];
      PaidToMembers(s, sid, n - 1)
      + (if row.series == Some(sid) && row.status == Status.Complete then TaskSum(s.ledger, n - 1) else 0)
  }

  lemma OneMoreMember(rows: seq<TaskRow>, sid: nat)
    requires rows != []
    ensures var row := rows[|rows| - 1];
            CompletedValue(Members(rows, sid))
            == CompletedValue(Members(rows[..|rows| - 1], sid))
               + if row.series == Some(sid) && row.status == Status.Complete then row.pointValue else 0
  {
    var before, row := Members(rows[..|rows| - 1], sid), rows[|rows| - 1];
    assert before + [] == before;
    assert (before + [row])[..|before|] == before;
  }

  ghost predicate CompletedWerePaid(s: Store) {
    forall id :: 0 <= id < |s.rows| && s.rows[id].status == Status.Complete ==> TaskSum(s.ledger, id) == s.rows[id].pointValue
  }

  lemma InvPaysCompleted(r: Run)
    requires RowsOk(r)
    ensures CompletedWerePaid(r.store)
  {
    forall id | 0 <= id < |r.store.rows| && r.store.rows[id].status == Status.Complete
      ensures TaskSum(r.store.ledger, id) == r.store.rows[id].pointValue
    {
      assert RowMoney(r.store.ledger, id, r.store.rows[id], PolicyOf(r, id));
    }
  }

  lemma {:induction false} MembersWerePaidTheirValue(s: Store, sid: nat, n: nat)
    requires n <= |s.rows| && CompletedWerePaid(s)
    ensures PaidToMembers(s, sid, n) == CompletedValue(Members(s.rows[..n], sid))
  {
    if n > 0 {
      MembersWerePaidTheirValue(s, sid, n - 1);
      assert s.rows[..n][..n - 1] == s.rows[..n - 1];
      OneMoreMember(s.rows[..n], sid);
    }
  }

  /**
   * A series is documented to cost the value of its completed members, plus the bonus,
   * once: paid to the members one by one, or, when it pays all or nothing, in the bonus
   * row alone. The members are paid either way, so the promise is kept exactly when the
   * series pays individually or its completed value is zero.
   */
  lemma SeriesPaysItsValueOnceIff(r: Run, e: Event, sid: nat)
    requires Inv(r) && !HasBonus(r.store.ledger, sid) && HasBonus(Step(r, e).store.ledger, sid)
    ensures sid < |r.store.series| && Step(r, e).store.ledger != []
    ensures var s := Step(r, e).store;
            var value, bonusRow := CompletedValue(Members(s.rows, sid)), s.ledger[|s.ledger| - 1].delta;
            var series := r.store.series[sid];
            && PaidToMembers(s, sid, |s.rows|) == value
            && (PaidToMembers(s, sid, |s.rows|) + bonusRow == value + series.bonus
                <==> series.mode == IndividualPlusBonus || value == 0)
  {
    BonusIsEarned(r, e, sid);
    StepKeeps(r, e);
    var s := Step(r, e).store;
    InvPaysCompleted(Step(r, e));
    MembersWerePaidTheirValue(s, sid, |s.rows|);
    assert s.rows[..|s.rows|] == s.rows;
  }

  const LONE: TaskRow := TaskRow(0, 0, Some(0), 0, 10, Pending, None, None, None, 0)
  const LONE_SERIES: SeriesRow := SeriesRow(0, AllOrNothing, 5, Active, None)
  const LONE_PAID: Entry := Entry(0, 10, 10, TaskCompleted, Some(0), None)
  const LONE_BONUS: Entry := Entry(0, 15, 25, SeriesBonus, None, Some(0))

  lemma LoneTaskIsPaid()
    ensures CompleteInstance(Store([LONE], [], [LONE_SERIES]), 0, 0, false)
            == Ok(Store([LONE.(completedAt := Some(0), status := Status.Complete)], [LONE_PAID], [LONE_SERIES]))
  {
    var row := LONE.(completedAt := Some(0), status := Status.Complete);
    assert [LONE][0 := row] == [row];
    assert Stamp([], 0, 10, TaskCompleted, Some(0), None) == LONE_PAID;
    assert [] + [LONE_PAID] == [LONE_PAID];
  }

  lemma LoneMember(row: TaskRow)
    requires row.series == Some(0) && row.status == Status.Complete
    ensures Members([row], 0) == [row] && Payable([row]) && CompletedValue([row]) == row.pointValue
  {
    assert [row][..0] == [] && row in [row];
    assert Members([], 0) == [] && CompletedValue([]) == 0;
  }

  lemma LoneBonusIsPosted()
    ensures Stamp([LONE_PAID], 0, 15, SeriesBonus, None, Some(0)) == LONE_BONUS
    ensures Post([LONE_PAID], LONE_BONUS) == Ok([LONE_PAID] + [LONE_BONUS])
  {
    BalanceAppend([], LONE_PAID, 0);
    assert [] + [LONE_PAID] == [LONE_PAID];
    assert !Clash(LONE_PAID, LONE_BONUS);
  }

  lemma PayableSeriesIsPaid(s: Store, sid: nat, now: int, posted: seq<Entry>)
    requires sid < |s.series| && s.series[sid].status == Active && Payable(Members(s.rows, sid))
    requires var delta := SeriesPayout(s.series[sid], Members(s.rows, sid));
             Post(s.ledger, Stamp(s.ledger, s.series[sid].assignee, delta, SeriesBonus, None, Some(sid))) == Ok(posted)
    ensures Evaluate(s, sid, now).Ok? && Evaluate(s, sid, now).value.0.ledger == posted
  {
  }

  lemma LoneSeriesIsPaid(row: TaskRow)
    requires row == LONE.(completedAt := Some(0), status := Status.Complete)
    ensures var out := Evaluate(Store([row], [LONE_PAID], [LONE_SERIES]), 0, 0);
            out.Ok? && out.value.0.ledger == [LONE_PAID] + [LONE_BONUS]
  {
    var s := Store([row], [LONE_PAID], [LONE_SERIES]);
    LoneMember(row);
    assert SeriesPayout(s.series[0], Members(s.rows, 0)) == 15;
    LoneBonusIsPosted();
    PayableSeriesIsPaid(s, 0, 0, [LONE_PAID] + [LONE_BONUS]);
  }

  /** The promise broken: a ten-point task alone in an all-or-nothing series with a bonus of five pays 25 points, not 15. */
  lemma AllOrNothingPaysTwice()
    ensures var start := Run(Store([LONE], [], [LONE_SERIES]), map[]);
            && start == Step(Step(EMPTY, OpenSeries(0, AllOrNothing, 5)), Insert(LONE))
            && Balance(Step(start, Event.Complete(0, 0, false)).store.ledger, 0) == 25
  {
    LoneTaskIsReached();
    LoneCompletion();
    LoneBalance();
  }

  lemma LoneCompletion()
    ensures var out := CompleteTask(Store([LONE], [], [LONE_SERIES]), 0, 0, false);
            out.Ok? && out.value.ledger == [LONE_PAID] + [LONE_BONUS]
  {
    LoneTaskIsPaid();
    LoneSeriesIsPaid(LONE.(completedAt := Some(0), status := Status.Complete));
  }

  lemma LoneBalance()
    ensures Balance([LONE_PAID] + [LONE_BONUS], 0) == 25
  {
    BalanceAppend([], LONE_PAID, 0);
    assert [] + [LONE_PAID] == [LONE_PAID];
    BalanceAppend([LONE_PAID], LONE_BONUS, 0);
  }

  lemma LoneTaskIsReached()
    ensures Step(Step(EMPTY, OpenSeries(0, AllOrNothing, 5)), Insert(LONE)) == Run(Store([LONE], [], [LONE_SERIES]), map[])
  {
    var began := Step(EMPTY, OpenSeries(0, AllOrNothing, 5));
    assert began == Run(Store([], [], [LONE_SERIES]), map[]);
    assert [] + [LONE] == [LONE];
  }

  lemma PayAddsNoBonus(s: Store, id: nat, delta: int, kind: Kind, sid: nat)
    requires id < |s.rows| && PayTask(s, id, delta, kind).Ok?
    ensures HasBonus(PayTask(s, id, delta, kind).value.ledger, sid) <==> HasBonus(s.ledger, sid)
  {
    Appended(s.ledger, Stamp(s.ledger, s.rows[id].assignee, delta, kind, Some(id), None));
  }

  lemma CompletingAddsNoBonus(s: Store, id: nat, now: int, requiresReview: bool, sid: nat)
    requires CompleteInstance(s, id, now, requiresReview).Ok?
    ensures var done := CompleteInstance(s, id, now, requiresReview).value;
            && id < |done.rows| && done.series == s.series
            && done.rows[id].status in {Status.Complete, ReviewPending}
            && (HasBonus(done.ledger, sid) <==> HasBonus(s.ledger, sid))
  {
    var row := CompleteRow(s.rows[id], now, requiresReview).value;
    if row.status == Status.Complete {
      PayAddsNoBonus(SetRow(s, id, row), id, row.pointValue, TaskCompleted, sid);
    }
  }

  lemma EvaluateAddsOwnBonus(s: Store, at: nat, now: int, sid: nat)
    requires at < |s.series| && Evaluate(s, at, now).Ok?
    requires !HasBonus(s.ledger, sid) && HasBonus(Evaluate(s, at, now).value.0.ledger, sid)
    ensures at == sid && s.series[sid].status == Active && Payable(Members(s.rows, sid))
  {
    var series := s.series[at];
    var delta := SeriesPayout(series, Members(s.rows, at));
    Appended(s.ledger, Stamp(s.ledger, series.assignee, delta, SeriesBonus, None, Some(at)));
  }

  lemma {:induction false} MemberOf(rows: seq<TaskRow>, id: nat, sid: nat)
    requires id < |rows| && rows[id].series == Some(sid)
    ensures rows[id] in Members(rows, sid)
  {
    if id < |rows| - 1 {
      MemberOf(rows[..|rows| - 1], id, sid);
    }
  }

  lemma OnlyCompletionAddsBonus(r: Run, e: Event, sid: nat)
    requires !HasBonus(r.store.ledger, sid) && HasBonus(Step(r, e).store.ledger, sid)
    ensures e.Complete? && CompleteTask(r.store, e.id, e.now, e.requiresReview).Ok?
    ensures CompleteInstance(r.store, e.id, e.now, e.requiresReview).Ok?
    ensures var done := CompleteInstance(r.store, e.id, e.now, e.requiresReview).value;
            done.rows[e.id].series.Some? && done.rows[e.id].series.value < |done.series|
  {
    match e
    case Complete(id, now, requiresReview) =>
      var done := CompleteInstance(r.store, id, now, requiresReview);
      if done.Ok? {
        CompletingAddsNoBonus(r.store, id, now, requiresReview, sid);
      }
    case Review(_, _, _, _, _, _) => if Handle(r.store, e).Ok? { ReviewAddsNoBonus(r.store, e, sid); }
    case Reverse(id, now) =>
      if id < |r.store.rows| && ReverseRow(r.store.rows[id], now).Ok? && ReverseTask(r.store, id, now).Ok? {
        var row := ReverseRow(r.store.rows[id], now).value;
        PayAddsNoBonus(SetRow(r.store, id, row), id, -row.pointValue, Reversal, sid);
      }
    case ManualAdjust(member, delta, _) =>
      Appended(r.store.ledger, Stamp(r.store.ledger, member, delta, ManualAdjustment, None, None));
    case Claim(member, points) =>
      Appended(r.store.ledger, Stamp(r.store.ledger, member, -points, ClaimFulfilled, None, None));
    case _ =>
  }

  lemma ReviewAddsNoBonus(s: Store, e: Event, sid: nat)
    requires e.Review? && Handle(s, e).Ok?
    ensures HasBonus(Handle(s, e).value.ledger, sid) <==> HasBonus(s.ledger, sid)
  {
    if e.approve && s.rows[e.id].status == ReviewPending {
      var row := ReviewRow(s.rows[e.id], e.now, true, e.hasComment).value;
      PayAddsNoBonus(SetRow(s, e.id, row), e.id, row.pointValue, TaskCompleted, sid);
    } else if e.approve && e.policy != PaysNothing {
      var row := ResolveRow(s.rows[e.id], e.now, true, e.hasComment, e.graceHours).value;
      var kind := if e.policy == PaysPartial then ExcusedPartial else TaskCompleted;
      PayAddsNoBonus(SetRow(s, e.id, row), e.id, Payout(e.policy, row.pointValue), kind, sid);
    }
  }
}
