/**
 * What each transaction does, told by its effects: why it is refused, the one row it moves,
 * the ledger rows it books, the series it closes, and what becomes of the balances.
 */
module Effects {
  import opened Domain
  import opened StateMachine
  import opened Ledger
  import opened Points
  import opened Runs
  import RunTheorems

  /** The requests that name an instance. */
  predicate OnInstance(e: Event) {
    e.Complete? || e.Excuse? || e.Review? || e.Cancel? || e.Reverse?
  }

  // ---------------------------------------------------------------- refusals

  /** Why a transaction is refused, but for the index: told by the state and the request before it. */
  lemma RefusedIff(s: Store, e: Event)
    ensures Handle(s, e) == Err(NotFound) <==> (OnInstance(e) && e.id >= |s.rows|) || (e.EditSeries? && e.sid >= |s.series|)
    ensures Handle(s, e) == Err(InvalidTransition)
            <==> OnInstance(e) && e.id < |s.rows|
                 && (|| ((e.Complete? || e.Excuse? || e.Cancel?) && s.rows[e.id].status !in {Pending, Overdue})
                     || (e.Reverse? && s.rows[e.id].status != Status.Complete))
    ensures Handle(s, e) == Err(ExcuseTooShort)
            <==> e.Excuse? && e.id < |s.rows| && s.rows[e.id].status in {Pending, Overdue} && e.excuseLength < 10
    ensures Handle(s, e) == Err(NotPendingReview)
            <==> e.Review? && e.id < |s.rows| && s.rows[e.id].status !in {ReviewPending, ExcusePending}
    ensures Handle(s, e) == Err(MissingComment)
            <==> e.Review? && e.id < |s.rows| && s.rows[e.id].status in {ReviewPending, ExcusePending} && !e.approve && !e.hasComment
    ensures Handle(s, e) == Err(BlankReason) <==> e.ManualAdjust? && e.blankReason
  {
    if e.Complete? {
      CompletionRefused(s, e);
    } else if e.Review? {
      ReviewRefused(s, e);
    }
  }

  lemma CompletionRefused(s: Store, e: Event)
    requires e.Complete?
    ensures Handle(s, e) == Err(NotFound) <==> e.id >= |s.rows|
    ensures Handle(s, e) == Err(InvalidTransition) <==> e.id < |s.rows| && s.rows[e.id].status !in {Pending, Overdue}
    ensures Handle(s, e).Err? ==> Handle(s, e).why in {NotFound, InvalidTransition, DuplicateEntry}
  {
  }

  lemma ReviewRefused(s: Store, e: Event)
    requires e.Review?
    ensures Handle(s, e) == Err(NotFound) <==> e.id >= |s.rows|
    ensures Handle(s, e) == Err(NotPendingReview)
            <==> e.id < |s.rows| && s.rows[e.id].status !in {ReviewPending, ExcusePending}
    ensures Handle(s, e) == Err(MissingComment)
            <==> e.id < |s.rows| && s.rows[e.id].status in {ReviewPending, ExcusePending} && !e.approve && !e.hasComment
    ensures Handle(s, e).Err? ==> Handle(s, e).why in {NotFound, NotPendingReview, MissingComment, DuplicateEntry}
  {
  }

  // ---------------------------------------------------------------- rows and their ledger entries

  /** The entry of a task row: the assignee's, on the instance, over the balance as it stands. */
  function TaskEntry(l: seq<Entry>, row: TaskRow, id: nat, delta: int, kind: Kind): Entry {
    Entry(row.assignee, delta, Balance(l, row.assignee) + delta, kind, Some(id), None)
  }

  /** What the request books on the instance, once it goes through. */
  function Booked(l: seq<Entry>, row: TaskRow, e: Event): seq<Entry>
    requires OnInstance(e)
  {
    if e.Complete? && !e.requiresReview then [TaskEntry(l, row, e.id, row.pointValue, TaskCompleted)]
    else if e.Review? && e.approve && row.status == ReviewPending then [TaskEntry(l, row, e.id, row.pointValue, TaskCompleted)]
    else if e.Review? && e.approve && e.policy == PaysFull then [TaskEntry(l, row, e.id, row.pointValue, TaskCompleted)]
    else if e.Review? && e.approve && e.policy == PaysPartial then [TaskEntry(l, row, e.id, row.pointValue / 2, ExcusedPartial)]
    else if e.Reverse? then [TaskEntry(l, row, e.id, -row.pointValue, Reversal)]
    else []
  }

  /** What the request does to the row it names. */
  function Moved(row: TaskRow, e: Event): TaskRow
    requires OnInstance(e)
  {
    match e
    case Complete(_, now, requiresReview) => Act(row, DoComplete(now, requiresReview))
    case Excuse(_, now, length) => Act(row, DoExcuse(now, length))
    case Review(_, now, approve, hasComment, _, graceHours) =>
      if row.status == ReviewPending then Act(row, DoReview(now, approve, hasComment))
      else Act(row, DoResolve(now, approve, hasComment, graceHours))
    case Cancel(_, now) => Act(row, DoCancel(now))
    case Reverse(_, now) => Act(row, DoReverse(now))
  }

  /** The state with one row moved and its entries booked, and nothing else changed. */
  ghost predicate MovedAndBooked(s: Store, t: Store, e: Event)
    requires OnInstance(e)
  {
    && e.id < |s.rows|
    && t == s.(rows := s.rows[e.id := Moved(s.rows[e.id], e)], ledger := s.ledger + Booked(s.ledger, s.rows[e.id], e))
    && t.rows[e.id].status != s.rows[e.id].status
  }

  lemma PayBooks(s: Store, id: nat, row: TaskRow, delta: int, kind: Kind)
    requires id < |s.rows| && PayTask(SetRow(s, id, row), id, delta, kind).Ok?
    ensures PayTask(SetRow(s, id, row), id, delta, kind).value
            == s.(rows := s.rows[id := row], ledger := s.ledger + [TaskEntry(s.ledger, row, id, delta, kind)])
  {
  }

  lemma NothingBooked(s: Store, id: nat, row: TaskRow)
    requires id < |s.rows|
    ensures SetRow(s, id, row) == s.(rows := s.rows[id := row], ledger := s.ledger + [])
  {
    assert s.ledger + [] == s.ledger;
  }

  /** A completion, before its series is looked at. */
  lemma CompletionEffect(s: Store, e: Event)
    requires e.Complete? && CompleteInstance(s, e.id, e.now, e.requiresReview).Ok?
    ensures MovedAndBooked(s, CompleteInstance(s, e.id, e.now, e.requiresReview).value, e)
  {
    var row := CompleteRow(s.rows[e.id], e.now, e.requiresReview).value;
    if e.requiresReview {
      NothingBooked(s, e.id, row);
    } else {
      PayBooks(s, e.id, row, row.pointValue, TaskCompleted);
    }
  }

  lemma ReviewEffect(s: Store, e: Event)
    requires e.Review? && Handle(s, e).Ok? && s.rows[e.id].status == ReviewPending
    ensures MovedAndBooked(s, Handle(s, e).value, e)
  {
    var row := ReviewRow(s.rows[e.id], e.now, e.approve, e.hasComment).value;
    if e.approve {
      PayBooks(s, e.id, row, row.pointValue, TaskCompleted);
    } else {
      NothingBooked(s, e.id, row);
    }
  }

  lemma ExcuseAnswerEffect(s: Store, e: Event)
    requires e.Review? && Handle(s, e).Ok? && s.rows[e.id].status != ReviewPending
    ensures MovedAndBooked(s, Handle(s, e).value, e)
  {
    var row := ResolveRow(s.rows[e.id], e.now, e.approve, e.hasComment, e.graceHours).value;
    if e.approve && e.policy == PaysFull {
      PayBooks(s, e.id, row, row.pointValue, TaskCompleted);
    } else if e.approve && e.policy == PaysPartial {
      PayBooks(s, e.id, row, row.pointValue / 2, ExcusedPartial);
    } else {
      NothingBooked(s, e.id, row);
    }
  }

  lemma ReversalEffect(s: Store, e: Event)
    requires e.Reverse? && Handle(s, e).Ok?
    ensures MovedAndBooked(s, Handle(s, e).value, e)
  {
    var row := ReverseRow(s.rows[e.id], e.now).value;
    PayBooks(s, e.id, row, -row.pointValue, Reversal);
  }

  lemma PlainEffect(s: Store, e: Event)
    requires (e.Excuse? || e.Cancel?) && Handle(s, e).Ok?
    ensures MovedAndBooked(s, Handle(s, e).value, e)
  {
    NothingBooked(s, e.id, Handle(s, e).value.rows[e.id]);
  }

  /**
   * A request that goes through moves the row it names by its own action, which changes the
   * status, books exactly its entries, and changes nothing else; one refused changes nothing.
   */
  lemma RequestEffect(r: Run, e: Event)
    requires OnInstance(e) && !e.Complete?
    ensures Handle(r.store, e).Err? ==> Step(r, e) == r
    ensures Handle(r.store, e).Ok? ==> MovedAndBooked(r.store, Step(r, e).store, e)
  {
    if Handle(r.store, e).Ok? {
      if e.Reverse? {
        ReversalEffect(r.store, e);
      } else if e.Review? && r.store.rows[e.id].status == ReviewPending {
        ReviewEffect(r.store, e);
      } else if e.Review? {
        ExcuseAnswerEffect(r.store, e);
      } else {
        PlainEffect(r.store, e);
      }
    }
  }

  // ---------------------------------------------------------------- completion and its series

  /** Every row of the series is complete or excused, and some row of it is complete. */
  ghost predicate AllDone(rows: seq<TaskRow>, sid: nat) {
    && (forall i :: 0 <= i < |rows| && rows[i].series == Some(sid) ==> rows[i].status in {Status.Complete, Excused})
    && (exists i :: 0 <= i < |rows| && rows[i].series == Some(sid) && rows[i].status == Status.Complete)
  }

  ghost predicate Has(rows: seq<TaskRow>, sid: nat, m: TaskRow) {
    exists i :: 0 <= i < |rows| && rows[i] == m && m.series == Some(sid)
  }

  lemma HasOneMore(rows: seq<TaskRow>, sid: nat, m: TaskRow)
    requires rows != []
    ensures var n := |rows| - 1;
            Has(rows, sid, m) <==> Has(rows[..n], sid, m) || (rows[n] == m && m.series == Some(sid))
  {
    var n := |rows| - 1;
    if Has(rows, sid, m) {
      var i :| 0 <= i < |rows| && rows[i] == m;
      assert i < n ==> rows[..n][i] == m;
    }
    if Has(rows[..n], sid, m) {
      var i :| 0 <= i < n && rows[..n][i] == m;
      assert rows[i] == m;
    }
  }

  lemma {:induction false} MembersAre(rows: seq<TaskRow>, sid: nat, m: TaskRow)
    ensures m in Members(rows, sid) <==> Has(rows, sid, m)
  {
    if rows != [] {
      MembersAre(rows[..|rows| - 1], sid, m);
      HasOneMore(rows, sid, m);
    }
  }

  lemma PayableIff(rows: seq<TaskRow>, sid: nat)
    ensures Payable(Members(rows, sid)) <==> AllDone(rows, sid)
  {
    forall m
      ensures m in Members(rows, sid) <==> Has(rows, sid, m)
    {
      MembersAre(rows, sid, m);
    }
    if Payable(Members(rows, sid)) {
      var m :| m in Members(rows, sid) && m.status == Status.Complete;
      assert Has(rows, sid, m);
      forall i | 0 <= i < |rows| && rows[i].series == Some(sid)
        ensures rows[i].status in {Status.Complete, Excused}
      {
        assert Has(rows, sid, rows[i]);
      }
    }
    if AllDone(rows, sid) {
      var i :| 0 <= i < |rows| && rows[i].series == Some(sid) && rows[i].status == Status.Complete;
      assert Has(rows, sid, rows[i]);
    }
  }

  /** What closing a series pays on these rows. */
  function BonusDue(series: SeriesRow, rows: seq<TaskRow>, sid: nat): int {
    series.bonus + if series.mode == AllOrNothing then CompletedValue(Members(rows, sid)) else 0
  }

  /** The evaluation closes the series: it is unpaid and all done. */
  ghost predicate Closes(s: Store, sid: nat) {
    sid < |s.series| && !HasBonus(s.ledger, sid) && AllDone(s.rows, sid)
  }

  function BonusEntry(s: Store, sid: nat): Entry
    requires sid < |s.series|
  {
    var who, due := s.series[sid].assignee, BonusDue(s.series[sid], s.rows, sid);
    Entry(who, due, Balance(s.ledger, who) + due, SeriesBonus, None, Some(sid))
  }

  /** The state after the evaluation at `now`: closed at that instant with its bonus booked, or as it was. */
  ghost predicate Evaluated(s: Store, t: Store, sid: nat, now: int) {
    t == if Closes(s, sid) then
           s.(ledger := s.ledger + [BonusEntry(s, sid)],
              series := s.series[sid := s.series[sid].(status := Closed, closedAt := Some(now))])
         else s
  }

  /** On a reachable state, evaluation closes a series exactly when it is unpaid and all done. */
  lemma EvaluationEffect(r: Run, sid: nat, now: int)
    requires Inv(r) && sid < |r.store.series|
    ensures var out := Evaluate(r.store, sid, now);
            && out.Ok? && Evaluated(r.store, out.value.0, sid, now)
            && (out.value.1 <==> Closes(r.store, sid))
  {
    PayableIff(r.store.rows, sid);
    if Closes(r.store, sid) {
      UnpaidIsActive(r.store, sid);
      BonusIsFree(r.store, sid);
      ClosingEvaluation(r.store, sid, now);
    } else {
      IdleEvaluation(r.store, sid, now);
    }
  }

  lemma BonusIsFree(s: Store, sid: nat)
    requires LedgerOk(s) && sid < |s.series| && !HasBonus(s.ledger, sid)
    ensures Post(s.ledger, BonusEntry(s, sid)) == Ok(s.ledger + [BonusEntry(s, sid)])
  {
    BonusKeepsLedger(s, sid, BonusEntry(s, sid));
  }

  lemma ClosingEvaluation(s: Store, sid: nat, now: int)
    requires sid < |s.series| && s.series[sid].status == Active && Payable(Members(s.rows, sid)) && Closes(s, sid)
    requires Post(s.ledger, BonusEntry(s, sid)) == Ok(s.ledger + [BonusEntry(s, sid)])
    ensures var out := Evaluate(s, sid, now);
            out.Ok? && out.value.1 && Evaluated(s, out.value.0, sid, now)
  {
    var series := s.series[sid];
    assert SeriesPayout(series, Members(s.rows, sid)) == BonusDue(series, s.rows, sid);
    assert Stamp(s.ledger, series.assignee, BonusDue(series, s.rows, sid), SeriesBonus, None, Some(sid)) == BonusEntry(s, sid);
  }

  lemma IdleEvaluation(s: Store, sid: nat, now: int)
    requires SeriesOk(s) && sid < |s.series| && !Closes(s, sid)
    requires Payable(Members(s.rows, sid)) <==> AllDone(s.rows, sid)
    ensures Evaluate(s, sid, now) == Ok((s, false))
  {
  }

  lemma UnpaidIsActive(s: Store, sid: nat)
    requires SeriesOk(s) && sid < |s.series| && !HasBonus(s.ledger, sid)
    ensures s.series[sid].status == Active
  {
  }

  /**
   * The whole of a completion that goes through, on a reachable state: its row moved, its
   * entry booked if it needs no review, and then its series evaluated on what that leaves.
   */
  lemma CompleteTaskEffect(r: Run, e: Event)
    requires Inv(r) && e.Complete? && CompleteInstance(r.store, e.id, e.now, e.requiresReview).Ok?
    ensures var done := CompleteInstance(r.store, e.id, e.now, e.requiresReview).value;
            && MovedAndBooked(r.store, done, e)
            && Handle(r.store, e).Ok?
            && match r.store.rows[e.id].series
               case None => Step(r, e).store == done
               case Some(sid) => Evaluated(done, Step(r, e).store, sid, e.now)
  {
    CompletionEffect(r.store, e);
    CompleteKeeps(r, e.id, e.now, e.requiresReview);
    var done := CompleteInstance(r.store, e.id, e.now, e.requiresReview).value;
    SeriesStays(r.store, e);
    var at := done.rows[e.id].series;
    if at.Some? && at.value < |done.series| {
      EvaluationEffect(Run(done, r.policies), at.value, e.now);
    }
  }

  lemma SeriesStays(s: Store, e: Event)
    requires e.Complete? && CompleteInstance(s, e.id, e.now, e.requiresReview).Ok?
    ensures var done := CompleteInstance(s, e.id, e.now, e.requiresReview).value;
            e.id < |done.rows| && done.rows[e.id].series == s.rows[e.id].series
  {
  }

  lemma BookedIsOneTaskRow(s: Store, t: Store, e: Event)
    requires OnInstance(e) && MovedAndBooked(s, t, e)
    ensures || t.ledger == s.ledger
            || (&& |t.ledger| == |s.ledger| + 1 && t.ledger == s.ledger + [t.ledger[|s.ledger|]]
                && TaskKind(t.ledger[|s.ledger|].kind) && t.ledger[|s.ledger|].series == None)
  {
    var booked := Booked(s.ledger, s.rows[e.id], e);
    if booked == [] {
      assert s.ledger + booked == s.ledger;
    } else {
      assert booked == [booked[0]] && t.ledger[|s.ledger|] == booked[0];
    }
  }

  lemma BookedIsNoBonus(s: Store, t: Store, e: Event, sid: nat)
    requires OnInstance(e) && MovedAndBooked(s, t, e)
    ensures HasBonus(t.ledger, sid) <==> HasBonus(s.ledger, sid)
  {
    BookedIsOneTaskRow(s, t, e);
    if t.ledger != s.ledger {
      Appended(s.ledger, t.ledger[|s.ledger|]);
    }
  }

  /**
   * Completing a member pays the series' bonus whenever it is due: afterwards the bonus row
   * exists exactly if it did before, or every member is now complete or excused and one
   * complete. Neither mode is passed over.
   */
  lemma CompletionPaysTheBonusIff(r: Run, e: Event, sid: nat)
    requires Inv(r) && e.Complete? && CompleteInstance(r.store, e.id, e.now, e.requiresReview).Ok?
    requires r.store.rows[e.id].series == Some(sid) && sid < |r.store.series|
    ensures var t := Step(r, e).store;
            && Handle(r.store, e) == Ok(t)
            && (HasBonus(t.ledger, sid) <==> HasBonus(r.store.ledger, sid) || AllDone(t.rows, sid))
            && (!HasBonus(r.store.ledger, sid) && HasBonus(t.ledger, sid) ==>
                  sid < |t.series| && t.series[sid].status == Closed && t.series[sid].closedAt == Some(e.now))
  {
    CompleteTaskEffect(r, e);
    var done := CompleteInstance(r.store, e.id, e.now, e.requiresReview).value;
    BookedIsNoBonus(r.store, done, e, sid);
    if Closes(done, sid) {
      Appended(done.ledger, BonusEntry(done, sid));
    }
  }

  // ---------------------------------------------------------------- balances from what happened

  /** What fulfilled claims took from the member. */
  function Claimed(events: seq<Event>, member: nat): int {
    if events == [] then 0
    else
      var e := events[|events| - 1];
      Claimed(events[..|events| - 1], member) + (if e.Claim? && e.member == member then e.points else 0)
  }

  /** What parents added by hand. */
  function Adjusted(events: seq<Event>, member: nat): int {
    if events == [] then 0
    else
      var e := events[|events| - 1];
      Adjusted(events[..|events| - 1], member)
      + (if e.ManualAdjust? && !e.blankReason && e.member == member then e.delta else 0)
  }

  /** The bonus a transaction earns the member: a completion that leaves the row's unpaid series all done. */
  ghost function BonusOf(r: Run, e: Event, member: nat): int {
    if e.Complete? && CompleteInstance(r.store, e.id, e.now, e.requiresReview).Ok? && r.store.rows[e.id].series.Some? then
      var sid, rows := r.store.rows[e.id].series.value, Step(r, e).store.rows;
      if sid < |r.store.series| && !HasBonus(r.store.ledger, sid) && AllDone(rows, sid) && r.store.series[sid].assignee == member
      then BonusDue(r.store.series[sid], rows, sid)
      else 0
    else 0
  }

  ghost function Bonuses(events: seq<Event>, member: nat): int {
    if events == [] then 0
    else
      Bonuses(events[..|events| - 1], member)
      + BonusOf(After(EMPTY, events[..|events| - 1]), events[|events| - 1], member)
  }

  /** The three sums of a member's rows that are tied to no instance. */
  ghost predicate Sums(l: seq<Entry>, member: nat, bonus: int, adjusted: int, claimed: int) {
    && KindSum(l, member, SeriesBonus) == bonus
    && KindSum(l, member, ManualAdjustment) == adjusted
    && KindSum(l, member, ClaimFulfilled) == -claimed
  }

  lemma TaskRowKeepsSums(l: seq<Entry>, row: Entry, member: nat, bonus: int, adjusted: int, claimed: int)
    requires Sums(l, member, bonus, adjusted, claimed) && TaskKind(row.kind)
    ensures Sums(l + [row], member, bonus, adjusted, claimed)
  {
    Appended(l, row);
  }

  lemma BookedSums(s: Store, t: Store, e: Event, member: nat, bonus: int, adjusted: int, claimed: int)
    requires OnInstance(e) && MovedAndBooked(s, t, e) && Sums(s.ledger, member, bonus, adjusted, claimed)
    ensures Sums(t.ledger, member, bonus, adjusted, claimed)
  {
    BookedIsOneTaskRow(s, t, e);
    if t.ledger != s.ledger {
      TaskRowKeepsSums(s.ledger, t.ledger[|s.ledger|], member, bonus, adjusted, claimed);
    }
  }

  lemma CompletionSums(r: Run, e: Event, member: nat, bonus: int, adjusted: int, claimed: int)
    requires Inv(r) && e.Complete? && Sums(r.store.ledger, member, bonus, adjusted, claimed)
    ensures Sums(Step(r, e).store.ledger, member, bonus + BonusOf(r, e, member), adjusted, claimed)
  {
    var out := CompleteInstance(r.store, e.id, e.now, e.requiresReview);
    if out.Ok? {
      CompleteTaskEffect(r, e);
      BookedSums(r.store, out.value, e, member, bonus, adjusted, claimed);
      if r.store.rows[e.id].series.Some? {
        SeriesSums(r, e, out.value, member, bonus, adjusted, claimed);
      }
    }
  }

  lemma SeriesSums(r: Run, e: Event, done: Store, member: nat, bonus: int, adjusted: int, claimed: int)
    requires e.Complete? && CompleteInstance(r.store, e.id, e.now, e.requiresReview) == Ok(done)
    requires MovedAndBooked(r.store, done, e) && Sums(done.ledger, member, bonus, adjusted, claimed)
    requires r.store.rows[e.id].series.Some? && Evaluated(done, Step(r, e).store, r.store.rows[e.id].series.value, e.now)
    ensures Sums(Step(r, e).store.ledger, member, bonus + BonusOf(r, e, member), adjusted, claimed)
  {
    var sid := r.store.rows[e.id].series.value;
    BookedIsNoBonus(r.store, done, e, sid);
    if Closes(done, sid) {
      Appended(done.ledger, BonusEntry(done, sid));
    }
  }

  /** A claim takes its points from its member's balance, and a manual adjustment adds its signed delta; no one else's moves. */
  lemma FreeEffect(r: Run, e: Event, m: nat)
    requires Inv(r) && (e.Claim? || (e.ManualAdjust? && !e.blankReason))
    ensures var moved := if m != e.member then 0 else if e.Claim? then -e.points else e.delta;
            Balance(Step(r, e).store.ledger, m) == Balance(r.store.ledger, m) + moved
    ensures Step(r, e).store.rows == r.store.rows && Step(r, e).store.series == r.store.series
  {
    FreeStep(r, e);
    Appended(r.store.ledger, Step(r, e).store.ledger[|r.store.ledger|]);
  }

  lemma FreeStep(r: Run, e: Event)
    requires Inv(r) && (e.Claim? || (e.ManualAdjust? && !e.blankReason))
    ensures var delta, kind := if e.Claim? then -e.points else e.delta, if e.Claim? then ClaimFulfilled else ManualAdjustment;
            Step(r, e) == r.(store := r.store.(ledger := r.store.ledger
              + [Entry(e.member, delta, Balance(r.store.ledger, e.member) + delta, kind, None, None)]))
  {
    var delta, kind := if e.Claim? then -e.points else e.delta, if e.Claim? then ClaimFulfilled else ManualAdjustment;
    FreePostKeeps(r, e.member, delta, kind);
  }

  lemma RequestSums(r: Run, e: Event, member: nat, bonus: int, adjusted: int, claimed: int)
    requires OnInstance(e) && !e.Complete? && Sums(r.store.ledger, member, bonus, adjusted, claimed)
    ensures Sums(Step(r, e).store.ledger, member, bonus, adjusted, claimed)
  {
    RequestEffect(r, e);
    if Handle(r.store, e).Ok? {
      BookedSums(r.store, Step(r, e).store, e, member, bonus, adjusted, claimed);
    }
  }

  lemma FreeSums(r: Run, e: Event, member: nat, bonus: int, adjusted: int, claimed: int)
    requires Inv(r) && (e.Claim? || (e.ManualAdjust? && !e.blankReason))
    requires Sums(r.store.ledger, member, bonus, adjusted, claimed)
    ensures Sums(Step(r, e).store.ledger, member, bonus,
                 adjusted + (if e.ManualAdjust? && e.member == member then e.delta else 0),
                 claimed + (if e.Claim? && e.member == member then e.points else 0))
  {
    FreeStep(r, e);
    Appended(r.store.ledger, Step(r, e).store.ledger[|r.store.ledger|]);
  }

  lemma StepSums(r: Run, e: Event, member: nat, bonus: int, adjusted: int, claimed: int)
    requires Inv(r) && Sums(r.store.ledger, member, bonus, adjusted, claimed)
    ensures Sums(Step(r, e).store.ledger, member, bonus + BonusOf(r, e, member),
                 adjusted + (if e.ManualAdjust? && !e.blankReason && e.member == member then e.delta else 0),
                 claimed + (if e.Claim? && e.member == member then e.points else 0))
  {
    if e.Complete? {
      CompletionSums(r, e, member, bonus, adjusted, claimed);
    } else if OnInstance(e) {
      RequestSums(r, e, member, bonus, adjusted, claimed);
    } else if e.Claim? || (e.ManualAdjust? && !e.blankReason) {
      FreeSums(r, e, member, bonus, adjusted, claimed);
    } else {
      OtherwiseNothingIsBooked(r, e);
    }
  }

  lemma OtherwiseNothingIsBooked(r: Run, e: Event)
    requires !OnInstance(e) && !e.Claim? && !(e.ManualAdjust? && !e.blankReason)
    ensures Step(r, e).store.ledger == r.store.ledger
  {
  }

  lemma {:induction false} RunSums(events: seq<Event>, member: nat)
    ensures Sums(After(EMPTY, events).store.ledger, member, Bonuses(events, member), Adjusted(events, member), Claimed(events, member))
  {
    if events != [] {
      var n := |events| - 1;
      RunSums(events[..n], member);
      RunTheorems.Reachable(events[..n]);
      StepSums(After(EMPTY, events[..n]), events[n], member,
               Bonuses(events[..n], member), Adjusted(events[..n], member), Claimed(events[..n], member));
    }
  }

  /**
   * A member's balance, from what happened and what stands: the worth of their instances,
   * plus the bonuses their series earned, plus what was adjusted, less what was claimed.
   */
  lemma BalanceIsWhatHappened(events: seq<Event>, member: nat)
    ensures var r := After(EMPTY, events);
            Balance(r.store.ledger, member)
            == RunTheorems.WorthTotal(r, member, |r.store.rows|)
               + Bonuses(events, member) + Adjusted(events, member) - Claimed(events, member)
  {
    RunTheorems.BalanceIsConserved(events, member);
    RunSums(events, member);
  }

  /** What a row is worth, in figures: its value if complete, by the policy of its approval if excused, otherwise nothing. */
  lemma WorthInFigures(row: TaskRow, policy: Policy)
    ensures row.status == Status.Complete ==> Worth(row, policy) == row.pointValue
    ensures row.status == Excused && policy == PaysFull ==> Worth(row, policy) == row.pointValue
    ensures row.status == Excused && policy == PaysPartial ==> 2 * Worth(row, policy) <= row.pointValue < 2 * Worth(row, policy) + 2
    ensures row.status == Excused && policy == PaysNothing ==> Worth(row, policy) == 0
    ensures row.status !in {Status.Complete, Excused} ==> Worth(row, policy) == 0
  {
  }
}
