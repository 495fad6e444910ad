/**
 * Overlapping requests, and nightly sweeps, on one task instance. Each loads the row as
 * last committed, later writes what it makes of that copy, and commits. A written row is
 * locked until its transaction ends, but nothing checks that the copy is still current, so
 * a request may overwrite one committed since it loaded. The ledger is the instance's own.
 */
module Overlap {
  import opened Domain
  import opened StateMachine
  import opened Ledger
  import opened Nightly
  import opened Points
  import R = Runs
  import RunTheorems
  import Interleaving

  /** A committed version of the row: whose copy it was made from, and what its writer paid. */
  datatype Version = Version(row: TaskRow, policy: Policy, base: nat, paid: int)

  datatype Txn =
    | Loaded(base: nat)
    | Written(base: nat, row: TaskRow, policy: Policy, ledger: seq<Entry>)

  datatype Db = Db(versions: seq<Version>, ledger: seq<Entry>, open: map<nat, Txn>)

  datatype Move =
    | Load(t: nat)
    | Write(t: nat, event: R.Event)
    | Commit(t: nat)
    | Abort(t: nat)

  /** The requests on the instance, which is number 0. */
  predicate OnInstance(e: R.Event) {
    (e.Complete? || e.Excuse? || e.Review? || e.Cancel? || e.Reverse?) && e.id == 0
  }

  /**
   * When the sweep writes the row: it changes it, and either it selected the copy as
   * overdue or the copy is current, as its bulk update sees to.
   */
  ghost predicate SweepWrites(db: Db, base: nat, e: R.Event)
    requires base < |db.versions|
  {
    && e.NightlySweep?
    && SweepRow(db.versions[base].row, e.active, e.overdueAt, e.missedAt, e.graceHours) != db.versions[base].row
    && (db.versions[base].row.status == Overdue || base == |db.versions| - 1)
  }

  /** What a request works on: the version's row, with the ledger as it is when it writes. */
  function View(v: Version, ledger: seq<Entry>): R.Run {
    R.Run(Store([v.row], ledger, []), map[0 := v.policy])
  }

  predicate Locked(db: Db, t: nat) {
    exists u :: u in db.open && u != t && db.open[u].Written?
  }

  ghost function Staged(db: Db, t: nat, base: nat, e: R.Event): Db
    requires base < |db.versions|
  {
    var seen := View(db.versions[base], db.ledger);
    var out := R.Step(seen, e);
    if R.Handle(seen.store, e).Err? || out.store.rows == [] then db.(open := db.open - {t})
    else db.(open := db.open[t := Written(base, out.store.rows[0], R.PolicyOf(out, 0), out.store.ledger)])
  }

  /** One move; one that is not enabled, or waits for the row, changes nothing. */
  ghost function Step(db: Db, m: Move): Db {
    match m
    case Load(t) =>
      if t in db.open || db.versions == [] then db else db.(open := db.open[t := Loaded(|db.versions| - 1)])
    case Write(t, e) =>
      if t !in db.open || !db.open[t].Loaded? || db.open[t].base >= |db.versions| || Locked(db, t) then db
      else if OnInstance(e) || SweepWrites(db, db.open[t].base, e) then Staged(db, t, db.open[t].base, e)
      else db
    case Commit(t) =>
      if t !in db.open || db.open[t].Loaded? then db.(open := db.open - {t})
      else
        var txn := db.open[t];
        Db(db.versions + [Version(txn.row, txn.policy, txn.base, TaskSum(txn.ledger, 0) - TaskSum(db.ledger, 0))],
           txn.ledger, db.open - {t})
    case Abort(t) => db.(open := db.open - {t})
  }

  ghost function After(db: Db, moves: seq<Move>): Db {
    if moves == [] then db else Step(After(db, moves[..|moves| - 1]), moves[|moves| - 1])
  }

  /** An instance with some history behind it, nobody at work on it. */
  function Standing(row: TaskRow, policy: Policy, ledger: seq<Entry>): Db {
    Db([Version(row, policy, 0, TaskSum(ledger, 0))], ledger, map[])
  }

  // ---------------------------------------------------------------- money by version

  /** What the versions from `from` up to, but not including, `till` paid. */
  function Paid(versions: seq<Version>, from: nat, till: nat): int
    requires from <= till <= |versions|
    decreases till
  {
    if from == till then 0 else Paid(versions, from, till - 1) + versions[till - 1].paid
  }

  ghost predicate Linked(versions: seq<Version>) {
    forall k :: 0 < k < |versions| ==> versions[k].base < k
  }

  /** What was paid by the versions that version `n` overwrote unseen, itself or through the copy it was made from. */
  function Overwritten(versions: seq<Version>, n: nat): int
    requires n < |versions| && Linked(versions)
  {
    if n == 0 then 0
    else Overwritten(versions, versions[n].base) + Paid(versions, versions[n].base + 1, n)
  }

  /** What was paid by version `n` and those its copy descends from. */
  function Kept(versions: seq<Version>, n: nat): int
    requires n < |versions| && Linked(versions)
  {
    if n == 0 then versions[0].paid else Kept(versions, versions[n].base) + versions[n].paid
  }

  lemma {:induction false} PaidSplits(versions: seq<Version>, from: nat, mid: nat, till: nat)
    requires from <= mid <= till <= |versions|
    ensures Paid(versions, from, till) == Paid(versions, from, mid) + Paid(versions, mid, till)
    decreases till
  {
    if mid < till {
      PaidSplits(versions, from, mid, till - 1);
    }
  }

  lemma {:induction false} PaidIsKeptOrOverwritten(versions: seq<Version>, n: nat)
    requires n < |versions| && Linked(versions)
    ensures Paid(versions, 0, n + 1) == Kept(versions, n) + Overwritten(versions, n)
  {
    if n == 0 {
      assert Paid(versions, 0, 0) == 0;
    } else {
      var b := versions[n].base;
      PaidIsKeptOrOverwritten(versions, b);
      PaidSplits(versions, 0, b + 1, n);
    }
  }

  lemma {:induction false} PaidPrefix(a: seq<Version>, b: seq<Version>, from: nat, till: nat)
    requires a <= b && from <= till <= |a|
    ensures Paid(a, from, till) == Paid(b, from, till)
    decreases till
  {
    if from < till {
      PaidPrefix(a, b, from, till - 1);
    }
  }

  lemma {:induction false} KeptPrefix(a: seq<Version>, b: seq<Version>, n: nat)
    requires a <= b && Linked(a) && Linked(b) && n < |a|
    ensures Kept(a, n) == Kept(b, n)
  {
    if n > 0 {
      KeptPrefix(a, b, a[n].base);
    }
  }

  // ---------------------------------------------------------------- invariant

  ghost predicate WrittenFits(db: Db, txn: Txn) {
    txn.base < |db.versions|
    && (txn.Written? ==>
          TaskSum(txn.ledger, 0) - TaskSum(db.ledger, 0)
          == R.Worth(txn.row, txn.policy) - R.Worth(db.versions[txn.base].row, db.versions[txn.base].policy))
  }

  ghost predicate Accounted(db: Db) {
    && db.versions != [] && Linked(db.versions)
    && TaskSum(db.ledger, 0) == Paid(db.versions, 0, |db.versions|)
    && (forall n :: 0 <= n < |db.versions| ==> R.Worth(db.versions[n].row, db.versions[n].policy) == Kept(db.versions, n))
  }

  ghost predicate Inv(db: Db) {
    && Accounted(db)
    && (forall t :: t in db.open ==> WrittenFits(db, db.open[t]))
    && (forall t, u :: t in db.open && u in db.open && db.open[t].Written? && db.open[u].Written? ==> t == u)
  }

  lemma WriteKeeps(db: Db, m: Move)
    requires Inv(db) && m.Write?
    ensures Inv(Step(db, m))
  {
    if m.t in db.open && db.open[m.t].Loaded? {
      var v := db.versions[db.open[m.t].base];
      var seen := View(v, db.ledger);
      RunTheorems.StepPaysTheDifference(seen, m.event, 0);
      assert R.PolicyOf(seen, 0) == v.policy;
    }
  }

  lemma CommitAccounts(db: Db, t: nat)
    requires Inv(db) && t in db.open && db.open[t].Written?
    ensures Accounted(Step(db, Commit(t)))
  {
    var next := Step(db, Commit(t));
    var n := |db.versions|;
    assert Linked(next.versions);
    PaidPrefix(db.versions, next.versions, 0, n);
    forall k | 0 <= k < |next.versions|
      ensures R.Worth(next.versions[k].row, next.versions[k].policy) == Kept(next.versions, k)
    {
      if k < n {
        KeptPrefix(db.versions, next.versions, k);
      } else {
        KeptPrefix(db.versions, next.versions, next.versions[n].base);
      }
    }
  }

  lemma CommitKeeps(db: Db, m: Move)
    requires Inv(db) && m.Commit?
    ensures Inv(Step(db, m))
  {
    if m.t in db.open && db.open[m.t].Written? {
      CommitAccounts(db, m.t);
    }
  }

  lemma StepKeeps(db: Db, m: Move)
    requires Inv(db)
    ensures Inv(Step(db, m))
  {
    match m
    case Write(_, _) => WriteKeeps(db, m);
    case Commit(_) => CommitKeeps(db, m);
    case _ =>
  }

  /** What the instance has been paid is what its status is worth. */
  predicate Agreed(row: TaskRow, policy: Policy, ledger: seq<Entry>) {
    TaskSum(ledger, 0) == R.Worth(row, policy)
  }

  lemma {:induction false} InvForever(row: TaskRow, policy: Policy, ledger: seq<Entry>, moves: seq<Move>)
    requires Agreed(row, policy, ledger)
    ensures Inv(After(Standing(row, policy, ledger), moves))
  {
    if moves == [] {
      assert Paid(Standing(row, policy, ledger).versions, 0, 0) == 0;
    } else {
      InvForever(row, policy, ledger, moves[..|moves| - 1]);
      StepKeeps(After(Standing(row, policy, ledger), moves[..|moves| - 1]), moves[|moves| - 1]);
    }
  }

  // ---------------------------------------------------------------- money and status

  /**
   * Under every interleaving the instance has been paid what its status is worth, plus
   * exactly what was paid by the requests it has overwritten. Money and status agree if and
   * only if those payments cancel out.
   */
  lemma MoneyAndStatusPartBy(row: TaskRow, policy: Policy, ledger: seq<Entry>, moves: seq<Move>)
    requires Agreed(row, policy, ledger)
    ensures var db := After(Standing(row, policy, ledger), moves);
            && db.versions != [] && Linked(db.versions)
            && var n := |db.versions| - 1;
               && TaskSum(db.ledger, 0) - R.Worth(db.versions[n].row, db.versions[n].policy) == Overwritten(db.versions, n)
               && (Agreed(db.versions[n].row, db.versions[n].policy, db.ledger) <==> Overwritten(db.versions, n) == 0)
  {
    InvForever(row, policy, ledger, moves);
    var db := After(Standing(row, policy, ledger), moves);
    PaidIsKeptOrOverwritten(db.versions, |db.versions| - 1);
  }

  /** A request that loaded the version it replaces overwrites nothing; if all did, money and status agree. */
  lemma {:induction false} NothingStaleNothingLost(versions: seq<Version>, n: nat)
    requires n < |versions| && Linked(versions)
    requires forall k :: 0 < k <= n ==> versions[k].base == k - 1
    ensures Overwritten(versions, n) == 0
  {
    if n > 0 {
      NothingStaleNothingLost(versions, n - 1);
    }
  }

  /**
   * The commit that parts them: a request's commit leaves money and status apart exactly
   * when what was committed since it loaded, with what its own copy had already
   * overwritten, was paid a sum other than zero.
   */
  lemma CommitPartsThemIff(row: TaskRow, policy: Policy, ledger: seq<Entry>, moves: seq<Move>, t: nat)
    requires Agreed(row, policy, ledger)
    requires var db := After(Standing(row, policy, ledger), moves); t in db.open && db.open[t].Written?
    ensures var db := After(Standing(row, policy, ledger), moves);
            var n, b := |db.versions|, db.open[t].base;
            && Linked(db.versions) && b < n
            && (!Agreed(db.open[t].row, db.open[t].policy, Step(db, Commit(t)).ledger)
                <==> Overwritten(db.versions, b) + Paid(db.versions, b + 1, n) != 0)
  {
    InvForever(row, policy, ledger, moves);
    ApartAfterCommit(After(Standing(row, policy, ledger), moves), t);
  }

  lemma ApartAfterCommit(db: Db, t: nat)
    requires Accounted(db) && t in db.open && db.open[t].Written? && WrittenFits(db, db.open[t])
    ensures var txn := db.open[t];
            TaskSum(txn.ledger, 0) - R.Worth(txn.row, txn.policy)
            == Overwritten(db.versions, txn.base) + Paid(db.versions, txn.base + 1, |db.versions|)
  {
    var b := db.open[t].base;
    PaidIsKeptOrOverwritten(db.versions, b);
    PaidSplits(db.versions, 0, b + 1, |db.versions|);
  }

  // ---------------------------------------------------------------- what a request makes of a copy

  predicate Open(row: TaskRow) {
    row.status in {Pending, Overdue}
  }

  /** The request passes the guards its service asks. */
  predicate Guards(row: TaskRow, e: R.Event) {
    || (e.Complete? && Open(row))
    || (e.Excuse? && Open(row) && e.excuseLength >= 10)
    || (e.Cancel? && Open(row))
    || (e.Review? && row.status in {ReviewPending, ExcusePending} && (e.approve || e.hasComment))
    || (e.Reverse? && row.status == Complete)
  }

  /** The kind of ledger row the request writes, if any. */
  function Slot(row: TaskRow, e: R.Event): Option<Kind> {
    if e.Complete? && !e.requiresReview then Some(TaskCompleted)
    else if e.Reverse? then Some(Reversal)
    else if e.Review? && e.approve then
      if row.status == ReviewPending || e.policy == PaysFull then Some(TaskCompleted)
      else if e.policy == PaysPartial then Some(ExcusedPartial)
      else None
    else None
  }

  function Amount(row: TaskRow, e: R.Event): int {
    match Slot(row, e)
    case Some(kind) => R.KindDelta(kind, row.pointValue)
    case None => 0
  }

  /** The request goes through: it passes its guards, and the index has room for what it writes. */
  predicate Goes(row: TaskRow, ledger: seq<Entry>, e: R.Event) {
    Guards(row, e) && (Slot(row, e).Some? ==> !HasTask(ledger, 0, Slot(row, e).value))
  }

  function Row(row: TaskRow, ledger: seq<Entry>, e: R.Event): seq<Entry> {
    match Slot(row, e)
    case Some(kind) => [Stamp(ledger, row.assignee, Amount(row, e), kind, Some(0), None)]
    case None => []
  }

  lemma PayOutcome(row: TaskRow, ledger: seq<Entry>, delta: int, kind: Kind)
    ensures PayTask(Store([row], ledger, []), 0, delta, kind)
            == if HasTask(ledger, 0, kind) then Err(DuplicateEntry)
               else Ok(Store([row], ledger + [Stamp(ledger, row.assignee, delta, kind, Some(0), None)], []))
  {
    TakenTask(ledger, Stamp(ledger, row.assignee, delta, kind, Some(0), None), 0);
  }

  /** The outcome of a request on a copy, told before it runs. */
  ghost predicate Outcome(row: TaskRow, ledger: seq<Entry>, e: R.Event) {
    var out := R.Handle(Store([row], ledger, []), e);
    && (out.Ok? <==> Goes(row, ledger, e))
    && (out == Err(DuplicateEntry) <==> Guards(row, e) && !Goes(row, ledger, e))
    && (out.Ok? ==> |out.value.rows| == 1 && out.value.rows[0].pointValue == row.pointValue
                    && out.value.ledger == ledger + Row(row, ledger, e))
  }

  lemma CompletionOutcome(row: TaskRow, ledger: seq<Entry>, e: R.Event)
    requires OnInstance(e) && e.Complete?
    ensures Outcome(row, ledger, e)
  {
    var moved := CompleteRow(row, e.now, e.requiresReview);
    if moved.Ok? {
      PayOutcome(moved.value, ledger, row.pointValue, TaskCompleted);
      assert [row][0 := moved.value] == [moved.value];
    }
  }

  lemma ReviewOutcome(row: TaskRow, ledger: seq<Entry>, e: R.Event)
    requires OnInstance(e) && e.Review? && row.status == ReviewPending
    ensures Outcome(row, ledger, e)
  {
    var moved := ReviewRow(row, e.now, e.approve, e.hasComment);
    if moved.Ok? {
      PayOutcome(moved.value, ledger, row.pointValue, TaskCompleted);
      assert [row][0 := moved.value] == [moved.value];
    }
  }

  lemma ExcuseOutcome(row: TaskRow, ledger: seq<Entry>, e: R.Event)
    requires OnInstance(e) && e.Review? && row.status != ReviewPending
    ensures Outcome(row, ledger, e)
  {
    var moved := ResolveRow(row, e.now, e.approve, e.hasComment, e.graceHours);
    if moved.Ok? {
      PayOutcome(moved.value, ledger, row.pointValue / 2, ExcusedPartial);
      PayOutcome(moved.value, ledger, row.pointValue, TaskCompleted);
      assert [row][0 := moved.value] == [moved.value];
    }
  }

  lemma ReversalOutcome(row: TaskRow, ledger: seq<Entry>, e: R.Event)
    requires OnInstance(e) && e.Reverse?
    ensures Outcome(row, ledger, e)
  {
    var moved := ReverseRow(row, e.now);
    if moved.Ok? {
      PayOutcome(moved.value, ledger, -row.pointValue, Reversal);
      assert [row][0 := moved.value] == [moved.value];
    }
  }

  lemma RequestOutcome(row: TaskRow, ledger: seq<Entry>, e: R.Event)
    requires OnInstance(e)
    ensures Outcome(row, ledger, e)
  {
    if e.Complete? {
      CompletionOutcome(row, ledger, e);
    } else if e.Reverse? {
      ReversalOutcome(row, ledger, e);
    } else if e.Review? && row.status == ReviewPending {
      ReviewOutcome(row, ledger, e);
    } else if e.Review? {
      ExcuseOutcome(row, ledger, e);
    }
  }

  // ---------------------------------------------------------------- one completion row

  /** The index holds, and every completion row carries the point value. */
  ghost predicate Slotted(points: int, ledger: seq<Entry>) {
    && Unique(ledger)
    && forall k :: 0 <= k < |ledger| && ledger[k].task == Some(0) && ledger[k].kind == TaskCompleted ==> ledger[k].delta == points
  }

  lemma RowKeepsSlots(row: TaskRow, ledger: seq<Entry>, e: R.Event)
    requires Slotted(row.pointValue, ledger) && Goes(row, ledger, e)
    ensures Slotted(row.pointValue, ledger + Row(row, ledger, e))
  {
    if Slot(row, e).Some? {
      var entry := Row(row, ledger, e)[0];
      TakenTask(ledger, entry, 0);
      var out := ledger + [entry];
      forall j, k | 0 <= j < k < |out|
        ensures !Clash(out[j], out[k])
      {
        assert k < |ledger| ==> !Clash(ledger[j], ledger[k]);
      }
    } else {
      assert ledger + [] == ledger;
    }
  }

  ghost predicate SlotInv(points: int, db: Db) {
    && Slotted(points, db.ledger)
    && (forall k :: 0 <= k < |db.versions| ==> db.versions[k].row.pointValue == points)
    && (forall t :: t in db.open && db.open[t].Written? ==>
          db.open[t].row.pointValue == points && Slotted(points, db.open[t].ledger))
  }

  lemma StepKeepsSlots(points: int, db: Db, m: Move)
    requires SlotInv(points, db)
    ensures SlotInv(points, Step(db, m))
  {
    if m.Write? && m.t in db.open && db.open[m.t].Loaded? && db.open[m.t].base < |db.versions| {
      var row := db.versions[db.open[m.t].base].row;
      if OnInstance(m.event) {
        RequestOutcome(row, db.ledger, m.event);
        if Goes(row, db.ledger, m.event) {
          RowKeepsSlots(row, db.ledger, m.event);
        }
      }
    }
  }

  lemma {:induction false} SlotsHoldForever(row: TaskRow, policy: Policy, ledger: seq<Entry>, moves: seq<Move>)
    requires Slotted(row.pointValue, ledger)
    ensures SlotInv(row.pointValue, After(Standing(row, policy, ledger), moves))
  {
    if moves != [] {
      SlotsHoldForever(row, policy, ledger, moves[..|moves| - 1]);
      StepKeepsSlots(row.pointValue, After(Standing(row, policy, ledger), moves[..|moves| - 1]), moves[|moves| - 1]);
    }
  }

  /** Under every interleaving the instance's completion is paid its point value once, or not at all. */
  lemma CompletionIsPaidOnce(row: TaskRow, policy: Policy, ledger: seq<Entry>, moves: seq<Move>)
    requires Slotted(row.pointValue, ledger)
    ensures var l := After(Standing(row, policy, ledger), moves).ledger;
            Interleaving.SlotSum(l, 0, TaskCompleted) == if HasTask(l, 0, TaskCompleted) then row.pointValue else 0
  {
    SlotsHoldForever(row, policy, ledger, moves);
    var l := After(Standing(row, policy, ledger), moves).ledger;
    if HasTask(l, 0, TaskCompleted) {
      var k: nat :| k < |l| && l[k].task == Some(0) && l[k].kind == TaskCompleted;
      Interleaving.SlotCountsOnce(l, 0, TaskCompleted, k);
    } else {
      Interleaving.EmptySlot(l, 0, TaskCompleted);
    }
  }

  // ---------------------------------------------------------------- versions and the table

  /** One write's change: none, a table row, or the sweep's two in one. */
  ghost predicate Follows(from: Status, to: Status) {
    from == to || Edge(from, to) || (from == Pending && to == Missed)
  }

  /** The writer's copy was not terminal, and what it wrote follows the table from that copy. */
  ghost predicate FromCopy(versions: seq<Version>, base: nat, row: TaskRow) {
    base < |versions| && !Terminal(versions[base].row.status) && Follows(versions[base].row.status, row.status)
  }

  ghost predicate TableInv(db: Db) {
    && (forall k :: 0 < k < |db.versions| ==> db.versions[k].base < k && FromCopy(db.versions, db.versions[k].base, db.versions[k].row))
    && (forall t :: t in db.open && db.open[t].Written? ==> FromCopy(db.versions, db.open[t].base, db.open[t].row))
  }

  lemma RequestFollows(v: Version, ledger: seq<Entry>, e: R.Event)
    requires OnInstance(e) && R.Handle(View(v, ledger).store, e).Ok?
    ensures var out := R.Step(View(v, ledger), e);
            out.store.rows != [] && !Terminal(v.row.status) && Follows(v.row.status, out.store.rows[0].status)
  {
    var seen := View(v, ledger);
    RequestOutcome(v.row, ledger, e);
    RunTheorems.RequestIsOneAction(seen, e, 0);
    WriteIsAnEdge(v.row, RunTheorems.ActionOf(e, v.row));
  }

  lemma SweepFollows(v: Version, ledger: seq<Entry>, e: R.Event)
    requires e.NightlySweep? && SweepRow(v.row, e.active, e.overdueAt, e.missedAt, e.graceHours) != v.row
    ensures var out := R.Step(View(v, ledger), e);
            out.store.rows != [] && !Terminal(v.row.status) && Follows(v.row.status, out.store.rows[0].status)
  {
    assert Next(Pending, DuePasses) == Some(Overdue) && Next(Overdue, GraceExpires) == Some(Missed);
  }

  lemma WriteKeepsTable(db: Db, m: Move)
    requires TableInv(db) && m.Write?
    ensures TableInv(Step(db, m))
  {
    if m.t in db.open && db.open[m.t].Loaded? && db.open[m.t].base < |db.versions| {
      var v := db.versions[db.open[m.t].base];
      if OnInstance(m.event) {
        if R.Handle(View(v, db.ledger).store, m.event).Ok? {
          RequestFollows(v, db.ledger, m.event);
        }
      } else if SweepWrites(db, db.open[m.t].base, m.event) {
        SweepFollows(v, db.ledger, m.event);
      }
    }
  }

  lemma StepKeepsTable(db: Db, m: Move)
    requires TableInv(db)
    ensures TableInv(Step(db, m))
  {
    match m
    case Write(_, _) => WriteKeepsTable(db, m);
    case _ =>
  }

  lemma {:induction false} TableHoldsForever(row: TaskRow, policy: Policy, ledger: seq<Entry>, moves: seq<Move>)
    ensures TableInv(After(Standing(row, policy, ledger), moves))
  {
    if moves != [] {
      TableHoldsForever(row, policy, ledger, moves[..|moves| - 1]);
      StepKeepsTable(After(Standing(row, policy, ledger), moves[..|moves| - 1]), moves[|moves| - 1]);
    }
  }

  /**
   * Under interleaving the table binds a version to the copy it was made from, and not to
   * the version it replaces. A terminal version is replaced only by a writer whose copy was
   * an earlier one, not terminal; one that loaded what it replaces keeps to the table.
   */
  lemma TableBindsTheCopy(row: TaskRow, policy: Policy, ledger: seq<Entry>, moves: seq<Move>, k: nat)
    requires 0 < k < |After(Standing(row, policy, ledger), moves).versions|
    ensures var versions := After(Standing(row, policy, ledger), moves).versions;
            var b := versions[k].base;
            && b < k && !Terminal(versions[b].row.status)
            && Follows(versions[b].row.status, versions[k].row.status)
            && (Terminal(versions[k - 1].row.status) ==> b < k - 1)
            && (b == k - 1 ==> Follows(versions[k - 1].row.status, versions[k].row.status))
  {
    TableHoldsForever(row, policy, ledger, moves);
    var versions := After(Standing(row, policy, ledger), moves).versions;
    assert FromCopy(versions, versions[k].base, versions[k].row);
  }
}
