/** Two requests that load one instance together, and then write and commit in turn. */
module Races {
  import opened Domain
  import opened StateMachine
  import opened Ledger
  import opened Points
  import opened Overlap
  import R = Runs
  import RunTheorems

  function Race(first: R.Event, second: R.Event): seq<Move> {
    [Load(1), Load(2), Write(1, first), Commit(1), Write(2, second), Commit(2)]
  }

  /** A write that does not wait, and its commit. */
  ghost function Settled(db: Db, t: nat, e: R.Event): Db {
    Step(Step(db, Write(t, e)), Commit(t))
  }

  ghost predicate Ready(db: Db, t: nat, base: nat) {
    && t in db.open && db.open[t] == Loaded(base) && base < |db.versions|
    && (forall u :: u in db.open ==> db.open[u].Loaded?)
  }

  /** A request that goes through ends the instance: cancelled, excused, or denied without grace. */
  predicate Ends(row: TaskRow, e: R.Event) {
    || e.Cancel?
    || (e.Reverse? && row.dueAt <= e.now)
    || (e.Review? && row.status == ExcusePending
        && (e.approve || GraceRemaining(ResumeGrace(row), e.graceHours, e.now) <= 0))
  }

  // ---------------------------------------------------------------- one request

  lemma RefusedChangesNothing(db: Db, t: nat, base: nat, e: R.Event)
    requires Ready(db, t, base) && OnInstance(e) && !Goes(db.versions[base].row, db.ledger, e)
    ensures Settled(db, t, e) == db.(open := db.open - {t})
  {
    RequestOutcome(db.versions[base].row, db.ledger, e);
    assert Step(db, Write(t, e)) == Staged(db, t, base, e);
    assert db.open - {t} - {t} == db.open - {t};
  }

  lemma WrittenByRequest(db: Db, t: nat, base: nat, e: R.Event)
    requires Ready(db, t, base) && OnInstance(e) && Goes(db.versions[base].row, db.ledger, e)
    ensures var out := R.Step(View(db.versions[base], db.ledger), e);
            && |out.store.rows| == 1
            && out.store.ledger == db.ledger + Row(db.versions[base].row, db.ledger, e)
            && Step(db, Write(t, e))
               == db.(open := db.open[t := Written(base, out.store.rows[0], R.PolicyOf(out, 0), out.store.ledger)])
  {
    RequestOutcome(db.versions[base].row, db.ledger, e);
    assert Step(db, Write(t, e)) == Staged(db, t, base, e);
  }

  lemma EndsIff(v: Version, ledger: seq<Entry>, e: R.Event)
    requires OnInstance(e) && Goes(v.row, ledger, e)
    ensures var out := R.Step(View(v, ledger), e);
            out.store.rows != [] && (Terminal(out.store.rows[0].status) <==> Ends(v.row, e))
  {
    RequestOutcome(v.row, ledger, e);
    RunTheorems.RequestIsOneAction(View(v, ledger), e, 0);
    GoingChangesTheRow(v, ledger, e);
  }

  lemma GoingChangesTheRow(v: Version, ledger: seq<Entry>, e: R.Event)
    requires OnInstance(e) && Goes(v.row, ledger, e)
    ensures !RunTheorems.Untouched(View(v, ledger), e, 0)
  {
    RequestOutcome(v.row, ledger, e);
    if e.Complete? {
      RunTheorems.CompletionRows(Store([v.row], ledger, []), 0, e.now, e.requiresReview);
    }
  }

  lemma RowSums(row: TaskRow, ledger: seq<Entry>, e: R.Event)
    ensures var l := ledger + Row(row, ledger, e);
            && TaskSum(l, 0) == TaskSum(ledger, 0) + Amount(row, e)
            && forall kind :: HasTask(l, 0, kind) <==> HasTask(ledger, 0, kind) || Slot(row, e) == Some(kind)
  {
    if Slot(row, e).Some? {
      Appended(ledger, Row(row, ledger, e)[0]);
    } else {
      assert ledger + [] == ledger;
    }
  }

  lemma WorthMoves(v: Version, ledger: seq<Entry>, e: R.Event)
    requires OnInstance(e) && Goes(v.row, ledger, e)
    ensures var out := R.Step(View(v, ledger), e);
            out.store.rows != []
            && R.Worth(out.store.rows[0], R.PolicyOf(out, 0)) == R.Worth(v.row, v.policy) + Amount(v.row, e)
  {
    RequestOutcome(v.row, ledger, e);
    RowSums(v.row, ledger, e);
    RunTheorems.StepPaysTheDifference(View(v, ledger), e, 0);
    assert R.PolicyOf(View(v, ledger), 0) == v.policy;
  }

  /** What the commit of a request that goes through adds. */
  ghost predicate Added(db: Db, next: Db, t: nat, v: Version, e: R.Event) {
    && next.open == db.open - {t}
    && |next.versions| == |db.versions| + 1 && db.versions <= next.versions
    && next.ledger == db.ledger + Row(v.row, db.ledger, e)
    && var last := next.versions[|db.versions|];
       && R.Worth(last.row, last.policy) == R.Worth(v.row, v.policy) + Amount(v.row, e)
       && (Terminal(last.row.status) <==> Ends(v.row, e))
  }

  lemma GoingIsCommitted(db: Db, t: nat, base: nat, e: R.Event)
    requires Ready(db, t, base) && OnInstance(e) && Goes(db.versions[base].row, db.ledger, e)
    ensures Added(db, Settled(db, t, e), t, db.versions[base], e)
  {
    var v := db.versions[base];
    WrittenByRequest(db, t, base, e);
    WorthMoves(v, db.ledger, e);
    EndsIff(v, db.ledger, e);
    var out := R.Step(View(v, db.ledger), e);
    assert db.open[t := Written(base, out.store.rows[0], R.PolicyOf(out, 0), out.store.ledger)] - {t} == db.open - {t};
  }

  /**
   * With nobody else at work, to load, write and commit is to run the request on the
   * instance as it stands: it adds the version and the entries the transaction would.
   */
  lemma LoneRequestRuns(db: Db, t: nat, e: R.Event)
    requires db.versions != [] && t !in db.open && OnInstance(e)
    requires forall u :: u in db.open ==> db.open[u].Loaded?
    ensures var v := db.versions[|db.versions| - 1];
            var next := Settled(Step(db, Load(t)), t, e);
            && (Goes(v.row, db.ledger, e) ==>
                  && |next.versions| == |db.versions| + 1 && db.versions <= next.versions
                  && next.versions[|db.versions|].row == RunTheorems.RequestRow(v.row, e)
                  && next.ledger == db.ledger + Row(v.row, db.ledger, e))
            && (!Goes(v.row, db.ledger, e) ==> next.versions == db.versions && next.ledger == db.ledger)
  {
    var loaded, n := Step(db, Load(t)), |db.versions|;
    if Goes(db.versions[n - 1].row, db.ledger, e) {
      WrittenByRequest(loaded, t, n - 1, e);
      GoingIsCommitted(loaded, t, n - 1, e);
      GoingPlaysTheAction(db.versions[n - 1], db.ledger, e);
    } else {
      RefusedChangesNothing(loaded, t, n - 1, e);
    }
  }

  lemma GoingPlaysTheAction(v: Version, ledger: seq<Entry>, e: R.Event)
    requires OnInstance(e) && Goes(v.row, ledger, e)
    ensures var out := R.Step(View(v, ledger), e);
            out.store.rows != [] && out.store.rows[0] == RunTheorems.RequestRow(v.row, e)
  {
    RequestOutcome(v.row, ledger, e);
    RunTheorems.RequestIsOneAction(View(v, ledger), e, 0);
    GoingChangesTheRow(v, ledger, e);
  }

  // ---------------------------------------------------------------- two requests

  /** The instance once both requests have loaded it. */
  function BothLoaded(row: TaskRow, policy: Policy, ledger: seq<Entry>): Db {
    Standing(row, policy, ledger).(open := map[1 := Loaded(0), 2 := Loaded(0)])
  }

  ghost function Raced(row: TaskRow, policy: Policy, ledger: seq<Entry>, first: R.Event, second: R.Event): Db {
    After(Standing(row, policy, ledger), Race(first, second))
  }

  lemma MoveStep(db: Db, moves: seq<Move>, n: nat)
    requires n < |moves|
    ensures After(db, moves[..n + 1]) == Step(After(db, moves[..n]), moves[n])
  {
    assert moves[..n + 1][..n] == moves[..n];
  }

  lemma TwoMoves(db: Db, moves: seq<Move>, n: nat, t: nat, e: R.Event)
    requires n + 1 < |moves| && moves[n] == Write(t, e) && moves[n + 1] == Commit(t)
    ensures After(db, moves[..n + 2]) == Settled(After(db, moves[..n]), t, e)
  {
    MoveStep(db, moves, n);
    MoveStep(db, moves, n + 1);
  }

  lemma FirstFourMoves(row: TaskRow, policy: Policy, ledger: seq<Entry>, first: R.Event, second: R.Event)
    ensures After(Standing(row, policy, ledger), Race(first, second)[..4]) == Settled(BothLoaded(row, policy, ledger), 1, first)
  {
    BothLoad(row, policy, ledger, first, second);
    TwoMoves(Standing(row, policy, ledger), Race(first, second), 2, 1, first);
  }

  lemma RaceInSteps(row: TaskRow, policy: Policy, ledger: seq<Entry>, first: R.Event, second: R.Event)
    ensures Raced(row, policy, ledger, first, second) == Settled(Settled(BothLoaded(row, policy, ledger), 1, first), 2, second)
  {
    FirstFourMoves(row, policy, ledger, first, second);
    TwoMoves(Standing(row, policy, ledger), Race(first, second), 4, 2, second);
    assert Race(first, second)[..6] == Race(first, second);
  }

  lemma BothLoad(row: TaskRow, policy: Policy, ledger: seq<Entry>, first: R.Event, second: R.Event)
    ensures After(Standing(row, policy, ledger), Race(first, second)[..2]) == BothLoaded(row, policy, ledger)
  {
    var m, db := Race(first, second), Standing(row, policy, ledger);
    MoveStep(db, m, 0);
    MoveStep(db, m, 1);
    assert m[..0] == [];
  }

  /** Both requests go through: each has room in the index, and they do not write the same kind of row. */
  predicate BothGo(row: TaskRow, ledger: seq<Entry>, first: R.Event, second: R.Event) {
    && Goes(row, ledger, first) && Goes(row, ledger, second)
    && (Slot(row, first) == None || Slot(row, second) != Slot(row, first))
  }

  ghost predicate Apart(db: Db)
    requires db.versions != []
  {
    var last := db.versions[|db.versions| - 1];
    !Agreed(last.row, last.policy, db.ledger)
  }

  /** The instance between the two commits. */
  ghost predicate Half(half: Db, row: TaskRow, policy: Policy, ledger: seq<Entry>, first: R.Event) {
    && Ready(half, 2, 0) && half.versions[0].row == row && half.versions[0].policy == policy
    && !Apart(half)
    && if Goes(row, ledger, first) then
         && |half.versions| == 2 && half.ledger == ledger + Row(row, ledger, first)
         && (Terminal(half.versions[1].row.status) <==> Ends(row, first))
       else |half.versions| == 1 && half.ledger == ledger
  }

  lemma FirstGoes(row: TaskRow, policy: Policy, ledger: seq<Entry>, first: R.Event)
    requires Agreed(row, policy, ledger) && OnInstance(first) && Goes(row, ledger, first)
    ensures Half(Settled(BothLoaded(row, policy, ledger), 1, first), row, policy, ledger, first)
  {
    var db := BothLoaded(row, policy, ledger);
    RowSums(row, ledger, first);
    GoingIsCommitted(db, 1, 0, first);
    HalfOfAdded(db, Settled(db, 1, first), row, policy, ledger, first);
  }

  lemma HalfOfAdded(db: Db, half: Db, row: TaskRow, policy: Policy, ledger: seq<Entry>, first: R.Event)
    requires db == BothLoaded(row, policy, ledger) && Added(db, half, 1, db.versions[0], first)
    requires Agreed(row, policy, ledger) && Goes(row, ledger, first)
    requires TaskSum(half.ledger, 0) == TaskSum(ledger, 0) + Amount(row, first)
    ensures Half(half, row, policy, ledger, first)
  {
  }

  lemma FirstRefused(row: TaskRow, policy: Policy, ledger: seq<Entry>, first: R.Event)
    requires Agreed(row, policy, ledger) && OnInstance(first) && !Goes(row, ledger, first)
    ensures Half(Settled(BothLoaded(row, policy, ledger), 1, first), row, policy, ledger, first)
  {
    RefusedChangesNothing(BothLoaded(row, policy, ledger), 1, 0, first);
  }

  lemma AfterFirst(row: TaskRow, policy: Policy, ledger: seq<Entry>, first: R.Event)
    requires Agreed(row, policy, ledger) && OnInstance(first)
    ensures Half(Settled(BothLoaded(row, policy, ledger), 1, first), row, policy, ledger, first)
  {
    if Goes(row, ledger, first) {
      FirstGoes(row, policy, ledger, first);
    } else {
      FirstRefused(row, policy, ledger, first);
    }
  }

  lemma SecondGoesIff(half: Db, row: TaskRow, policy: Policy, ledger: seq<Entry>, first: R.Event, second: R.Event)
    requires Half(half, row, policy, ledger, first)
    ensures Goes(row, half.ledger, second)
            <==> Goes(row, ledger, second) && (Goes(row, ledger, first) ==> BothGo(row, ledger, first, second))
  {
    RowSums(row, ledger, first);
  }

  lemma SecondGoes(half: Db, row: TaskRow, policy: Policy, ledger: seq<Entry>, first: R.Event, second: R.Event)
    requires Half(half, row, policy, ledger, first) && Agreed(row, policy, ledger) && OnInstance(second)
    requires Goes(row, half.ledger, second)
    ensures var db := Settled(half, 2, second);
            && half.versions <= db.versions && |db.versions| == |half.versions| + 1
            && (Apart(db) <==> Goes(row, ledger, first) && Amount(row, first) != 0)
  {
    RowSums(row, ledger, first);
    RowSums(row, half.ledger, second);
    GoingIsCommitted(half, 2, 0, second);
  }

  lemma SecondRefused(half: Db, row: TaskRow, policy: Policy, ledger: seq<Entry>, first: R.Event, second: R.Event)
    requires Half(half, row, policy, ledger, first) && OnInstance(second)
    requires !Goes(row, half.ledger, second)
    ensures var db := Settled(half, 2, second);
            db.versions == half.versions && db.versions != [] && !Apart(db)
  {
    RefusedChangesNothing(half, 2, 0, second);
  }

  lemma SecondDecides(half: Db, row: TaskRow, policy: Policy, ledger: seq<Entry>, first: R.Event, second: R.Event)
    requires Half(half, row, policy, ledger, first) && Agreed(row, policy, ledger) && OnInstance(second)
    ensures var db := Settled(half, 2, second);
            && db.versions != [] && half.versions <= db.versions
            && (Apart(db) <==> BothGo(row, ledger, first, second) && Amount(row, first) != 0)
            && (|db.versions| == 3 <==> BothGo(row, ledger, first, second))
  {
    SecondGoesIff(half, row, policy, ledger, first, second);
    if Goes(row, half.ledger, second) {
      SecondGoes(half, row, policy, ledger, first, second);
    } else {
      SecondRefused(half, row, policy, ledger, first, second);
    }
  }

  /**
   * The race of any two requests on any instance, decided before it starts: money and status
   * end apart exactly when both go through on the copy they loaded, with different kinds of
   * ledger row if the first writes one, and the first pays a sum other than zero.
   */
  lemma RacePartsThemIff(row: TaskRow, policy: Policy, ledger: seq<Entry>, first: R.Event, second: R.Event)
    requires Agreed(row, policy, ledger) && OnInstance(first) && OnInstance(second)
    ensures Raced(row, policy, ledger, first, second).versions != []
    ensures Apart(Raced(row, policy, ledger, first, second))
            <==> BothGo(row, ledger, first, second) && Amount(row, first) != 0
  {
    RaceInSteps(row, policy, ledger, first, second);
    AfterFirst(row, policy, ledger, first);
    SecondDecides(Settled(BothLoaded(row, policy, ledger), 1, first), row, policy, ledger, first, second);
  }

  /** The race leaves a terminal status behind exactly when both go through and the first ends the instance. */
  lemma RaceRevivesIff(row: TaskRow, policy: Policy, ledger: seq<Entry>, first: R.Event, second: R.Event)
    requires Agreed(row, policy, ledger) && OnInstance(first) && OnInstance(second)
    ensures var versions := Raced(row, policy, ledger, first, second).versions;
            (|versions| == 3 && Terminal(versions[1].row.status)) <==> BothGo(row, ledger, first, second) && Ends(row, first)
  {
    RaceInSteps(row, policy, ledger, first, second);
    AfterFirst(row, policy, ledger, first);
    var half := Settled(BothLoaded(row, policy, ledger), 1, first);
    SecondDecides(half, row, policy, ledger, first, second);
    var db := Settled(half, 2, second);
    assert |half.versions| == 2 ==> half.versions[1] == db.versions[1];
  }

  /** On an open instance: the first completes it at once, and the second submits it for review, excuses or cancels it. */
  lemma OpenRacePartsThemIff(row: TaskRow, first: R.Event, second: R.Event)
    requires Fresh(row) && OnInstance(first) && OnInstance(second)
    ensures Raced(row, PaysNothing, [], first, second).versions != []
    ensures Apart(Raced(row, PaysNothing, [], first, second))
            <==> && first.Complete? && !first.requiresReview && row.pointValue != 0
                 && Guards(row, second) && !(second.Complete? && !second.requiresReview)
  {
    RacePartsThemIff(row, PaysNothing, [], first, second);
  }

  /**
   * On an instance waiting for review, answered twice: the first approves it, and the second
   * denies it with a comment.
   */
  lemma WaitingRacePartsThemIff(row: TaskRow, policy: Policy, ledger: seq<Entry>, first: R.Event, second: R.Event)
    requires row.status == ReviewPending && Agreed(row, policy, ledger)
    requires OnInstance(first) && OnInstance(second)
    ensures Raced(row, policy, ledger, first, second).versions != []
    ensures Apart(Raced(row, policy, ledger, first, second))
            <==> && first.Review? && first.approve && row.pointValue != 0 && !HasTask(ledger, 0, TaskCompleted)
                 && second.Review? && !second.approve && second.hasComment
  {
    RacePartsThemIff(row, policy, ledger, first, second);
  }

  /** The concrete race: completed, and cancelled by a parent who loaded it before; ten points are kept for a cancelled task. */
  lemma CancelledButPaid()
    ensures var row := TaskRow(0, 0, None, 0, 10, Pending, None, None, None, 0);
            var first, second := R.Event.Complete(0, 1, false), R.Event.Cancel(0, 2);
            var db := Raced(row, PaysNothing, [], first, second);
            && |db.versions| == 3 && Apart(db) && Terminal(db.versions[2].row.status) && TaskSum(db.ledger, 0) == 10
  {
    var row := TaskRow(0, 0, None, 0, 10, Pending, None, None, None, 0);
    var first, second := R.Event.Complete(0, 1, false), R.Event.Cancel(0, 2);
    TwoCommits(row, PaysNothing, [], first, second);
    RacePartsThemIff(row, PaysNothing, [], first, second);
  }

  /** What two requests that both go through leave. */
  lemma TwoCommits(row: TaskRow, policy: Policy, ledger: seq<Entry>, first: R.Event, second: R.Event)
    requires Agreed(row, policy, ledger) && OnInstance(first) && OnInstance(second) && BothGo(row, ledger, first, second)
    ensures var db := Raced(row, policy, ledger, first, second);
            && |db.versions| == 3
            && TaskSum(db.ledger, 0) == TaskSum(ledger, 0) + Amount(row, first) + Amount(row, second)
            && (Terminal(db.versions[2].row.status) <==> Ends(row, second))
            && R.Worth(db.versions[2].row, db.versions[2].policy) == R.Worth(row, policy) + Amount(row, second)
  {
    RaceInSteps(row, policy, ledger, first, second);
    AfterFirst(row, policy, ledger, first);
    var half := Settled(BothLoaded(row, policy, ledger), 1, first);
    SecondGoesIff(half, row, policy, ledger, first, second);
    RowSums(row, ledger, first);
    RowSums(row, half.ledger, second);
    GoingIsCommitted(half, 2, 0, second);
  }

  /** Two parents answer one review: the approval is paid, and the denial it did not see takes the status back. */
  lemma DeniedButPaid()
    ensures var row := TaskRow(0, 0, None, 0, 10, ReviewPending, Some(-1), None, None, 0);
            var first, second := R.Review(0, 1, true, false, PaysNothing, 24), R.Review(0, 2, false, true, PaysNothing, 24);
            var db := Raced(row, PaysNothing, [], first, second);
            && |db.versions| == 3 && Apart(db)
            && R.Worth(db.versions[2].row, db.versions[2].policy) == 0 && TaskSum(db.ledger, 0) == 10
  {
    var row := TaskRow(0, 0, None, 0, 10, ReviewPending, Some(-1), None, None, 0);
    var first, second := R.Review(0, 1, true, false, PaysNothing, 24), R.Review(0, 2, false, true, PaysNothing, 24);
    TwoCommits(row, PaysNothing, [], first, second);
    RacePartsThemIff(row, PaysNothing, [], first, second);
  }

  /** A cancelled task comes back complete, paid as it should be: the cancellation is lost. */
  lemma CancelledThenComplete()
    ensures var row := TaskRow(0, 0, None, 0, 10, Pending, None, None, None, 0);
            var first, second := R.Event.Cancel(0, 1), R.Event.Complete(0, 2, false);
            var db := Raced(row, PaysNothing, [], first, second);
            && |db.versions| == 3 && Terminal(db.versions[1].row.status) && !Terminal(db.versions[2].row.status)
            && !Apart(db) && TaskSum(db.ledger, 0) == 10
  {
    var row := TaskRow(0, 0, None, 0, 10, Pending, None, None, None, 0);
    var first, second := R.Event.Cancel(0, 1), R.Event.Complete(0, 2, false);
    TwoCommits(row, PaysNothing, [], first, second);
    RacePartsThemIff(row, PaysNothing, [], first, second);
    RaceRevivesIff(row, PaysNothing, [], first, second);
  }
}
