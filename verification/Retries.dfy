/**
 * Overlapping retries of one completion. Each loads the instance, looks its key up, runs
 * the handler on a miss, sets the key and ends its transaction; the steps of any number of
 * retries, and of other requests on the instance, interleave freely, the key may expire
 * and commits may fail.
 */
module Retries {
  import opened Domain
  import opened Ledger
  import O = Overlap
  import R = Runs
  import Races
  import Interleaving

  datatype Phase =
    | Looking
    | Missing
    | Handled(response: TaskRow)
    | Cached(response: TaskRow)
    | Answered(reply: Result<TaskRow>)

  datatype World = World(db: O.Db, key: Option<TaskRow>, retries: map<nat, Phase>)

  datatype Tick =
    | Begin(t: nat)
    | Get(t: nat)
    | Run(t: nat, now: int)
    | Set(t: nat)
    | Finish(t: nat, commits: bool)
    | Expire
    | Other(move: O.Move)

  /** The handler on a miss; it waits while the row is locked. */
  ghost function Handle(w: World, t: nat, now: int, requiresReview: bool): World {
    if O.Locked(w.db, t) || t !in w.db.open || !w.db.open[t].Loaded? || w.db.open[t].base >= |w.db.versions| then w
    else
      var e := R.Event.Complete(0, now, requiresReview);
      var db := O.Step(w.db, O.Write(t, e));
      var reply := R.Handle(O.View(w.db.versions[w.db.open[t].base], w.db.ledger).store, e);
      if t in db.open && db.open[t].Written? then World(db, w.key, w.retries[t := Handled(db.open[t].row)])
      else World(db, w.key, w.retries[t := Answered(Err(if reply.Err? then reply.why else NotFound))])
  }

  ghost function Step(w: World, k: Tick, requiresReview: bool): World {
    match k
    case Begin(t) =>
      if t in w.retries || t in w.db.open then w
      else World(O.Step(w.db, O.Load(t)), w.key, w.retries[t := Looking])
    case Get(t) =>
      if t !in w.retries || w.retries[t] != Looking then w
      else if w.key.Some? then World(O.Step(w.db, O.Abort(t)), w.key, w.retries[t := Answered(Ok(w.key.value))])
      else w.(retries := w.retries[t := Missing])
    case Run(t, now) =>
      if t !in w.retries || w.retries[t] != Missing then w else Handle(w, t, now, requiresReview)
    case Set(t) =>
      if t !in w.retries || !w.retries[t].Handled? then w
      else
        var response := w.retries[t].response;
        World(w.db, if w.key.Some? then w.key else Some(response), w.retries[t := Cached(response)])
    case Finish(t, commits) =>
      if t !in w.retries || !w.retries[t].Cached? then w
      else World(O.Step(w.db, if commits then O.Commit(t) else O.Abort(t)), w.key, w.retries[t := Answered(Ok(w.retries[t].response))])
    case Expire => w.(key := None)
    case Other(move) => if move.t in w.retries then w else w.(db := O.Step(w.db, move))
  }

  ghost function After(w: World, ticks: seq<Tick>, requiresReview: bool): World {
    if ticks == [] then w else Step(After(w, ticks[..|ticks| - 1], requiresReview), ticks[|ticks| - 1], requiresReview)
  }

  function Start(row: TaskRow, policy: Policy, ledger: seq<Entry>): World {
    World(O.Standing(row, policy, ledger), None, map[])
  }

  // ---------------------------------------------------------------- refinement

  /** A tick makes at most one move on the database. */
  lemma TickIsAMove(w: World, k: Tick, requiresReview: bool) returns (moves: seq<O.Move>)
    ensures |moves| <= 1
    ensures Step(w, k, requiresReview).db == if moves == [] then w.db else O.Step(w.db, moves[0])
  {
    var made := match k
      case Begin(t) => [O.Load(t)]
      case Get(t) => [O.Abort(t)]
      case Run(t, now) => [O.Write(t, R.Event.Complete(0, now, requiresReview))]
      case Finish(t, commits) => [if commits then O.Commit(t) else O.Abort(t)]
      case Other(move) => [move]
      case _ => [];
    moves := if Step(w, k, requiresReview).db == w.db then [] else made;
  }

  /** So whatever holds under every interleaving of moves holds of retries too, whatever the cache does. */
  lemma {:induction false} RetriesAreMoves(
    row: TaskRow, policy: Policy, ledger: seq<Entry>, ticks: seq<Tick>, requiresReview: bool)
    returns (moves: seq<O.Move>)
    ensures After(Start(row, policy, ledger), ticks, requiresReview).db == O.After(O.Standing(row, policy, ledger), moves)
  {
    moves := [];
    if ticks != [] {
      var n := |ticks| - 1;
      var before := RetriesAreMoves(row, policy, ledger, ticks[..n], requiresReview);
      var last := TickIsAMove(After(Start(row, policy, ledger), ticks[..n], requiresReview), ticks[n], requiresReview);
      moves := before + last;
      if last == [] {
        assert moves == before;
      } else {
        assert moves[..|moves| - 1] == before;
      }
    }
  }

  // ---------------------------------------------------------------- one completion

  /**
   * However retries overlap, with each other and with anything else that happens to the
   * instance, and whatever becomes of the key and the commits, its completion is paid its
   * point value once, or not at all.
   */
  lemma RetriesCompleteOnce(row: TaskRow, policy: Policy, ledger: seq<Entry>, ticks: seq<Tick>, requiresReview: bool)
    requires O.Slotted(row.pointValue, ledger)
    ensures var l := After(Start(row, policy, ledger), ticks, requiresReview).db.ledger;
            Interleaving.SlotSum(l, 0, TaskCompleted) == if HasTask(l, 0, TaskCompleted) then row.pointValue else 0
  {
    var moves := RetriesAreMoves(row, policy, ledger, ticks, requiresReview);
    O.CompletionIsPaidOnce(row, policy, ledger, moves);
  }

  /** It missed the key, and its turn to run has come. */
  ghost predicate InTurn(w: World, t: nat) {
    && t in w.retries && w.retries[t] == Missing
    && t in w.db.open && w.db.open[t].Loaded? && w.db.open[t].base < |w.db.versions| && !O.Locked(w.db, t)
  }

  /**
   * A retry is documented to get the first answer rather than the duplicate error. It does
   * if it finds the key. If it missed, it meets the duplicate error exactly when it is to
   * pay at once, it loaded the instance open, and by its turn the completion has been paid.
   */
  lemma RetryMeetsDuplicateIff(w: World, t: nat, now: int, requiresReview: bool)
    requires InTurn(w, t)
    ensures var next := Step(w, Run(t, now), requiresReview);
            && t in next.retries
            && (next.retries[t] == Answered(Err(DuplicateEntry))
                <==> && !requiresReview && O.Open(w.db.versions[w.db.open[t].base].row)
                     && HasTask(w.db.ledger, 0, TaskCompleted))
  {
    Replies(w, t, now, requiresReview);
  }

  /** A retry that finds the key is answered with the response that was set, and runs nothing; one that does not goes on to run. */
  lemma FoundKeyAnswers(w: World, t: nat, requiresReview: bool)
    requires t in w.retries && w.retries[t] == Looking
    ensures var next := Step(w, Get(t), requiresReview);
            && t in next.retries && next.key == w.key
            && next.retries[t] == (if w.key.Some? then Answered(Ok(w.key.value)) else Missing)
            && next.db == if w.key.Some? then w.db.(open := w.db.open - {t}) else w.db
  {
  }

  /** The first response set is the one kept, until the key expires; each retry is answered with its own. */
  lemma FirstResponseIsKept(w: World, t: nat, commits: bool, requiresReview: bool)
    requires t in w.retries && w.retries[t].Handled?
    ensures var own := w.retries[t].response;
            var set1 := Step(w, Set(t), requiresReview);
            var done := Step(set1, Finish(t, commits), requiresReview);
            && set1.key == (if w.key.Some? then w.key else Some(own)) && set1.db == w.db
            && t in done.retries && done.retries[t] == Answered(Ok(own)) && done.key == set1.key
            && (t in w.db.open && w.db.open[t].Written? ==>
                  |done.db.versions| == |w.db.versions| + (if commits then 1 else 0))
  {
  }

  /** What a retry in its turn replies, and does to the database. */
  lemma Replies(w: World, t: nat, now: int, requiresReview: bool)
    requires InTurn(w, t)
    ensures var e := R.Event.Complete(0, now, requiresReview);
            var row := w.db.versions[w.db.open[t].base].row;
            var next := Step(w, Run(t, now), requiresReview);
            && next.db == O.Step(w.db, O.Write(t, e)) && next.key == w.key
            && if O.Goes(row, w.db.ledger, e) then
                 && t in next.db.open && next.db.open[t].Written? && next.db.open[t].base == w.db.open[t].base
                 && next.db.open[t].ledger == w.db.ledger + O.Row(row, w.db.ledger, e)
                 && next.db == w.db.(open := w.db.open[t := next.db.open[t]])
                 && next.retries == w.retries[t := Handled(next.db.open[t].row)]
               else
                 && next.db == w.db.(open := w.db.open - {t})
                 && next.retries == w.retries[t := Answered(Err(if O.Open(row) then DuplicateEntry else InvalidTransition))]
  {
    var e := R.Event.Complete(0, now, requiresReview);
    var base := w.db.open[t].base;
    var row := w.db.versions[base].row;
    O.RequestOutcome(row, w.db.ledger, e);
    assert O.Step(w.db, O.Write(t, e)) == O.Staged(w.db, t, base, e);
    if O.Goes(row, w.db.ledger, e) {
      assert O.Staged(w.db, t, base, e).open[t].Written?;
    } else if !O.Open(row) {
      NotOpenIsInvalid(w.db.versions[base], w.db.ledger, e);
    }
  }

  lemma NotOpenIsInvalid(v: O.Version, ledger: seq<Entry>, e: R.Event)
    requires O.OnInstance(e) && e.Complete? && !O.Open(v.row)
    ensures R.Handle(O.View(v, ledger).store, e) == Err(InvalidTransition)
  {
  }

  // ---------------------------------------------------------------- retries alone

  predicate NoOthers(ticks: seq<Tick>) {
    forall k :: 0 <= k < |ticks| ==> !ticks[k].Other?
  }

  /** No retry has been committed and nothing is paid, or one has and its row is the instance's only completion. */
  ghost predicate CompletedOnce(row: TaskRow, db: O.Db) {
    && 1 <= |db.versions| <= 2 && db.versions[0].row == row
    && (|db.versions| == 1 ==> db.ledger == [])
    && (|db.versions| == 2 ==>
          && db.versions[1].row.status == Complete
          && HasTask(db.ledger, 0, TaskCompleted) && TaskSum(db.ledger, 0) == row.pointValue)
  }

  ghost predicate Unfinished(row: TaskRow, db: O.Db, txn: O.Txn) {
    && txn.base < |db.versions|
    && (txn.Written? ==>
          && |db.versions| == 1 && txn.row.status == Complete
          && HasTask(txn.ledger, 0, TaskCompleted) && TaskSum(txn.ledger, 0) == row.pointValue)
  }

  ghost predicate Alone(row: TaskRow, db: O.Db) {
    && CompletedOnce(row, db)
    && (forall t :: t in db.open ==> Unfinished(row, db, db.open[t]))
    && (forall t, u :: t in db.open && u in db.open && db.open[t].Written? && db.open[u].Written? ==> t == u)
  }

  lemma FirstWrites(row: TaskRow, w: World, t: nat, now: int)
    requires Fresh(row) && Alone(row, w.db) && InTurn(w, t) && |w.db.versions| == 1
    ensures Alone(row, Step(w, Run(t, now), false).db)
  {
    var e := R.Event.Complete(0, now, false);
    Replies(w, t, now, false);
    Races.RowSums(row, [], e);
    CompletedRow(w, t, now);
  }

  lemma CompletedRow(w: World, t: nat, now: int)
    requires InTurn(w, t) && O.Goes(w.db.versions[w.db.open[t].base].row, w.db.ledger, R.Event.Complete(0, now, false))
    ensures var next := O.Step(w.db, O.Write(t, R.Event.Complete(0, now, false)));
            t in next.open && next.open[t].Written? && next.open[t].row.status == Complete
  {
    Replies(w, t, now, false);
    CompletedStatus(w.db.versions[w.db.open[t].base], w.db.ledger, now);
  }

  lemma CompletedStatus(v: O.Version, ledger: seq<Entry>, now: int)
    requires O.Goes(v.row, ledger, R.Event.Complete(0, now, false))
    ensures var out := R.Step(O.View(v, ledger), R.Event.Complete(0, now, false));
            out.store.rows != [] && out.store.rows[0].status == Complete
  {
    O.RequestOutcome(v.row, ledger, R.Event.Complete(0, now, false));
  }

  lemma LaterIsRefused(row: TaskRow, w: World, t: nat, now: int)
    requires Alone(row, w.db) && InTurn(w, t) && |w.db.versions| == 2
    ensures Alone(row, Step(w, Run(t, now), false).db)
  {
    Replies(w, t, now, false);
  }

  lemma StepKeepsAlone(row: TaskRow, w: World, k: Tick)
    requires Fresh(row) && Alone(row, w.db) && !k.Other?
    ensures Alone(row, Step(w, k, false).db)
  {
    if k.Run? && InTurn(w, k.t) {
      if |w.db.versions| == 1 {
        FirstWrites(row, w, k.t, k.now);
      } else {
        LaterIsRefused(row, w, k.t, k.now);
      }
    }
  }

  /**
   * While nothing else touches a fresh instance, at most one of its overlapping retries is
   * ever committed: it is complete and paid its value, or as it was and unpaid.
   */
  lemma {:induction false} RetriesAloneCommitOnce(row: TaskRow, ticks: seq<Tick>)
    requires Fresh(row) && NoOthers(ticks)
    ensures Alone(row, After(Start(row, PaysNothing, []), ticks, false).db)
  {
    if ticks != [] {
      RetriesAloneCommitOnce(row, ticks[..|ticks| - 1]);
      StepKeepsAlone(row, After(Start(row, PaysNothing, []), ticks[..|ticks| - 1], false), ticks[|ticks| - 1]);
    }
  }

  // ---------------------------------------------------------------- an overlap

  /** Both retries look the key up before either has set it, and the first is committed before the second runs. */
  const OVERLAP: seq<Tick> :=
    [Begin(1), Begin(2), Get(1), Get(2), Run(1, 1), Set(1), Finish(1, true), Run(2, 2)]

  const FIRST: R.Event := R.Event.Complete(0, 1, false)

  function Loaded(row: TaskRow): O.Db {
    Races.BothLoaded(row, PaysNothing, [])
  }

  lemma PrefixStep(w: World, ticks: seq<Tick>, n: nat)
    requires n < |ticks|
    ensures After(w, ticks[..n + 1], false) == Step(After(w, ticks[..n], false), ticks[n], false)
  {
    assert ticks[..n + 1][..n] == ticks[..n];
  }

  lemma BothMissed(row: TaskRow)
    ensures After(Start(row, PaysNothing, []), OVERLAP[..4], false) == World(Loaded(row), None, map[1 := Missing, 2 := Missing])
  {
    var w := Start(row, PaysNothing, []);
    PrefixStep(w, OVERLAP, 0);
    PrefixStep(w, OVERLAP, 1);
    PrefixStep(w, OVERLAP, 2);
    PrefixStep(w, OVERLAP, 3);
    assert OVERLAP[..0] == [];
    assert After(w, OVERLAP[..2], false) == World(Loaded(row), None, map[1 := Looking, 2 := Looking]);
  }

  lemma SetThenFinish(w: World, t: nat)
    requires t in w.retries && w.retries[t].Handled?
    ensures var out := Step(Step(w, Set(t), false), Finish(t, true), false);
            && out.db == O.Step(w.db, O.Commit(t))
            && out.retries == w.retries[t := Answered(Ok(w.retries[t].response))]
  {
  }

  lemma RunThenFinish(row: TaskRow, w: World)
    requires Fresh(row) && w == World(Loaded(row), None, map[1 := Missing, 2 := Missing])
    ensures var out := Step(Step(Step(w, Run(1, 1), false), Set(1), false), Finish(1, true), false);
            && out.db == Races.Settled(Loaded(row), 1, FIRST)
            && 2 in out.retries && out.retries[2] == Missing
  {
    Replies(w, 1, 1, false);
    SetThenFinish(Step(w, Run(1, 1), false), 1);
  }

  lemma FirstRetryEnds(row: TaskRow)
    requires Fresh(row)
    ensures var w := After(Start(row, PaysNothing, []), OVERLAP[..7], false);
            && w.db == Races.Settled(Loaded(row), 1, FIRST)
            && 2 in w.retries && w.retries[2] == Missing
  {
    var w := Start(row, PaysNothing, []);
    BothMissed(row);
    PrefixStep(w, OVERLAP, 4);
    PrefixStep(w, OVERLAP, 5);
    PrefixStep(w, OVERLAP, 6);
    RunThenFinish(row, After(w, OVERLAP[..4], false));
  }

  lemma SecondFindsItPaid(row: TaskRow, w: World)
    requires Fresh(row) && w.db == Races.Settled(Loaded(row), 1, FIRST) && 2 in w.retries && w.retries[2] == Missing
    ensures InTurn(w, 2) && w.db.versions[w.db.open[2].base].row == row && HasTask(w.db.ledger, 0, TaskCompleted)
  {
    Races.AfterFirst(row, PaysNothing, [], FIRST);
    Races.RowSums(row, [], FIRST);
  }

  /** The promise broken: a retry that overlaps the first is answered with the duplicate error. */
  lemma OverlappingRetryMeetsTheDuplicate(row: TaskRow)
    requires Fresh(row)
    ensures var w := After(Start(row, PaysNothing, []), OVERLAP, false);
            2 in w.retries && w.retries[2] == Answered(Err(DuplicateEntry))
  {
    var w := After(Start(row, PaysNothing, []), OVERLAP[..7], false);
    FirstRetryEnds(row);
    SecondFindsItPaid(row, w);
    RetryMeetsDuplicateIff(w, 2, 2, false);
    PrefixStep(Start(row, PaysNothing, []), OVERLAP, 7);
    assert OVERLAP[..8] == OVERLAP;
  }
}
