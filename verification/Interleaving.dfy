/**
 * Ledger writes of concurrent transactions. A request is split into reading a balance,
 * flushing a row through the unique indexes, and committing; any number of them may
 * interleave, block on each other's uncommitted rows, and abort at any point.
 */
module Interleaving {
  import opened Domain
  import opened Ledger

  /** A balance read but not yet used: what it was, and how long the committed ledger was. */
  datatype Snapshot = Snapshot(member: nat, balance: int, readAt: nat)

  /** An open transaction: its flushed rows, and for each the ledger length its balance was read at. */
  datatype Txn = Txn(pending: seq<Entry>, marks: seq<nat>, snapshot: Option<Snapshot>)

  /**
   * The committed ledger, with two history columns: where the row's balance was read and
   * where its transaction was committed, both as ledger lengths.
   */
  datatype Db = Db(entries: seq<Entry>, readAt: seq<nat>, wroteAt: seq<nat>, open: map<nat, Txn>)

  datatype Move =
    | ReadBalance(t: nat, member: nat)
    | Flush(t: nat, delta: int, kind: Kind, task: Option<nat>, series: Option<nat>)
    | Commit(t: nat)
    | Abort(t: nat)

  const EMPTY: Db := Db([], [], [], map[])

  function Pending(db: Db, t: nat): Txn {
    if t in db.open then db.open[t] else Txn([], [], None)
  }

  predicate Blocked(db: Db, t: nat, e: Entry) {
    exists u :: u in db.open && u != t && Taken(db.open[u].pending, e)
  }

  /** One move; a move that is not enabled, or waits for another transaction, changes nothing. */
  function Step(db: Db, m: Move): Db {
    var txn := Pending(db, m.t);
    match m
    case ReadBalance(t, member) =>
      var seen := Balance(db.entries, member) + Balance(txn.pending, member);
      db.(open := db.open[t := txn.(snapshot := Some(Snapshot(member, seen, |db.entries|)))])
    case Flush(t, delta, kind, task, series) =>
      if txn.snapshot == None then db
      else
        var snap := txn.snapshot.value;
        var e := Entry(snap.member, delta, snap.balance + delta, kind, task, series);
        if Taken(db.entries, e) || Taken(txn.pending, e) then db.(open := db.open - {t})
        else if Blocked(db, t, e) then db
        else db.(open := db.open[t := Txn(txn.pending + [e], txn.marks + [snap.readAt], None)])
    case Commit(t) =>
      Db(db.entries + txn.pending, db.readAt + txn.marks,
         db.wroteAt + seq(|txn.pending|, _ => |db.entries|), db.open - {t})
    case Abort(t) => db.(open := db.open - {t})
  }

  function After(db: Db, moves: seq<Move>): Db {
    if moves == [] then db else Step(After(db, moves[..|moves| - 1]), moves[|moves| - 1])
  }

  // ---------------------------------------------------------------- uniqueness

  ghost predicate Apart(a: seq<Entry>, b: seq<Entry>) {
    forall i, j :: 0 <= i < |a| && 0 <= j < |b| ==> !Clash(a[i], b[j])
  }

  /** Committed and uncommitted rows together never clash. */
  ghost predicate NoClash(db: Db) {
    && Unique(db.entries)
    && (forall t :: t in db.open ==> Unique(db.open[t].pending) && Apart(db.entries, db.open[t].pending))
    && (forall t, u :: t in db.open && u in db.open && t != u ==> Apart(db.open[t].pending, db.open[u].pending))
  }

  lemma StepKeepsNoClash(db: Db, m: Move)
    requires NoClash(db)
    ensures NoClash(Step(db, m))
  {
    match m
    case Flush(t, delta, kind, task, series) => FlushKeepsNoClash(db, m);
    case Commit(t) =>
      var next := Step(db, m);
      forall u | u in next.open
        ensures Apart(next.entries, next.open[u].pending)
      {
        assert t in db.open ==> Apart(db.open[t].pending, db.open[u].pending);
      }
    case _ =>
  }

  lemma FlushKeepsNoClash(db: Db, m: Move)
    requires NoClash(db) && m.Flush?
    ensures NoClash(Step(db, m))
  {
    var next, txn := Step(db, m), Pending(db, m.t);
    if m.t in next.open && next.open[m.t].pending != txn.pending {
      var e := next.open[m.t].pending[|txn.pending|];
      assert !Taken(db.entries, e) && !Taken(txn.pending, e) && !Blocked(db, m.t, e);
      forall u | u in db.open && u != m.t
        ensures Apart(next.open[m.t].pending, db.open[u].pending)
        ensures Apart(db.open[u].pending, next.open[m.t].pending)
      {
        assert !Taken(db.open[u].pending, e);
        assert m.t in db.open ==> Apart(db.open[m.t].pending, db.open[u].pending);
      }
    }
  }

  // ---------------------------------------------------------------- stale balances

  lemma {:induction false} BalanceConcat(a: seq<Entry>, b: seq<Entry>, member: nat)
    ensures Balance(a + b, member) == Balance(a, member) + Balance(b, member)
  {
    if b == [] {
      assert a + b == a;
    } else {
      assert (a + b)[..|a + b| - 1] == a + b[..|b| - 1];
      BalanceConcat(a, b[..|b| - 1], member);
    }
  }

  /** A flushed row's balance is the one its transaction read, plus its own rows so far. */
  ghost predicate PendingExact(entries: seq<Entry>, pending: seq<Entry>, mark: nat, j: nat)
    requires j < |pending|
  {
    && mark <= |entries|
    && pending[j].balanceAfter
       == Balance(entries[..mark], pending[j].member) + Balance(pending[..j + 1], pending[j].member)
  }

  /** What a transaction in flight knows. */
  ghost predicate TxnExact(entries: seq<Entry>, txn: Txn) {
    && |txn.marks| == |txn.pending|
    && (forall j :: 0 <= j < |txn.pending| ==> PendingExact(entries, txn.pending, txn.marks[j], j))
    && (txn.snapshot.Some? ==>
          var snap := txn.snapshot.value;
          && snap.readAt <= |entries|
          && snap.balance == Balance(entries[..snap.readAt], snap.member) + Balance(txn.pending, snap.member))
  }

  /** A committed row's stored balance misses exactly what was committed between its read and its commit. */
  ghost predicate RowStale(db: Db, k: nat)
    requires k < |db.entries| == |db.readAt| == |db.wroteAt|
  {
    && db.readAt[k] <= db.wroteAt[k] <= k
    && var m := db.entries[k].member;
       Balance(db.entries[..k + 1], m) - db.entries[k].balanceAfter == Balance(db.entries[db.readAt[k]..db.wroteAt[k]], m)
  }

  ghost predicate Exactness(db: Db) {
    && |db.entries| == |db.readAt| == |db.wroteAt|
    && (forall k :: 0 <= k < |db.entries| ==> RowStale(db, k))
    && (forall t :: t in db.open ==> TxnExact(db.entries, db.open[t]))
  }

  lemma TxnExactGrows(entries: seq<Entry>, more: seq<Entry>, txn: Txn)
    requires TxnExact(entries, txn)
    ensures TxnExact(entries + more, txn)
  {
    forall n: nat | n <= |entries|
      ensures (entries + more)[..n] == entries[..n]
    {
    }
    forall j | 0 <= j < |txn.pending|
      ensures PendingExact(entries + more, txn.pending, txn.marks[j], j)
    {
      assert PendingExact(entries, txn.pending, txn.marks[j], j);
    }
  }

  lemma FlushKeepsTxnExact(entries: seq<Entry>, txn: Txn, e: Entry)
    requires TxnExact(entries, txn) && txn.snapshot.Some?
    requires e.member == txn.snapshot.value.member && e.balanceAfter == txn.snapshot.value.balance + e.delta
    ensures TxnExact(entries, Txn(txn.pending + [e], txn.marks + [txn.snapshot.value.readAt], None))
  {
    BalanceAppend(txn.pending, e, e.member);
    var grown, marks := txn.pending + [e], txn.marks + [txn.snapshot.value.readAt];
    forall j | 0 <= j < |grown|
      ensures PendingExact(entries, grown, marks[j], j)
    {
      if j < |txn.pending| {
        assert PendingExact(entries, txn.pending, txn.marks[j], j);
        assert grown[..j + 1] == txn.pending[..j + 1];
      } else {
        assert grown[..j + 1] == grown;
      }
    }
  }

  lemma CommittedRowIsStale(db: Db, t: nat, j: nat)
    requires Exactness(db) && j < |Pending(db, t).pending|
    ensures RowStale(Step(db, Commit(t)), |db.entries| + j)
  {
    var txn, next, n := Pending(db, t), Step(db, Commit(t)), |db.entries|;
    var read, m := txn.marks[j], txn.pending[j].member;
    assert PendingExact(db.entries, txn.pending, read, j);
    assert next.entries[..n + j + 1] == db.entries + txn.pending[..j + 1];
    assert next.entries[read..n] == db.entries[read..];
    assert db.entries == db.entries[..read] + db.entries[read..];
    BalanceConcat(db.entries, txn.pending[..j + 1], m);
    BalanceConcat(db.entries[..read], db.entries[read..], m);
  }

  lemma CommitKeepsRows(db: Db, t: nat)
    requires Exactness(db)
    ensures var next := Step(db, Commit(t));
            && |next.entries| == |next.readAt| == |next.wroteAt|
            && forall k :: 0 <= k < |next.entries| ==> RowStale(next, k)
  {
    var next, n := Step(db, Commit(t)), |db.entries|;
    forall k | 0 <= k < |next.entries|
      ensures RowStale(next, k)
    {
      if k < n {
        assert RowStale(db, k);
        assert next.entries[..k + 1] == db.entries[..k + 1];
        assert next.entries[db.readAt[k]..db.wroteAt[k]] == db.entries[db.readAt[k]..db.wroteAt[k]];
      } else {
        CommittedRowIsStale(db, t, k - n);
      }
    }
  }

  lemma ReadKeepsExactness(db: Db, m: Move)
    requires Exactness(db) && m.ReadBalance?
    ensures Exactness(Step(db, m))
  {
    assert db.entries[..|db.entries|] == db.entries;
    RowsUntouched(db, Step(db, m));
  }

  lemma FlushKeepsExactness(db: Db, m: Move)
    requires Exactness(db) && m.Flush?
    ensures Exactness(Step(db, m))
  {
    var next, txn := Step(db, m), Pending(db, m.t);
    RowsUntouched(db, next);
    if m.t in next.open && next.open[m.t] != txn {
      var snap := txn.snapshot.value;
      FlushKeepsTxnExact(db.entries, txn, Entry(snap.member, m.delta, snap.balance + m.delta, m.kind, m.task, m.series));
    }
  }

  lemma CommitKeepsExactness(db: Db, m: Move)
    requires Exactness(db) && m.Commit?
    ensures Exactness(Step(db, m))
  {
    var next, txn := Step(db, m), Pending(db, m.t);
    CommitKeepsRows(db, m.t);
    forall u | u in next.open
      ensures TxnExact(next.entries, next.open[u])
    {
      TxnExactGrows(db.entries, txn.pending, db.open[u]);
    }
  }

  lemma StepKeepsExactness(db: Db, m: Move)
    requires Exactness(db)
    ensures Exactness(Step(db, m))
  {
    match m
    case ReadBalance(_, _) => ReadKeepsExactness(db, m);
    case Flush(_, _, _, _, _) => FlushKeepsExactness(db, m);
    case Commit(_) => CommitKeepsExactness(db, m);
    case Abort(_) => RowsUntouched(db, Step(db, m));
  }

  lemma RowsUntouched(db: Db, next: Db)
    requires Exactness(db)
    requires next.entries == db.entries && next.readAt == db.readAt && next.wroteAt == db.wroteAt
    ensures forall k :: 0 <= k < |next.entries| ==> RowStale(next, k)
  {
    forall k | 0 <= k < |next.entries|
      ensures RowStale(next, k)
    {
      assert RowStale(db, k);
    }
  }

  // ---------------------------------------------------------------- theorems

  lemma {:induction false} EveryRun(moves: seq<Move>)
    ensures NoClash(After(EMPTY, moves)) && Exactness(After(EMPTY, moves))
  {
    if moves != [] {
      EveryRun(moves[..|moves| - 1]);
      StepKeepsNoClash(After(EMPTY, moves[..|moves| - 1]), moves[|moves| - 1]);
      StepKeepsExactness(After(EMPTY, moves[..|moves| - 1]), moves[|moves| - 1]);
    }
  }

  /** SUM(delta) over the rows in one slot of the task index. */
  function SlotSum(l: seq<Entry>, task: nat, kind: Kind): int {
    if l == [] then 0
    else
      var e := l[|l| - 1];
      SlotSum(l[..|l| - 1], task, kind) + (if e.task == Some(task) && e.kind == kind then e.delta else 0)
  }

  lemma {:induction false} EmptySlot(l: seq<Entry>, task: nat, kind: Kind)
    requires !HasTask(l, task, kind)
    ensures SlotSum(l, task, kind) == 0
  {
    if l != [] {
      var n := |l| - 1;
      forall k | 0 <= k < n
        ensures l[..n][k].task != Some(task) || l[..n][k].kind != kind
      {
        assert l[k].task != Some(task) || l[k].kind != kind;
      }
      EmptySlot(l[..n], task, kind);
    }
  }

  lemma {:induction false} SlotCountsOnce(l: seq<Entry>, task: nat, kind: Kind, k: nat)
    requires Unique(l) && k < |l| && l[k].task == Some(task) && l[k].kind == kind
    ensures SlotSum(l, task, kind) == l[k].delta
  {
    var n := |l| - 1;
    if k < n {
      assert !Clash(l[k], l[n]);
      SlotCountsOnce(l[..n], task, kind, k);
    } else {
      forall j | 0 <= j < n
        ensures l[..n][j].task != Some(task) || l[..n][j].kind != kind
      {
        assert !Clash(l[j], l[n]);
      }
      EmptySlot(l[..n], task, kind);
    }
  }

  /**
   * Under every interleaving an instance has at most one completion row and a series
   * instance at most one bonus row, and the ledger's sum counts each award once.
   */
  lemma AwardsAreCountedOnce(moves: seq<Move>, task: nat, kind: Kind, k: nat)
    requires k < |After(EMPTY, moves).entries|
    ensures var l := After(EMPTY, moves).entries;
            && (l[k].task == Some(task) && l[k].kind == kind ==> SlotSum(l, task, kind) == l[k].delta)
            && (!HasTask(l, task, kind) ==> SlotSum(l, task, kind) == 0)
            && (forall j :: 0 <= j < |l| && j != k && l[j].kind == l[k].kind ==>
                  && (l[k].task.Some? ==> l[j].task != l[k].task)
                  && (l[k].series.Some? ==> l[j].series != l[k].series))
  {
    EveryRun(moves);
    var l := After(EMPTY, moves).entries;
    if l[k].task == Some(task) && l[k].kind == kind {
      SlotCountsOnce(l, task, kind, k);
    }
    if !HasTask(l, task, kind) {
      EmptySlot(l, task, kind);
    }
    forall j | 0 <= j < |l| && j != k
      ensures !Clash(l[j], l[k])
    {
      assert j < k ==> !Clash(l[j], l[k]);
      assert k < j ==> !Clash(l[k], l[j]);
    }
  }

  /**
   * Under every interleaving a stored balance_after is off by exactly the deltas of its
   * member that were committed between its read and its commit; it is right exactly when
   * those sum to nothing, as in a serial run, where there are none.
   */
  lemma StaleBalanceIsOffByTheOverlap(moves: seq<Move>, k: nat)
    requires k < |After(EMPTY, moves).entries|
    ensures var db := After(EMPTY, moves);
            && |db.readAt| == |db.wroteAt| == |db.entries|
            && db.readAt[k] <= db.wroteAt[k] <= k
            && var m := db.entries[k].member;
               var overlap := Balance(db.entries[db.readAt[k]..db.wroteAt[k]], m);
               && db.entries[k].balanceAfter == Balance(db.entries[..k + 1], m) - overlap
               && (db.entries[k].balanceAfter == Balance(db.entries[..k + 1], m) <==> overlap == 0)
               && (db.readAt[k] == db.wroteAt[k] ==> overlap == 0)
  {
    EveryRun(moves);
    assert RowStale(After(EMPTY, moves), k);
  }

  /** No other transaction is under way. */
  predicate Quiet(db: Db, t: nat) {
    t !in db.open && forall u :: u in db.open ==> db.open[u].pending == []
  }

  /**
   * With nothing else under way a read, a flush and a commit do what the serial ledger does:
   * they append the stamped row, or, when an index refuses it, leave the ledger as it was.
   */
  lemma LoneTransactionPosts(db: Db, t: nat, member: nat, delta: int, kind: Kind, task: Option<nat>, series: Option<nat>)
    requires Quiet(db, t)
    ensures var out := Step(Step(Step(db, ReadBalance(t, member)), Flush(t, delta, kind, task, series)), Commit(t));
            out.entries == match Post(db.entries, Stamp(db.entries, member, delta, kind, task, series))
                           case Ok(posted) => posted
                           case Err(_) => db.entries
  {
    var read := Step(db, ReadBalance(t, member));
    var e := Stamp(db.entries, member, delta, kind, task, series);
    assert read.open[t] == Txn([], [], Some(Snapshot(member, Balance(db.entries, member), |db.entries|)));
    assert !Blocked(read, t, e);
    assert [] + [e] == [e] && db.entries + [] == db.entries;
  }
}
