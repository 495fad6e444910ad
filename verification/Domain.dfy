/** The records every other module speaks about, and the ways a request can be refused. */
module Domain {

  datatype Option<+T> = None | Some(value: T)

  /** The exceptions the services raise, one constructor per guard. */
  datatype Failure =
    | NotFound
    | InvalidTransition
    | MissingComment
    | ExcuseTooShort
    | BlankReason
    | NotPendingReview
    | DuplicateEntry

  datatype Result<+T> = Ok(value: T) | Err(why: Failure) {
    predicate IsFailure() {
      Err?
    }

    function PropagateFailure<U>(): Result<U>
      requires Err?
    {
      Err(why)
    }

    function Extract(): T
      requires Ok?
    {
      value
    }
  }

  datatype Status =
    | Pending
    | ReviewPending
    | Complete
    | Overdue
    | ExcusePending
    | Excused
    | Missed
    | Cancelled

  datatype Policy = PaysNothing | PaysPartial | PaysFull

  /**
   * One row of task_instances. Instants are whole microseconds, the resolution of
   * Python's datetime; `elapsed` is in whole seconds, as the column is.
   */
  datatype TaskRow = TaskRow(
    definition: nat,
    assignee: nat,
    series: Option<nat>,
    dueAt: int,
    pointValue: int,
    status: Status,
    completedAt: Option<int>,
    excuseSubmittedAt: Option<int>,
    pausedAt: Option<int>,
    elapsed: int)

  /** A row as an insert leaves it: nothing submitted, nothing charged. */
  predicate Fresh(row: TaskRow) {
    && row.status in {Pending, Overdue}
    && row.completedAt == None
    && row.excuseSubmittedAt == None
    && row.pausedAt == None
    && row.elapsed == 0
  }

  const MICROS: int := 1_000_000

  function Max(a: int, b: int): int {
    if a < b then b else a
  }

  /** The last element of a sequence, found in any rearrangement of it and taken out of both. */
  lemma Pick<T>(a: seq<T>, b: seq<T>) returns (k: nat)
    requires multiset(a) == multiset(b) && a != []
    ensures k < |b| && b[k] == a[|a| - 1]
    ensures multiset(a[..|a| - 1]) == multiset(b[..k] + b[k + 1..])
    ensures b == b[..k] + ([b[k]] + b[k + 1..])
  {
    var n := |a| - 1;
    assert a[n] in multiset(b);
    k :| 0 <= k < |b| && b[k] == a[n];
    assert a == a[..n] + [a[n]];
    assert b == b[..k] + ([b[k]] + b[k + 1..]);
    assert multiset(a) == multiset(a[..n]) + multiset{a[n]};
    assert multiset(b) == multiset(b[..k]) + multiset{b[k]} + multiset(b[k + 1..]);
    assert multiset(b[..k] + b[k + 1..]) == multiset(b[..k]) + multiset(b[k + 1..]);
    assert multiset(a[..n]) == multiset(a) - multiset{a[n]} == multiset(b) - multiset{b[k]};
  }
}
