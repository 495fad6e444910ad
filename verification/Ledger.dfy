/**
 * The append-only points ledger: its rows, the two partial unique indexes that guard
 * every insert, and the sums the rest of the system is judged by.
 */
module Ledger {
  import opened Domain

  datatype Kind =
    | TaskCompleted
    | SeriesBonus
    | ExcusedPartial
    | ClaimFulfilled
    | ManualAdjustment
    | Reversal

  datatype Entry = Entry(
    member: nat,
    delta: int,
    balanceAfter: int,
    kind: Kind,
    task: Option<nat>,
    series: Option<nat>)

  /** SUM(delta) for a member. */
  function Balance(l: seq<Entry>, member: nat): int {
    if l == [] then 0
    else Balance(l[..|l| - 1], member) + (if l[|l| - 1].member == member then l[|l| - 1].delta else 0)
  }

  /** SUM(delta) of the rows tied to one task instance. */
  function TaskSum(l: seq<Entry>, task: nat): int {
    if l == [] then 0
    else TaskSum(l[..|l| - 1], task) + (if l[|l| - 1].task == Some(task) then l[|l| - 1].delta else 0)
  }

  /** SUM(delta) of a member's rows of one kind. */
  function KindSum(l: seq<Entry>, member: nat, kind: Kind): int {
    if l == [] then 0
    else
      var e := l[|l| - 1];
      KindSum(l[..|l| - 1], member, kind) + (if e.member == member && e.kind == kind then e.delta else 0)
  }

  predicate HasTask(l: seq<Entry>, task: nat, kind: Kind) {
    exists k :: 0 <= k < |l| && l[k].task == Some(task) && l[k].kind == kind
  }

  predicate HasBonus(l: seq<Entry>, series: nat) {
    exists k :: 0 <= k < |l| && l[k].series == Some(series) && l[k].kind == SeriesBonus
  }

  /** The two partial unique indexes: (task, kind) and (series, kind), nulls never clash. */
  predicate Clash(a: Entry, b: Entry) {
    && a.kind == b.kind
    && ((a.task.Some? && a.task == b.task) || (a.series.Some? && a.series == b.series))
  }

  predicate Taken(l: seq<Entry>, e: Entry) {
    exists k :: 0 <= k < |l| && Clash(l[k], e)
  }

  ghost predicate Unique(l: seq<Entry>) {
    forall j, k :: 0 <= j < k < |l| ==> !Clash(l[j], l[k])
  }

  /** Every row's balance_after is the exact running balance of its member. */
  ghost predicate Exact(l: seq<Entry>) {
    forall k :: 0 <= k < |l| ==> l[k].balanceAfter == Balance(l[..k + 1], l[k].member)
  }

  /** Builds the row every writer builds: the balance just read, plus the delta. */
  function Stamp(l: seq<Entry>, member: nat, delta: int, kind: Kind, task: Option<nat>, series: Option<nat>): Entry {
    Entry(member, delta, Balance(l, member) + delta, kind, task, series)
  }

  /** Adds and flushes a row; the indexes turn a clash into the duplicate error. */
  function Post(l: seq<Entry>, e: Entry): Result<seq<Entry>> {
    if Taken(l, e) then Err(DuplicateEntry) else Ok(l + [e])
  }

  /** What the excused-payout policy pays; the halving floors. */
  function Payout(policy: Policy, points: int): int {
    match policy
    case PaysNothing => 0
    case PaysPartial => points / 2
    case PaysFull => points
  }

  // ---------------------------------------------------------------- appending

  lemma Appended(l: seq<Entry>, e: Entry)
    ensures forall m: nat :: Balance(l + [e], m) == Balance(l, m) + if e.member == m then e.delta else 0
    ensures forall t: nat :: TaskSum(l + [e], t) == TaskSum(l, t) + if e.task == Some(t) then e.delta else 0
    ensures forall m: nat, k: Kind :: KindSum(l + [e], m, k) == KindSum(l, m, k) + if e.member == m && e.kind == k then e.delta else 0
    ensures forall t: nat, k: Kind :: HasTask(l + [e], t, k) <==> HasTask(l, t, k) || (e.task == Some(t) && e.kind == k)
    ensures forall s: nat :: HasBonus(l + [e], s) <==> HasBonus(l, s) || (e.series == Some(s) && e.kind == SeriesBonus)
  {
    var out := l + [e];
    assert out[..|out| - 1] == l;
    assert out[|l|] == e;
    assert forall k :: 0 <= k < |l| ==> out[k] == l[k];
    forall t: nat, k: Kind | HasTask(l, t, k)
      ensures HasTask(out, t, k)
    {
      var j :| 0 <= j < |l| && l[j].task == Some(t) && l[j].kind == k;
      assert out[j] == l[j];
    }
    forall s: nat | HasBonus(l, s)
      ensures HasBonus(out, s)
    {
      var j :| 0 <= j < |l| && l[j].series == Some(s) && l[j].kind == SeriesBonus;
      assert out[j] == l[j];
    }
  }

  lemma BalanceAppend(l: seq<Entry>, e: Entry, member: nat)
    ensures Balance(l + [e], member) == Balance(l, member) + if e.member == member then e.delta else 0
  {
    assert (l + [e])[..|l + [e]| - 1] == l;
  }

  /** Whichever writer appends, a stamped row keeps the indexes and the running balances. */
  lemma PostKeepsLedger(l: seq<Entry>, e: Entry)
    requires Unique(l) && Exact(l) && !Taken(l, e)
    requires e == Stamp(l, e.member, e.delta, e.kind, e.task, e.series)
    ensures Unique(l + [e]) && Exact(l + [e])
  {
    var out := l + [e];
    forall j, k | 0 <= j < k < |out|
      ensures !Clash(out[j], out[k])
    {
      assert out[j] == l[j];
      assert k < |l| ==> out[k] == l[k];
    }
    StampIsExact(l, e);
  }

  lemma StampIsExact(l: seq<Entry>, e: Entry)
    requires Exact(l) && e == Stamp(l, e.member, e.delta, e.kind, e.task, e.series)
    ensures Exact(l + [e])
  {
    var out := l + [e];
    BalanceAppend(l, e, e.member);
    assert out[..|out|] == out;
    forall n: nat | n <= |l|
      ensures out[..n] == l[..n]
    {
    }
  }

  /** A row of a kind sits on a task exactly when the index would refuse a second one. */
  lemma TakenTask(l: seq<Entry>, e: Entry, task: nat)
    requires e.task == Some(task) && e.series == None
    ensures Taken(l, e) <==> HasTask(l, task, e.kind)
  {
    if HasTask(l, task, e.kind) {
      var k :| 0 <= k < |l| && l[k].task == Some(task) && l[k].kind == e.kind;
      assert Clash(l[k], e);
    }
  }

  lemma TakenBonus(l: seq<Entry>, e: Entry, series: nat)
    requires e.series == Some(series) && e.task == None && e.kind == SeriesBonus
    ensures Taken(l, e) <==> HasBonus(l, series)
  {
    if HasBonus(l, series) {
      var k :| 0 <= k < |l| && l[k].series == Some(series) && l[k].kind == SeriesBonus;
      assert Clash(l[k], e);
    }
  }
}
