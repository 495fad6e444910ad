/** Bulk approval: one transaction that answers a list of reviews and excuses in turn. */
module Bulk {
  import opened Domain
  import opened Ledger
  import opened Points
  import opened Runs
  import RunTheorems

  datatype Item = Item(id: nat, approve: bool, hasComment: bool, now: int)

  datatype ItemResult = Succeeded(id: nat, status: Status) | Failed(id: nat, error: Failure)

  /** How one item is answered on a given state. */
  type Handler = (Store, Item) -> Result<Store>

  /** One item, answered on the state the earlier ones left; only a duplicate ends the whole call. */
  function Answer(f: Handler, sofar: (Store, seq<ItemResult>), item: Item): Result<(Store, seq<ItemResult>)> {
    match f(sofar.0, item)
    case Ok(t) =>
      var status := if item.id < |t.rows| then t.rows[item.id].status else Pending;
      Ok((t, sofar.1 + [Succeeded(item.id, status)]))
    case Err(DuplicateEntry) => Err(DuplicateEntry)
    case Err(why) => Ok((sofar.0, sofar.1 + [Failed(item.id, why)]))
  }

  function BatchWith(f: Handler, s: Store, items: seq<Item>): Result<(Store, seq<ItemResult>)> {
    if items == [] then Ok((s, []))
    else
      var sofar :- BatchWith(f, s, items[..|items| - 1]);
      Answer(f, sofar, items[|items| - 1])
  }

  function Reviewer(policy: Policy, graceHours: int): Handler {
    (s: Store, item: Item) => ReviewTask(s, item.id, item.now, item.approve, item.hasComment, policy, graceHours)
  }

  function Batch(s: Store, items: seq<Item>, policy: Policy, graceHours: int): Result<(Store, seq<ItemResult>)> {
    BatchWith(Reviewer(policy, graceHours), s, items)
  }

  /** The same items as separate transactions, each failing on its own. */
  function Serially(f: Handler, s: Store, items: seq<Item>): Store {
    if items == [] then s
    else
      var before := Serially(f, s, items[..|items| - 1]);
      var turn := f(before, items[|items| - 1]);
      if turn.Ok? then turn.value else before
  }

  function ReviewEvent(item: Item, policy: Policy, graceHours: int): Event {
    Review(item.id, item.now, item.approve, item.hasComment, policy, graceHours)
  }

  function Reviews(items: seq<Item>, policy: Policy, graceHours: int): seq<Event> {
    seq(|items|, k requires 0 <= k < |items| => ReviewEvent(items[k], policy, graceHours))
  }

  predicate Waiting(s: Store, id: nat) {
    id < |s.rows| && s.rows[id].status in {ReviewPending, ExcusePending}
  }

  // ---------------------------------------------------------------- a fold of single reviews

  ghost predicate Reports(f: Handler, s: Store, items: seq<Item>, results: seq<ItemResult>, k: nat)
    requires k < |items| == |results|
  {
    var turn := f(Serially(f, s, items[..k]), items[k]);
    && results[k].id == items[k].id
    && (results[k].Succeeded? <==> turn.Ok?)
    && (results[k].Failed? ==> turn == Err(results[k].error))
    && (results[k].Succeeded? && items[k].id < |turn.value.rows| ==> results[k].status == turn.value.rows[items[k].id].status)
  }

  lemma {:induction false} FoldWith(f: Handler, s: Store, items: seq<Item>)
    requires BatchWith(f, s, items).Ok?
    ensures var out := BatchWith(f, s, items).value;
            && out.0 == Serially(f, s, items)
            && |out.1| == |items|
            && forall k :: 0 <= k < |items| ==> Reports(f, s, items, out.1, k)
  {
    if items != [] {
      var n := |items| - 1;
      FoldWith(f, s, items[..n]);
      var init, out := BatchWith(f, s, items[..n]).value, BatchWith(f, s, items).value;
      assert forall k :: 0 <= k < n ==> out.1[k] == init.1[k];
      forall k | 0 <= k < n
        ensures Reports(f, s, items, out.1, k)
      {
        assert items[..n][..k] == items[..k];
        assert Reports(f, s, items[..n], init.1, k);
      }
    }
  }

  lemma {:induction false} SeriallyIsARun(r: Run, items: seq<Item>, policy: Policy, graceHours: int)
    ensures Serially(Reviewer(policy, graceHours), r.store, items) == After(r, Reviews(items, policy, graceHours)).store
  {
    if items != [] {
      var n := |items| - 1;
      SeriallyIsARun(r, items[..n], policy, graceHours);
      ReviewsSplit(r, items, policy, graceHours);
      ReviewerHandles(After(r, Reviews(items[..n], policy, graceHours)).store, items[n], policy, graceHours);
    }
  }

  /** The k-th item as a single review of its own, in the state the earlier ones leave. */
  ghost function Turn(r: Run, items: seq<Item>, policy: Policy, graceHours: int, k: nat): Result<Store>
    requires k < |items|
  {
    Handle(After(r, Reviews(items[..k], policy, graceHours)).store, ReviewEvent(items[k], policy, graceHours))
  }

  /** The events are the items' own answers, in their order. */
  lemma ReviewsAreTheItems(items: seq<Item>, policy: Policy, graceHours: int, k: nat)
    requires k < |items|
    ensures |Reviews(items, policy, graceHours)| == |items|
    ensures Reviews(items, policy, graceHours)[k]
            == Review(items[k].id, items[k].now, items[k].approve, items[k].hasComment, policy, graceHours)
  {
  }

  /** The result of an item says what its single review came to, and the status that review left. */
  ghost predicate Tells(r: Run, items: seq<Item>, policy: Policy, graceHours: int, result: ItemResult, k: nat)
    requires k < |items|
  {
    var turn := Turn(r, items, policy, graceHours, k);
    && result.id == items[k].id
    && (result.Succeeded? <==> turn.Ok?)
    && (result.Failed? ==> turn == Err(result.error))
    && (result.Succeeded? ==> items[k].id < |turn.value.rows| && result.status == turn.value.rows[items[k].id].status)
  }

  /**
   * A batch that goes through is the run of its single reviews; results match the items
   * in number and order, and each says what that single review came to in its turn, with
   * the status it left.
   */
  lemma BatchIsAFold(r: Run, items: seq<Item>, policy: Policy, graceHours: int)
    requires Batch(r.store, items, policy, graceHours).Ok?
    ensures var out := Batch(r.store, items, policy, graceHours).value;
            && out.0 == After(r, Reviews(items, policy, graceHours)).store
            && |out.1| == |items|
            && forall k :: 0 <= k < |items| ==> Tells(r, items, policy, graceHours, out.1[k], k)
  {
    FoldWith(Reviewer(policy, graceHours), r.store, items);
    SeriallyIsARun(r, items, policy, graceHours);
    var out := Batch(r.store, items, policy, graceHours).value;
    forall k | 0 <= k < |items|
      ensures Tells(r, items, policy, graceHours, out.1[k], k)
    {
      TurnReported(r, items, policy, graceHours, out.1, k);
    }
  }

  lemma TurnReported(r: Run, items: seq<Item>, policy: Policy, graceHours: int, results: seq<ItemResult>, k: nat)
    requires k < |items| == |results| && Reports(Reviewer(policy, graceHours), r.store, items, results, k)
    ensures Tells(r, items, policy, graceHours, results[k], k)
  {
    SeriallyIsARun(r, items[..k], policy, graceHours);
    ReviewerHandles(After(r, Reviews(items[..k], policy, graceHours)).store, items[k], policy, graceHours);
    ReviewedIsThere(After(r, Reviews(items[..k], policy, graceHours)).store, ReviewEvent(items[k], policy, graceHours));
  }

  lemma ReviewedIsThere(s: Store, e: Event)
    requires e.Review?
    ensures Handle(s, e).Ok? ==> e.id < |Handle(s, e).value.rows|
  {
  }

  // ---------------------------------------------------------------- the statuses reported

  lemma {:induction false} AnsweredOnceStays(r: Run, items: seq<Item>, policy: Policy, graceHours: int, id: nat)
    requires id < |r.store.rows| && !Waiting(r.store, id)
    ensures var t := After(r, Reviews(items, policy, graceHours)).store;
            id < |t.rows| && t.rows[id] == r.store.rows[id]
  {
    if items != [] {
      var n := |items| - 1;
      AnsweredOnceStays(r, items[..n], policy, graceHours, id);
      ReviewsSplit(r, items, policy, graceHours);
      var mid := After(r, Reviews(items[..n], policy, graceHours));
      ReviewTracks(mid, ReviewEvent(items[n], policy, graceHours), id);
      if items[n].id == id {
        NotWaitingIsRefused(mid.store, ReviewEvent(items[n], policy, graceHours));
      }
    }
  }

  lemma NotWaitingIsRefused(s: Store, e: Event)
    requires e.Review? && !Waiting(s, e.id)
    ensures Handle(s, e).Err?
  {
  }

  lemma {:induction false} ReviewsJoin(r: Run, a: seq<Item>, b: seq<Item>, policy: Policy, graceHours: int)
    ensures After(r, Reviews(a + b, policy, graceHours))
            == After(After(r, Reviews(a, policy, graceHours)), Reviews(b, policy, graceHours))
  {
    if b == [] {
      assert a + b == a;
    } else {
      var n := |b| - 1;
      assert (a + b)[..|a + b| - 1] == a + b[..n];
      ReviewsJoin(r, a, b[..n], policy, graceHours);
      ReviewsSplit(r, a + b, policy, graceHours);
      ReviewsSplit(After(r, Reviews(a, policy, graceHours)), b, policy, graceHours);
    }
  }

  /** The status a success reports is the one its instance has when the whole batch is done. */
  lemma SuccessReportsTheFinalStatus(r: Run, items: seq<Item>, policy: Policy, graceHours: int, k: nat)
    requires Batch(r.store, items, policy, graceHours).Ok? && k < |items|
    requires |Batch(r.store, items, policy, graceHours).value.1| == |items|
    requires Batch(r.store, items, policy, graceHours).value.1[k].Succeeded?
    ensures var out := Batch(r.store, items, policy, graceHours).value;
            items[k].id < |out.0.rows| && out.1[k].status == out.0.rows[items[k].id].status
  {
    var e := ReviewEvent(items[k], policy, graceHours);
    var before, after := After(r, Reviews(items[..k], policy, graceHours)), After(r, Reviews(items[..k + 1], policy, graceHours));
    BatchIsAFold(r, items, policy, graceHours);
    assert Tells(r, items, policy, graceHours, Batch(r.store, items, policy, graceHours).value.1[k], k);
    ReviewsSplit(r, items[..k + 1], policy, graceHours);
    assert items[..k + 1][..k] == items[..k];
    ReviewTracks(before, e, items[k].id);
    assert items == items[..k + 1] + items[k + 1..];
    ReviewsJoin(r, items[..k + 1], items[k + 1..], policy, graceHours);
    AnsweredOnceStays(after, items[k + 1..], policy, graceHours, items[k].id);
  }

  /** An item that fails a guard changes nothing and can be dropped without any effect on the rest. */
  lemma FailingItemIsInert(s: Store, items: seq<Item>, policy: Policy, graceHours: int, k: nat)
    requires k < |items| && Batch(s, items, policy, graceHours).Ok?
    requires |Batch(s, items, policy, graceHours).value.1| == |items|
    requires Batch(s, items, policy, graceHours).value.1[k].Failed?
    ensures var out := Batch(s, items, policy, graceHours).value;
            Batch(s, items[..k] + items[k + 1..], policy, graceHours) == Ok((out.0, out.1[..k] + out.1[k + 1..]))
  {
    InertWith(Reviewer(policy, graceHours), s, items, k);
  }

  function Without<T>(xs: seq<T>, k: nat): seq<T>
    requires k < |xs|
  {
    xs[..k] + xs[k + 1..]
  }

  lemma WithoutOneMore<T>(xs: seq<T>, x: T, k: nat)
    requires k < |xs|
    ensures Without(xs + [x], k) == Without(xs, k) + [x]
  {
  }

  lemma {:induction false} InertWith(f: Handler, s: Store, items: seq<Item>, k: nat)
    requires k < |items| && BatchWith(f, s, items).Ok?
    requires |BatchWith(f, s, items).value.1| == |items| && BatchWith(f, s, items).value.1[k].Failed?
    ensures var out := BatchWith(f, s, items).value;
            BatchWith(f, s, Without(items, k)) == Ok((out.0, Without(out.1, k)))
  {
    var n := |items| - 1;
    if k == n {
      assert Without(items, k) == items[..n];
      LastIsInert(f, s, items);
      var results := BatchWith(f, s, items).value.1;
      assert Without(results, k) == results[..n];
    } else {
      EarlierFailed(f, s, items, k);
      InertWith(f, s, items[..n], k);
      assert items == items[..n] + [items[n]];
      InertOneMore(f, s, items[..n], items[n], k);
    }
  }

  lemma EarlierFailed(f: Handler, s: Store, items: seq<Item>, k: nat)
    requires k + 1 < |items| && BatchWith(f, s, items).Ok?
    requires |BatchWith(f, s, items).value.1| == |items| && BatchWith(f, s, items).value.1[k].Failed?
    ensures var init := BatchWith(f, s, items[..|items| - 1]);
            init.Ok? && |init.value.1| == |items| - 1 && init.value.1[k].Failed?
  {
  }

  lemma InertOneMore(f: Handler, s: Store, items: seq<Item>, item: Item, k: nat)
    requires k < |items| && BatchWith(f, s, items).Ok? && |BatchWith(f, s, items).value.1| == |items|
    requires var sofar := BatchWith(f, s, items).value;
             BatchWith(f, s, Without(items, k)) == Ok((sofar.0, Without(sofar.1, k)))
    requires BatchWith(f, s, items + [item]).Ok?
    ensures var out := BatchWith(f, s, items + [item]).value;
            && |out.1| == |items| + 1
            && BatchWith(f, s, Without(items + [item], k)) == Ok((out.0, Without(out.1, k)))
  {
    var sofar := BatchWith(f, s, items).value;
    WithoutOneMore(items, item, k);
    BatchExtends(f, s, items, item, sofar);
    BatchExtends(f, s, Without(items, k), item, (sofar.0, Without(sofar.1, k)));
    AnswerAppends(f, sofar, Without(sofar.1, k), item);
    var out := Answer(f, sofar, item).value;
    assert out.1 == sofar.1 + [out.1[|sofar.1|]];
    WithoutOneMore(sofar.1, out.1[|sofar.1|], k);
  }

  lemma BatchExtends(f: Handler, s: Store, items: seq<Item>, item: Item, sofar: (Store, seq<ItemResult>))
    requires BatchWith(f, s, items) == Ok(sofar)
    ensures BatchWith(f, s, items + [item]) == Answer(f, sofar, item)
  {
    assert (items + [item])[..|items + [item]| - 1] == items;
  }

  lemma LastIsInert(f: Handler, s: Store, items: seq<Item>)
    requires items != [] && BatchWith(f, s, items).Ok? && |BatchWith(f, s, items).value.1| == |items|
    requires BatchWith(f, s, items).value.1[|items| - 1].Failed?
    ensures var out := BatchWith(f, s, items).value;
            BatchWith(f, s, items[..|items| - 1]) == Ok((out.0, out.1[..|items| - 1]))
  {
  }

  lemma AnswerAppends(f: Handler, sofar: (Store, seq<ItemResult>), other: seq<ItemResult>, item: Item)
    requires Answer(f, sofar, item).Ok?
    ensures var out := Answer(f, sofar, item).value;
            && |out.1| == |sofar.1| + 1 && out.1[..|sofar.1|] == sofar.1
            && Answer(f, (sofar.0, other), item) == Ok((out.0, other + [out.1[|sofar.1|]]))
  {
  }

  // ---------------------------------------------------------------- repeated ids and aborts

  /** Some item on this id gets past the comment guard. */
  ghost predicate Answered(items: seq<Item>, id: nat) {
    exists j :: 0 <= j < |items| && items[j].id == id && (items[j].approve || items[j].hasComment)
  }

  lemma AnsweredSplits(items: seq<Item>, id: nat)
    requires items != []
    ensures var last := items[|items| - 1];
            Answered(items, id)
            <==> Answered(items[..|items| - 1], id) || (last.id == id && (last.approve || last.hasComment))
  {
    var n := |items| - 1;
    if j :| 0 <= j < n && items[..n][j].id == id && (items[..n][j].approve || items[..n][j].hasComment) {
      assert items[j] == items[..n][j];
    }
    if j :| 0 <= j < |items| && items[j].id == id && (items[j].approve || items[j].hasComment) {
      assert j < n ==> items[..n][j] == items[j];
    }
  }

  /** A review that goes through answers one instance and adds at most one row, never a reversal. */
  lemma ReviewShape(s: Store, e: Event)
    requires e.Review? && Handle(s, e).Ok?
    ensures var t := Handle(s, e).value;
            && e.id < |s.rows| && t.rows == s.rows[e.id := t.rows[e.id]] && !Waiting(t, e.id)
            && (t.ledger == s.ledger
                || (|t.ledger| == |s.ledger| + 1 && t.ledger == s.ledger + [t.ledger[|s.ledger|]]
                    && t.ledger[|s.ledger|].kind != Reversal))
  {
  }

  /** What one review does, seen from any instance: a waiting one it gets through to stops waiting. */
  lemma ReviewTracks(r: Run, e: Event, id: nat)
    requires e.Review?
    ensures var t := Step(r, e).store;
            && |t.rows| == |r.store.rows|
            && (HasTask(t.ledger, id, Reversal) <==> HasTask(r.store.ledger, id, Reversal))
            && (id < |t.rows| && !(e.id == id && Handle(r.store, e).Ok?) ==> t.rows[id] == r.store.rows[id])
            && (id < |t.rows| && e.id == id && Handle(r.store, e).Ok? ==> !Waiting(t, id))
  {
    var l, t := r.store.ledger, Step(r, e).store;
    if Handle(r.store, e).Ok? {
      ReviewShape(r.store, e);
      if t.ledger != l {
        Appended(l, t.ledger[|l|]);
      }
    }
  }

  /** What a list of reviews has done to one instance: it waits until the first answer gets through. */
  ghost predicate Tracks(s: Store, t: Store, items: seq<Item>, id: nat) {
    && |t.rows| == |s.rows|
    && (HasTask(t.ledger, id, Reversal) <==> HasTask(s.ledger, id, Reversal))
    && (Waiting(t, id) <==> Waiting(s, id) && !Answered(items, id))
    && (id < |s.rows| && (!Waiting(s, id) || !Answered(items, id)) ==> t.rows[id] == s.rows[id])
  }

  lemma TracksOneMore(s: Store, mid: Run, items: seq<Item>, policy: Policy, graceHours: int, id: nat)
    requires items != [] && Tracks(s, mid.store, items[..|items| - 1], id) && Inv(mid)
    requires Handle(mid.store, ReviewEvent(items[|items| - 1], policy, graceHours)) != Err(DuplicateEntry)
    ensures Tracks(s, Step(mid, ReviewEvent(items[|items| - 1], policy, graceHours)).store, items, id)
  {
    var e := ReviewEvent(items[|items| - 1], policy, graceHours);
    AnsweredSplits(items, id);
    ReviewTracks(mid, e, id);
    ReviewGoesThroughIff(mid, e);
  }

  lemma ReviewGoesThroughIff(r: Run, e: Event)
    requires Inv(r) && e.Review? && Handle(r.store, e) != Err(DuplicateEntry)
    ensures Handle(r.store, e).Ok? <==> Waiting(r.store, e.id) && (e.approve || e.hasComment)
  {
    ReviewKeeps(r, e);
  }

  lemma LastAnswer(f: Handler, s: Store, items: seq<Item>)
    requires items != [] && BatchWith(f, s, items[..|items| - 1]).Ok?
    ensures var n := |items| - 1;
            && (BatchWith(f, s, items).Err? <==> f(Serially(f, s, items[..n]), items[n]) == Err(DuplicateEntry))
            && (BatchWith(f, s, items).Err? ==> BatchWith(f, s, items) == Err(DuplicateEntry))
  {
    FoldWith(f, s, items[..|items| - 1]);
  }

  lemma ReviewerHandles(s: Store, item: Item, policy: Policy, graceHours: int)
    ensures Reviewer(policy, graceHours)(s, item) == Handle(s, ReviewEvent(item, policy, graceHours))
  {
  }

  lemma ReviewsSplit(r: Run, items: seq<Item>, policy: Policy, graceHours: int)
    requires items != []
    ensures var n := |items| - 1;
            After(r, Reviews(items, policy, graceHours))
            == Step(After(r, Reviews(items[..n], policy, graceHours)), ReviewEvent(items[n], policy, graceHours))
  {
    assert Reviews(items, policy, graceHours)[..|items| - 1] == Reviews(items[..|items| - 1], policy, graceHours);
  }

  lemma LastTurnNotDuplicate(r: Run, items: seq<Item>, policy: Policy, graceHours: int)
    requires items != [] && Batch(r.store, items, policy, graceHours).Ok?
    ensures Batch(r.store, items[..|items| - 1], policy, graceHours).Ok?
    ensures Turn(r, items, policy, graceHours, |items| - 1) != Err(DuplicateEntry)
  {
    var n := |items| - 1;
    LastAnswer(Reviewer(policy, graceHours), r.store, items);
    SeriallyIsARun(r, items[..n], policy, graceHours);
    ReviewerHandles(After(r, Reviews(items[..n], policy, graceHours)).store, items[n], policy, graceHours);
  }

  lemma {:induction false} BatchTracks(r: Run, items: seq<Item>, policy: Policy, graceHours: int, id: nat)
    requires Inv(r) && Batch(r.store, items, policy, graceHours).Ok?
    ensures Tracks(r.store, After(r, Reviews(items, policy, graceHours)).store, items, id)
  {
    if items != [] {
      var n := |items| - 1;
      LastTurnNotDuplicate(r, items, policy, graceHours);
      ReviewsSplit(r, items, policy, graceHours);
      BatchTracks(r, items[..n], policy, graceHours, id);
      InvForever(r, Reviews(items[..n], policy, graceHours));
      TracksOneMore(r.store, After(r, Reviews(items[..n], policy, graceHours)), items, policy, graceHours, id);
    }
  }

  /** However often an id is repeated in a batch, at most one of its items succeeds. */
  lemma RepeatedIdSucceedsOnce(r: Run, items: seq<Item>, policy: Policy, graceHours: int, j: nat, k: nat)
    requires Inv(r) && Batch(r.store, items, policy, graceHours).Ok?
    requires j < k < |items| && items[j].id == items[k].id
    ensures var results := Batch(r.store, items, policy, graceHours).value.1;
            |results| == |items| && !(results[j].Succeeded? && results[k].Succeeded?)
  {
    BatchIsAFold(r, items, policy, graceHours);
    PrefixGoesThrough(Reviewer(policy, graceHours), r.store, items, j);
    PrefixGoesThrough(Reviewer(policy, graceHours), r.store, items, k);
    BatchTracks(r, items[..j], policy, graceHours, items[j].id);
    BatchTracks(r, items[..k], policy, graceHours, items[k].id);
    var atJ := After(r, Reviews(items[..j], policy, graceHours));
    var atK := After(r, Reviews(items[..k], policy, graceHours));
    var results := Batch(r.store, items, policy, graceHours).value.1;
    InvForever(r, Reviews(items[..j], policy, graceHours));
    InvForever(r, Reviews(items[..k], policy, graceHours));
    ReviewKeeps(atJ, ReviewEvent(items[j], policy, graceHours));
    ReviewKeeps(atK, ReviewEvent(items[k], policy, graceHours));
    if results[j].Succeeded? {
      assert items[..k][j] == items[j];
      assert Answered(items[..k], items[k].id);
    }
  }

  lemma {:induction false} PrefixGoesThrough(f: Handler, s: Store, items: seq<Item>, k: nat)
    requires BatchWith(f, s, items).Ok? && k <= |items|
    ensures BatchWith(f, s, items[..k]).Ok?
  {
    if k == |items| {
      assert items[..k] == items;
    } else {
      PrefixGoesThrough(f, s, items[..|items| - 1], k);
      assert items[..|items| - 1][..k] == items[..k];
    }
  }

  /**
   * The item that brings a batch down: it approves an instance that was reversed and
   * waits for a full payout, and no earlier item has already answered that instance.
   */
  ghost predicate BringsDown(s: Store, items: seq<Item>, policy: Policy, graceHours: int, k: nat) {
    && k < |items| && items[k].id < |s.rows|
    && ReviewClashes(s, ReviewEvent(items[k], policy, graceHours))
    && !Answered(items[..k], items[k].id)
  }

  /** A batch is undone whole exactly when one of its items brings it down; no other failure ends it. */
  lemma {:induction false} BatchAbortsIff(r: Run, items: seq<Item>, policy: Policy, graceHours: int)
    requires Inv(r)
    ensures Batch(r.store, items, policy, graceHours).Err?
            <==> exists k :: BringsDown(r.store, items, policy, graceHours, k)
    ensures Batch(r.store, items, policy, graceHours).Err? ==>
              Batch(r.store, items, policy, graceHours) == Err(DuplicateEntry)
  {
    if items != [] {
      var n := |items| - 1;
      BatchAbortsIff(r, items[..n], policy, graceHours);
      EarlierItemBringsDown(r.store, items, items[..n], policy, graceHours);
      if Batch(r.store, items[..n], policy, graceHours).Ok? {
        LastItemAbortsIff(r, items, policy, graceHours);
      }
    }
  }

  lemma EarlierItemBringsDown(s: Store, items: seq<Item>, init: seq<Item>, policy: Policy, graceHours: int)
    requires items != [] && init == items[..|items| - 1]
    ensures (exists k :: BringsDown(s, items, policy, graceHours, k))
            <==> (exists k :: BringsDown(s, init, policy, graceHours, k)) || BringsDown(s, items, policy, graceHours, |init|)
  {
    forall k: nat | k < |init|
      ensures BringsDown(s, items, policy, graceHours, k) <==> BringsDown(s, init, policy, graceHours, k)
    {
      assert init[..k] == items[..k];
    }
    if k: nat :| BringsDown(s, init, policy, graceHours, k) {
      assert BringsDown(s, items, policy, graceHours, k);
    }
    if k: nat :| BringsDown(s, items, policy, graceHours, k) && k < |init| {
      assert BringsDown(s, init, policy, graceHours, k);
    }
  }

  /** The state the last item meets, and what single review it is. */
  lemma LastTurn(r: Run, items: seq<Item>, policy: Policy, graceHours: int)
    requires Inv(r) && items != [] && Batch(r.store, items[..|items| - 1], policy, graceHours).Ok?
    ensures var n := |items| - 1;
            var mid := After(r, Reviews(items[..n], policy, graceHours));
            && Inv(mid) && Tracks(r.store, mid.store, items[..n], items[n].id)
            && (Batch(r.store, items, policy, graceHours).Err? <==> Turn(r, items, policy, graceHours, n) == Err(DuplicateEntry))
            && (Batch(r.store, items, policy, graceHours).Err? ==> Batch(r.store, items, policy, graceHours) == Err(DuplicateEntry))
  {
    var n := |items| - 1;
    LastAnswer(Reviewer(policy, graceHours), r.store, items);
    SeriallyIsARun(r, items[..n], policy, graceHours);
    InvForever(r, Reviews(items[..n], policy, graceHours));
    BatchTracks(r, items[..n], policy, graceHours, items[n].id);
    ReviewerHandles(After(r, Reviews(items[..n], policy, graceHours)).store, items[n], policy, graceHours);
  }

  lemma LastItemAbortsIff(r: Run, items: seq<Item>, policy: Policy, graceHours: int)
    requires Inv(r) && items != [] && Batch(r.store, items[..|items| - 1], policy, graceHours).Ok?
    ensures var out := Batch(r.store, items, policy, graceHours);
            && (out.Err? <==> BringsDown(r.store, items, policy, graceHours, |items| - 1))
            && (out.Err? ==> out == Err(DuplicateEntry))
  {
    var n := |items| - 1;
    LastTurn(r, items, policy, graceHours);
    ClashSeenFromTheStart(r.store, After(r, Reviews(items[..n], policy, graceHours)), items, policy, graceHours);
  }

  lemma ClashSeenFromTheStart(s: Store, mid: Run, items: seq<Item>, policy: Policy, graceHours: int)
    requires items != [] && Inv(mid) && Tracks(s, mid.store, items[..|items| - 1], items[|items| - 1].id)
    ensures Handle(mid.store, ReviewEvent(items[|items| - 1], policy, graceHours)) == Err(DuplicateEntry)
            <==> BringsDown(s, items, policy, graceHours, |items| - 1)
  {
    ReviewKeeps(mid, ReviewEvent(items[|items| - 1], policy, graceHours));
  }

  lemma ReversingReopens(r: Run, id: nat, now: int)
    requires Inv(r) && id < |r.store.rows|
    requires r.store.rows[id].status == Status.Complete && now < r.store.rows[id].dueAt
    ensures var s := ReverseTask(r.store, id, now);
            s.Ok? && id < |s.value.rows| && s.value.rows[id].status == Overdue && HasTask(s.value.ledger, id, Reversal)
  {
    ReverseKeeps(r, id, now);
  }

  lemma SubmittedWaits(r: Run, id: nat, now: int)
    requires Inv(r) && id < |r.store.rows| && r.store.rows[id].status == Overdue
    ensures var s := CompleteTask(r.store, id, now, true);
            s.Ok? && id < |s.value.rows| && s.value.rows[id].status == ReviewPending
  {
    CompleteTaskKeeps(r, id, now, true);
  }

  /** A completion reversed before it was due and submitted again: it waits, and its payment is taken. */
  lemma ReversedThenSubmitted(r: Run, id: nat, now: int)
    requires Inv(r) && id < |r.store.rows|
    requires r.store.rows[id].status == Status.Complete && now < r.store.rows[id].dueAt
    ensures var again := Step(Step(r, Reverse(id, now)), Event.Complete(id, now, true));
            && Inv(again) && id < |again.store.rows| && again.store.rows[id].status == ReviewPending
            && HasTask(again.store.ledger, id, Reversal)
  {
    var reversed := Step(r, Reverse(id, now));
    StepKeeps(r, Reverse(id, now));
    ReversingReopens(r, id, now);
    StepKeeps(reversed, Event.Complete(id, now, true));
    SubmittedWaits(reversed, id, now);
    StaysReversed(reversed, id, now);
  }

  lemma StaysReversed(r: Run, id: nat, now: int)
    requires HasTask(r.store.ledger, id, Reversal)
    ensures HasTask(Step(r, Event.Complete(id, now, true)).store.ledger, id, Reversal)
  {
    RunTheorems.CompletionExtendsLedger(r, Event.Complete(id, now, true));
    RunTheorems.PrefixKeepsRow(r.store.ledger, Step(r, Event.Complete(id, now, true)).store.ledger, id, Reversal);
  }

  /**
   * The promise that a bad item fails alone, broken: a completion reversed before it was
   * due and submitted again takes down every batch that opens by approving it.
   */
  lemma ReversedTaskSinksTheBatch(r: Run, id: nat, now: int, rest: seq<Item>, policy: Policy, graceHours: int)
    requires Inv(r) && id < |r.store.rows|
    requires r.store.rows[id].status == Status.Complete && now < r.store.rows[id].dueAt
    ensures var again := Step(Step(r, Reverse(id, now)), Event.Complete(id, now, true));
            Batch(again.store, [Item(id, true, false, now)] + rest, policy, graceHours) == Err(DuplicateEntry)
  {
    ReversedThenSubmitted(r, id, now);
    var again := Step(Step(r, Reverse(id, now)), Event.Complete(id, now, true));
    var items := [Item(id, true, false, now)] + rest;
    BatchAbortsIff(again, items, policy, graceHours);
    assert BringsDown(again.store, items, policy, graceHours, 0);
  }
}
