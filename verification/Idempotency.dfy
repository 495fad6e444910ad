/**
 * Idempotent completion: a cache of responses by request key in front of the handler.
 * The key is looked up, the handler runs on a miss, and only then is the key set.
 */
module Idempotency {
  import opened Domain
  import opened Ledger
  import opened Points
  import opened Runs
  import RunTheorems
  import Interleaving
  import S = Session

  /** 24 hours, in microseconds. */
  const TTL: int := 24 * 60 * 60 * MICROS

  datatype Cached = Cached(response: TaskRow, expires: int)

  type Cache = map<nat, Cached>

  predicate Live(c: Cache, key: nat, now: int) {
    key in c && now < c[key].expires
  }

  /** SET ... EX ttl NX. */
  function SetNx(c: Cache, key: nat, response: TaskRow, now: int): Cache {
    if Live(c, key, now) then c else c[key := Cached(response, now + TTL)]
  }

  datatype World = World(run: Run, cache: Cache)

  datatype Request =
    | Attempt(key: nat, id: nat, now: int, requiresReview: bool, commitFails: bool)
    | Other(event: Event)

  /** What the request layer answers: the cached response, the fresh row, or the failure. */
  ghost function Reply(w: World, q: Request): Result<TaskRow>
    requires q.Attempt?
  {
    if Live(w.cache, q.key, q.now) then Ok(w.cache[q.key].response)
    else
      var done :- CompleteTask(w.run.store, q.id, q.now, q.requiresReview);
      Ok(done.rows[q.id])
  }

  /**
   * The key is set after the handler and before the session commits, so a commit that
   * fails leaves the response cached and nothing stored.
   */
  ghost function Serve(w: World, q: Request): World {
    match q
    case Other(event) => w.(run := Step(w.run, event))
    case Attempt(key, id, now, requiresReview, commitFails) =>
      if Live(w.cache, key, now) then w
      else match CompleteTask(w.run.store, id, now, requiresReview)
        case Err(_) => w
        case Ok(done) =>
          World(if commitFails then w.run else w.run.(store := done), SetNx(w.cache, key, done.rows[id], now))
  }

  ghost function ServeAll(w: World, qs: seq<Request>): World {
    if qs == [] then w else Serve(ServeAll(w, qs[..|qs| - 1]), qs[|qs| - 1])
  }

  // ---------------------------------------------------------------- theorems

  lemma AttemptIsAStep(w: World, q: Request)
    requires q.Attempt?
    ensures Serve(w, q).run == w.run || Serve(w, q).run == Step(w.run, Event.Complete(q.id, q.now, q.requiresReview))
  {
  }

  /** Whatever is served, the state is one a run of transactions reaches. */
  lemma {:induction false} ServedIsARun(w: World, qs: seq<Request>) returns (events: seq<Event>)
    ensures ServeAll(w, qs).run == After(w.run, events)
  {
    events := [];
    if qs != [] {
      var n := |qs| - 1;
      var before := ServedIsARun(w, qs[..n]);
      var mid := ServeAll(w, qs[..n]);
      var event := if qs[n].Other? then qs[n].event else Event.Complete(qs[n].id, qs[n].now, qs[n].requiresReview);
      if qs[n].Attempt? {
        AttemptIsAStep(mid, qs[n]);
      }
      assert (before + [event])[..|before|] == before;
      events := if ServeAll(w, qs).run == mid.run then before else before + [event];
    }
  }

  /** No request serves the key after its cached response has died. */
  ghost predicate KeyLiveThroughout(c: Cache, key: nat, qs: seq<Request>) {
    key in c && forall k :: 0 <= k < |qs| && qs[k].Attempt? && qs[k].key == key ==> qs[k].now < c[key].expires
  }

  /**
   * While the cached response lives, whatever else is served in between, every replay
   * returns the first response and changes nothing.
   */
  lemma {:induction false} LiveReplayReturnsFirstResponse(w: World, qs: seq<Request>, key: nat)
    requires KeyLiveThroughout(w.cache, key, qs)
    ensures key in ServeAll(w, qs).cache && ServeAll(w, qs).cache[key] == w.cache[key]
    ensures forall q: Request :: q.Attempt? && q.key == key && q.now < w.cache[key].expires ==>
              && Reply(ServeAll(w, qs), q) == Ok(w.cache[key].response)
              && Serve(ServeAll(w, qs), q) == ServeAll(w, qs)
  {
    if qs != [] {
      LiveReplayReturnsFirstResponse(w, qs[..|qs| - 1], key);
    }
  }

  /**
   * On a miss that is answered, the state is stored exactly when the commit goes through;
   * if it fails, replays go on reporting success for as long as the response lives.
   */
  lemma AnsweredIsStoredIffCommitted(w: World, q: Request, qs: seq<Request>)
    requires q.Attempt? && !Live(w.cache, q.key, q.now) && Reply(w, q).Ok?
    requires KeyLiveThroughout(Serve(w, q).cache, q.key, qs)
    ensures Serve(w, q).run.store == CompleteTask(w.run.store, q.id, q.now, q.requiresReview).value <==> !q.commitFails
    ensures q.commitFails ==> Serve(w, q).run == w.run
    ensures forall replay: Request :: replay.Attempt? && replay.key == q.key && replay.now < q.now + TTL ==>
              Reply(ServeAll(Serve(w, q), qs), replay) == Reply(w, q)
  {
    FirstAnswerIsCached(w, q);
    LiveReplayReturnsFirstResponse(Serve(w, q), qs, q.key);
    CompletingChangesTheStore(w.run.store, q.id, q.now, q.requiresReview);
  }

  function Without(qs: seq<Request>, key: nat): seq<Request> {
    if qs == [] then []
    else
      var last := qs[|qs| - 1];
      Without(qs[..|qs| - 1], key) + (if last.Attempt? && last.key == key then [] else [last])
  }

  ghost predicate SameElsewhere(a: Cache, b: Cache, key: nat) {
    forall other: nat :: other != key ==> (other in a <==> other in b) && (other in a ==> a[other] == b[other])
  }

  /** The worlds differ at most in what is cached under one key. */
  ghost predicate SameBut(a: World, b: World, key: nat) {
    a.run == b.run && SameElsewhere(a.cache, b.cache, key)
  }

  lemma ServeElsewhere(a: World, b: World, key: nat, q: Request)
    requires SameBut(a, b, key) && !(q.Attempt? && q.key == key)
    ensures SameBut(Serve(a, q), Serve(b, q), key)
  {
  }

  lemma {:induction false} KeyedAttemptsDropOut(a: World, b: World, qs: seq<Request>, key: nat)
    requires SameBut(a, b, key) && KeyLiveThroughout(a.cache, key, qs)
    ensures SameBut(ServeAll(a, qs), ServeAll(b, Without(qs, key)), key)
  {
    if qs != [] {
      var n := |qs| - 1;
      var other := Without(qs[..n], key);
      KeyedAttemptsDropOut(a, b, qs[..n], key);
      LiveReplayReturnsFirstResponse(a, qs[..n], key);
      if qs[n].Attempt? && qs[n].key == key {
        assert Without(qs, key) == other;
      } else {
        ServeElsewhere(ServeAll(a, qs[..n]), ServeAll(b, other), key, qs[n]);
        assert (other + [qs[n]])[..|other|] == other;
      }
    }
  }

  /**
   * A request whose commit fails is lost for as long as its response lives: each retry is
   * answered with the first success, and the state is as if neither the request nor any of
   * its retries had ever been made.
   */
  lemma FailedCommitLosesTheRequest(w: World, q: Request, qs: seq<Request>)
    requires q.Attempt? && !Live(w.cache, q.key, q.now) && Reply(w, q).Ok? && q.commitFails
    requires KeyLiveThroughout(Serve(w, q).cache, q.key, qs)
    ensures ServeAll(Serve(w, q), qs).run == ServeAll(w, Without(qs, q.key)).run
    ensures forall k :: 0 <= k < |qs| && qs[k].Attempt? && qs[k].key == q.key ==>
              Reply(ServeAll(Serve(w, q), qs[..k]), qs[k]) == Reply(w, q)
  {
    FirstAnswerIsCached(w, q);
    KeyedAttemptsDropOut(Serve(w, q), w, qs, q.key);
    forall k | 0 <= k < |qs| && qs[k].Attempt? && qs[k].key == q.key
      ensures Reply(ServeAll(Serve(w, q), qs[..k]), qs[k]) == Reply(w, q)
    {
      LiveReplayReturnsFirstResponse(Serve(w, q), qs[..k], q.key);
    }
  }

  lemma CompletingChangesTheStore(s: Store, id: nat, now: int, requiresReview: bool)
    requires CompleteTask(s, id, now, requiresReview).Ok?
    ensures CompleteTask(s, id, now, requiresReview).value.rows != s.rows
  {
    var out := CompleteTask(s, id, now, requiresReview).value;
    assert out.rows[id].status in {Status.Complete, ReviewPending};
    assert s.rows[id].status in {Pending, Overdue};
  }

  /** A first answer is cached for the full period, so the replays above apply to it. */
  lemma FirstAnswerIsCached(w: World, q: Request)
    requires q.Attempt? && !Live(w.cache, q.key, q.now) && Reply(w, q).Ok?
    ensures var cached := Serve(w, q).cache;
            q.key in cached && cached[q.key] == Cached(Reply(w, q).value, q.now + TTL)
  {
  }

  /** What a miss answers is the instance as its completion leaves it: complete, or waiting for review, as of its own instant. */
  lemma MissAnswersTheCompletedRow(w: World, q: Request)
    requires q.Attempt? && !Live(w.cache, q.key, q.now) && Reply(w, q).Ok?
    ensures q.id < |w.run.store.rows|
    ensures Reply(w, q).value == w.run.store.rows[q.id].(status := if q.requiresReview then ReviewPending else Status.Complete,
                                                         completedAt := Some(q.now))
    ensures !q.commitFails ==> q.id < |Serve(w, q).run.store.rows| && Serve(w, q).run.store.rows[q.id] == Reply(w, q).value
  {
    RunTheorems.CompletionRows(w.run.store, q.id, q.now, q.requiresReview);
  }

  /**
   * A first answer serves replays for a day of 86,400 seconds, in microseconds, and not an
   * instant longer: from then on a retry runs again.
   */
  lemma AnswerLivesADay(w: World, q: Request, replay: Request)
    requires q.Attempt? && !Live(w.cache, q.key, q.now) && Reply(w, q).Ok?
    requires replay.Attempt? && replay.key == q.key
    ensures Live(Serve(w, q).cache, q.key, replay.now) <==> replay.now < q.now + 86_400_000_000
    ensures replay.now < q.now + 86_400_000_000 ==> Reply(Serve(w, q), replay) == Reply(w, q)
    ensures q.now + 86_400_000_000 <= replay.now ==>
              var s := Serve(w, q).run.store;
              var again := CompleteTask(s, replay.id, replay.now, replay.requiresReview);
              (Reply(Serve(w, q), replay).Ok? <==> again.Ok?) && (again.Err? ==> Reply(Serve(w, q), replay) == Err(again.why))
  {
    FirstAnswerIsCached(w, q);
  }

  /**
   * Once an instance has been paid, completing it without review never succeeds again:
   * with or without a live cache, before or after a reversal, a retry stores nothing.
   */
  lemma PaidRetryStoresNothing(w: World, q: Request)
    requires Inv(w.run) && q.Attempt? && !q.requiresReview
    requires q.id < |w.run.store.rows| && HasTask(w.run.store.ledger, q.id, TaskCompleted)
    ensures Serve(w, q) == w
  {
    var row := w.run.store.rows[q.id];
    if row.status in {Pending, Overdue} {
      OpenRowPaidIffReversed(w.run, q.id);
      CompleteTaskKeeps(w.run, q.id, q.now, false);
    }
  }

  /**
   * Over any serial traffic, paid before or not, what an instance has been paid for its
   * completion is its point value, once, or nothing; once paid it stays so.
   */
  lemma RetriesPayAtMostOnce(w: World, qs: seq<Request>, id: nat)
    requires Inv(w.run) && id < |w.run.store.rows|
    ensures var before, after := w.run.store, ServeAll(w, qs).run.store;
            && Interleaving.SlotSum(after.ledger, id, TaskCompleted)
               == (if HasTask(after.ledger, id, TaskCompleted) then before.rows[id].pointValue else 0)
            && (HasTask(before.ledger, id, TaskCompleted) ==> HasTask(after.ledger, id, TaskCompleted))
  {
    var events := ServedIsARun(w, qs);
    InvForever(w.run, events);
    RunTheorems.RowsOnlyGrow(w.run, events);
    RunTheorems.LedgerIsAppendOnly(w.run, events);
    var l := After(w.run, events).store.ledger;
    if HasTask(w.run.store.ledger, id, TaskCompleted) {
      RunTheorems.PrefixKeepsRow(w.run.store.ledger, l, id, TaskCompleted);
    }
    CompletionSlot(After(w.run, events), id);
  }

  lemma CompletionSlot(r: Run, id: nat)
    requires LedgerOk(r.store) && id < |r.store.rows|
    ensures Interleaving.SlotSum(r.store.ledger, id, TaskCompleted)
            == if HasTask(r.store.ledger, id, TaskCompleted) then r.store.rows[id].pointValue else 0
  {
    var l := r.store.ledger;
    if HasTask(l, id, TaskCompleted) {
      var k: nat :| k < |l| && l[k].task == Some(id) && l[k].kind == TaskCompleted;
      Interleaving.SlotCountsOnce(l, id, TaskCompleted, k);
    } else {
      Interleaving.EmptySlot(l, id, TaskCompleted);
    }
  }

  /** The store is what the k-th of the retries makes of `s`, alone. */
  ghost predicate OnlyOneDid(s: Store, t: Store, qs: seq<Request>, k: nat) {
    && k < |qs| && qs[k].Attempt?
    && CompleteTask(s, qs[k].id, qs[k].now, qs[k].requiresReview) == Ok(t)
  }

  /**
   * However often a completion is retried, under whatever keys, cached or not, and
   * whichever commits fail: the state is untouched, or it is as if one retry had been made.
   */
  lemma {:induction false} RetriesTakeEffectOnce(w: World, qs: seq<Request>, id: nat)
    requires forall k :: 0 <= k < |qs| ==> qs[k].Attempt? && qs[k].id == id
    ensures ServeAll(w, qs).run.policies == w.run.policies
    ensures ServeAll(w, qs).run.store == w.run.store
            || exists k :: OnlyOneDid(w.run.store, ServeAll(w, qs).run.store, qs, k)
  {
    if qs != [] {
      var n := |qs| - 1;
      var mid, q := ServeAll(w, qs[..n]), qs[n];
      RetriesTakeEffectOnce(w, qs[..n], id);
      if mid.run.store == w.run.store {
        assert ServeAll(w, qs).run.store != w.run.store ==> OnlyOneDid(w.run.store, ServeAll(w, qs).run.store, qs, n);
      } else {
        var k: nat :| OnlyOneDid(w.run.store, mid.run.store, qs[..n], k);
        CompletedTaskIsShut(w.run.store, mid.run.store, id, qs[k].now, qs[k].requiresReview);
        assert OnlyOneDid(w.run.store, mid.run.store, qs, k);
      }
    }
  }

  lemma CompletedTaskIsShut(s: Store, t: Store, id: nat, now: int, requiresReview: bool)
    requires CompleteTask(s, id, now, requiresReview) == Ok(t)
    ensures forall later, review :: CompleteTask(t, id, later, review).Err?
  {
    assert t.rows[id].status in {Status.Complete, ReviewPending};
  }

  /**
   * A retry that comes after the cache has expired is a new submission exactly when the
   * instance is open again and would not be paid twice: after a denied review, that is.
   */
  lemma LateRetrySubmitsAgainIff(w: World, q: Request)
    requires Inv(w.run) && q.Attempt? && q.id < |w.run.store.rows| && !Live(w.cache, q.key, q.now)
    ensures Serve(w, q) != w
            <==> && w.run.store.rows[q.id].status in {Pending, Overdue}
                 && (q.requiresReview || !HasTask(w.run.store.ledger, q.id, Reversal))
  {
    CompleteTaskKeeps(w.run, q.id, q.now, q.requiresReview);
    var out := CompleteTask(w.run.store, q.id, q.now, q.requiresReview);
    if out.Ok? {
      assert q.key in Serve(w, q).cache && Serve(w, q).cache[q.key].expires == q.now + TTL;
      assert q.key in w.cache ==> w.cache[q.key].expires <= q.now;
    }
  }

  /** The cache in front of one request's session. */
  class ResponseCache {
    var entries: Cache

    constructor ()
      ensures entries == map[]
    {
      entries := map[];
    }

    method RunIdempotent(session: S.DbSession, key: nat, id: nat, now: int, requiresReview: bool, commitFails: bool)
      returns (reply: Result<TaskRow>)
      requires session.View() == session.saved
      modifies this, session
      ensures forall policies ::
                var w := World(Run(old(session.View()), policies), old(entries));
                var q := Attempt(key, id, now, requiresReview, commitFails);
                && reply == Reply(w, q)
                && Serve(w, q) == World(Run(session.View(), policies), entries)
      ensures session.View() == session.saved
    {
      if Live(entries, key, now) {
        return Ok(entries[key].response);
      }
      var error := session.CompleteDo(id, now, requiresReview);
      if error.Some? {
        session.Rollback();
        return Err(error.value);
      }
      var response := session.rows[id];
      entries := SetNx(entries, key, response, now);
      if commitFails {
        session.Rollback();
      } else {
        session.Commit();
      }
      return Ok(response);
    }
  }
}
