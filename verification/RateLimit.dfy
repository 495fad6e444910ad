/** The fixed-window attempt limiter: one Redis counter with a time to live per key. */
module RateLimit {
  import opened Domain

  /** The counter key: gone, or holding a count until it expires, if an expiry was ever armed. */
  datatype Counter = Absent | Counting(count: nat, expires: Option<int>)

  predicate Alive(c: Counter, now: int) {
    c.Counting? && (c.expires.Some? ==> now < c.expires.value)
  }

  /** INCR: a missing key starts at one, without an expiry. */
  function Incr(c: Counter, now: int): Counter {
    if Alive(c, now) then c.(count := c.count + 1) else Counting(1, None)
  }

  /** One attempt: INCR, then EXPIRE if the increment created the key. */
  function Increment(c: Counter, now: int, window: int): Counter {
    var bumped := Incr(c, now);
    if bumped.Counting? && bumped.count == 1 then bumped.(expires := Some(now + window)) else bumped
  }

  class Limiter {
    var counter: Counter

    constructor ()
      ensures counter == Absent
    {
      counter := Absent;
    }

    method CheckRateLimit(now: int, maxAttempts: int, window: int) returns (allowed: bool)
      modifies this
      ensures counter == Increment(old(counter), now, window)
      ensures counter.Counting? && (allowed <==> counter.count <= maxAttempts)
    {
      counter := Incr(counter, now);
      var count := counter.count;
      if count == 1 {
        counter := counter.(expires := Some(now + window));
      }
      allowed := !(count > maxAttempts);
    }
  }

  function From(c: Counter, times: seq<int>, window: int): Counter {
    if times == [] then c else Increment(From(c, times[..|times| - 1], window), times[|times| - 1], window)
  }

  // ---------------------------------------------------------------- histories

  /** One attempt: when, which window it fell in (by its opening), its rank there, and the answer. */
  datatype Attempt = Attempt(at: int, since: int, rank: nat, allowed: bool)

  function CounterAfter(times: seq<int>, window: int): Counter {
    From(Absent, times, window)
  }

  /** When the counter's current window opened. */
  function Since(c: Counter, window: int): int {
    if c.Counting? && c.expires.Some? then c.expires.value - window else 0
  }

  function Count(c: Counter): nat {
    if c.Counting? then c.count else 0
  }

  function Log(times: seq<int>, maxAttempts: int, window: int): seq<Attempt> {
    if times == [] then []
    else
      var c := CounterAfter(times, window);
      Log(times[..|times| - 1], maxAttempts, window)
      + [Attempt(times[|times| - 1], Since(c, window), Count(c), Count(c) <= maxAttempts)]
  }

  predicate Monotone(times: seq<int>) {
    forall j, k :: 0 <= j < k < |times| ==> times[j] <= times[k]
  }

  function Attempts(log: seq<Attempt>, since: int): nat {
    if log == [] then 0
    else Attempts(log[..|log| - 1], since) + (if log[|log| - 1].since == since then 1 else 0)
  }

  function Admitted(log: seq<Attempt>, since: int): nat {
    if log == [] then 0
    else
      var last := log[|log| - 1];
      Admitted(log[..|log| - 1], since) + (if last.since == since && last.allowed then 1 else 0)
  }

  /** Attempts admitted in the interval of one window's length from `from`. */
  function AdmittedWithin(log: seq<Attempt>, from: int, window: int): nat {
    if log == [] then 0
    else
      var last := log[|log| - 1];
      AdmittedWithin(log[..|log| - 1], from, window) + (if last.allowed && from <= last.at < from + window then 1 else 0)
  }

  function Min(a: int, b: int): int {
    if a < b then a else b
  }

  /** The counter counts the current window's attempts, and no earlier window reaches into it. */
  ghost predicate Current(times: seq<int>, maxAttempts: int, window: int) {
    times != [] ==>
      var log, c := Log(times, maxAttempts, window), CounterAfter(times, window);
      var since := Since(c, window);
      && |log| == |times| && c.Counting? && c.expires.Some? && c.count >= 1
      && c.count == Attempts(log, since)
      && since <= times[|times| - 1] < c.expires.value
      && forall k :: 0 <= k < |log| ==> log[k].since <= since
  }

  lemma NoneYet(log: seq<Attempt>, since: int)
    requires forall k :: 0 <= k < |log| ==> log[k].since < since
    ensures Attempts(log, since) == 0
  {
  }

  lemma LogStep(times: seq<int>, maxAttempts: int, window: int)
    requires times != []
    ensures var log := Log(times, maxAttempts, window);
            && log != [] && log[..|log| - 1] == Log(times[..|times| - 1], maxAttempts, window)
            && var c := CounterAfter(times, window);
               log[|log| - 1] == Attempt(times[|times| - 1], Since(c, window), Count(c), Count(c) <= maxAttempts)
  {
  }

  lemma {:induction false} CounterIsCurrent(times: seq<int>, maxAttempts: int, window: int)
    requires window > 0 && Monotone(times)
    ensures Current(times, maxAttempts, window)
  {
    if times != [] {
      var before := times[..|times| - 1];
      CounterIsCurrent(before, maxAttempts, window);
      LogStep(times, maxAttempts, window);
      var c := CounterAfter(before, window);
      if !Alive(c, times[|times| - 1]) {
        NoneYet(Log(before, maxAttempts, window), times[|times| - 1]);
      }
    }
  }

  /** Each window admits exactly the first `maxAttempts` of its attempts. */
  lemma {:induction false} WindowAdmitsExactly(times: seq<int>, maxAttempts: int, window: int, since: int)
    requires window > 0 && Monotone(times)
    ensures var log := Log(times, maxAttempts, window);
            Admitted(log, since) == Min(Attempts(log, since), Max(0, maxAttempts))
  {
    if times != [] {
      WindowAdmitsExactly(times[..|times| - 1], maxAttempts, window, since);
      CounterIsCurrent(times, maxAttempts, window);
      LogStep(times, maxAttempts, window);
    }
  }

  /**
   * What an interval has admitted up to an attempt, by when that attempt's window opened:
   * nothing before the interval begins, at most one window's worth while only one window
   * reaches into it, at most two after.
   */
  predicate Bounded(inside: int, most: int, from: int, window: int, at: int, since: int, count: int) {
    && inside <= 2 * most
    && (at < from ==> inside == 0)
    && (since < from ==> inside <= Min(count, most))
    && (since < from + window ==> inside <= most + Min(count, most))
  }

  function Admits(rank: int, maxAttempts: int, from: int, window: int, at: int): int {
    if rank <= maxAttempts && from <= at < from + window then 1 else 0
  }

  lemma FirstAttemptBounded(maxAttempts: int, from: int, window: int, at: int)
    ensures Bounded(Admits(1, maxAttempts, from, window, at), Max(0, maxAttempts), from, window, at, at, 1)
  {
  }

  lemma SameWindowBounded(inside: int, maxAttempts: int, from: int, window: int, at: int, since: int, count: int, next: int)
    requires Bounded(inside, Max(0, maxAttempts), from, window, at, since, count)
    requires at <= next && since <= next && count >= 1
    ensures Bounded(inside + Admits(count + 1, maxAttempts, from, window, next), Max(0, maxAttempts), from, window, next, since, count + 1)
  {
  }

  lemma NewWindowBounded(inside: int, maxAttempts: int, from: int, window: int, at: int, since: int, count: int, next: int)
    requires Bounded(inside, Max(0, maxAttempts), from, window, at, since, count)
    requires at <= next && since + window <= next && count >= 1
    ensures Bounded(inside + Admits(1, maxAttempts, from, window, next), Max(0, maxAttempts), from, window, next, next, 1)
  {
  }

  /** How an attempt moves the counter: within its window, or into a new one. */
  lemma CounterMoves(times: seq<int>, maxAttempts: int, window: int)
    requires window > 0 && Monotone(times) && |times| > 1
    ensures var next, c, d := times[|times| - 1], CounterAfter(times[..|times| - 1], window), CounterAfter(times, window);
            && Count(c) >= 1 && Since(c, window) <= next
            && if next < Since(c, window) + window
               then Since(d, window) == Since(c, window) && Count(d) == Count(c) + 1
               else Since(d, window) == next && Count(d) == 1
  {
    CounterIsCurrent(times[..|times| - 1], maxAttempts, window);
  }

  lemma FirstCount(at: int, window: int)
    ensures Since(CounterAfter([at], window), window) == at && Count(CounterAfter([at], window)) == 1
  {
    assert CounterAfter([], window) == Absent;
  }

  lemma AdmittedStep(times: seq<int>, maxAttempts: int, window: int, from: int)
    requires times != []
    ensures var n := |times| - 1;
            AdmittedWithin(Log(times, maxAttempts, window), from, window)
            == AdmittedWithin(Log(times[..n], maxAttempts, window), from, window)
               + Admits(Count(CounterAfter(times, window)), maxAttempts, from, window, times[n])
  {
    LogStep(times, maxAttempts, window);
  }

  lemma {:induction false} IntervalByWindow(times: seq<int>, maxAttempts: int, window: int, from: int)
    requires window > 0 && Monotone(times) && times != []
    ensures var c := CounterAfter(times, window);
            Bounded(AdmittedWithin(Log(times, maxAttempts, window), from, window), Max(0, maxAttempts), from, window,
                    times[|times| - 1], Since(c, window), Count(c))
  {
    var n := |times| - 1;
    var before, next := times[..n], times[n];
    AdmittedStep(times, maxAttempts, window, from);
    if n == 0 {
      assert times == [next];
      FirstCount(next, window);
      FirstAttemptBounded(maxAttempts, from, window, next);
    } else {
      var c := CounterAfter(before, window);
      var inside := AdmittedWithin(Log(before, maxAttempts, window), from, window);
      IntervalByWindow(before, maxAttempts, window, from);
      CounterMoves(times, maxAttempts, window);
      if next < Since(c, window) + window {
        SameWindowBounded(inside, maxAttempts, from, window, before[n - 1], Since(c, window), Count(c), next);
      } else {
        NewWindowBounded(inside, maxAttempts, from, window, before[n - 1], Since(c, window), Count(c), next);
      }
    }
  }

  /** However attempts are spaced, no interval of one window's length admits more than twice the limit. */
  lemma IntervalAdmitsAtMostTwice(times: seq<int>, maxAttempts: int, window: int, from: int)
    requires window > 0 && Monotone(times)
    ensures AdmittedWithin(Log(times, maxAttempts, window), from, window) <= 2 * Max(0, maxAttempts)
  {
    if times != [] {
      IntervalByWindow(times, maxAttempts, window, from);
    }
  }

  // ---------------------------------------------------------------- attempts that die half-way

  /** An attempt; `dies` when the process ends between the INCR and the EXPIRE, so that nothing is answered. */
  datatype Try = Try(at: int, dies: bool)

  function One(c: Counter, t: Try, window: int): Counter {
    if t.dies then Incr(c, t.at) else Increment(c, t.at, window)
  }

  function Onward(c: Counter, tries: seq<Try>, window: int): Counter {
    if tries == [] then c else One(Onward(c, tries[..|tries| - 1], window), tries[|tries| - 1], window)
  }

  function Through(tries: seq<Try>, window: int): Counter {
    Onward(Absent, tries, window)
  }

  /** The k-th attempt created the counter and died before it could arm the expiry. */
  ghost predicate DiedOpening(tries: seq<Try>, window: int, k: nat) {
    k < |tries| && tries[k].dies && !Alive(Through(tries[..k], window), tries[k].at)
  }

  lemma {:induction false} NoDeathsNoChange(c: Counter, tries: seq<Try>, times: seq<int>, window: int)
    requires |tries| == |times| && forall k :: 0 <= k < |tries| ==> tries[k] == Try(times[k], false)
    ensures Onward(c, tries, window) == From(c, times, window)
  {
    if tries != [] {
      NoDeathsNoChange(c, tries[..|tries| - 1], times[..|times| - 1], window);
    }
  }

  ghost predicate Unarmed(c: Counter) {
    c.Counting? && c.expires == None
  }

  lemma {:induction false} Counted(tries: seq<Try>, window: int)
    ensures Through(tries, window).Counting? ==> Through(tries, window).count >= 1
  {
    if tries != [] {
      Counted(tries[..|tries| - 1], window);
    }
  }

  /** The counter is left without an expiry exactly when some attempt that had to open a window died half-way. */
  lemma {:induction false} CounterIsUnarmedIff(tries: seq<Try>, window: int)
    ensures Unarmed(Through(tries, window)) <==> exists k :: DiedOpening(tries, window, k)
  {
    if tries != [] {
      var n := |tries| - 1;
      CounterIsUnarmedIff(tries[..n], window);
      Counted(tries[..n], window);
      forall k: nat | k < n
        ensures DiedOpening(tries, window, k) <==> DiedOpening(tries[..n], window, k)
      {
        assert tries[..n][..k] == tries[..k];
      }
      if Unarmed(Through(tries, window)) {
        if Unarmed(Through(tries[..n], window)) {
          var k: nat :| DiedOpening(tries[..n], window, k);
          assert DiedOpening(tries, window, k);
        } else {
          assert DiedOpening(tries, window, n);
        }
      }
      if k: nat :| DiedOpening(tries, window, k) {
        assert k < n ==> DiedOpening(tries[..n], window, k);
      }
    }
  }

  predicate InTurn(tries: seq<Try>) {
    forall j, k :: 0 <= j < k < |tries| ==> tries[j].at <= tries[k].at
  }

  lemma {:induction false} ArmedEndsInTime(tries: seq<Try>, window: int)
    requires window > 0 && InTurn(tries) && tries != []
    ensures var c := Through(tries, window);
            c.Counting? && (c.expires.Some? ==> c.expires.value <= tries[|tries| - 1].at + window)
  {
    var before := tries[..|tries| - 1];
    assert Through(tries, window) == One(Through(before, window), tries[|tries| - 1], window);
    if before == [] {
      assert Through(before, window) == Absent;
    } else {
      ArmedEndsInTime(before, window);
    }
  }

  /**
   * A counter is meant to last one window. Left alone for that long it is gone exactly when
   * no attempt that opened a window died half-way; otherwise it never goes.
   */
  lemma WindowEndsIff(tries: seq<Try>, window: int, now: int)
    requires window > 0 && InTurn(tries) && tries != [] && tries[|tries| - 1].at + window <= now
    ensures !Alive(Through(tries, window), now) <==> !exists k :: DiedOpening(tries, window, k)
  {
    CounterIsUnarmedIff(tries, window);
    ArmedEndsInTime(tries, window);
  }

  /** The attempt is answered, and admitted. */
  predicate Answered(c: Counter, t: Try, maxAttempts: int, window: int) {
    !t.dies && Count(One(c, t, window)) <= maxAttempts
  }

  /** A counter without an expiry only ever grows, at whatever times it is tried. */
  lemma {:induction false} UnarmedCounterNeverResets(c: Counter, later: seq<Try>, window: int)
    requires Unarmed(c) && c.count >= 1
    ensures Onward(c, later, window) == Counting(c.count + |later|, None)
  {
    if later != [] {
      UnarmedCounterNeverResets(c, later[..|later| - 1], window);
    }
  }

  /**
   * So after such a death what is left of the limit is all there will ever be: of the later
   * attempts exactly those are admitted that do not die and come before it is used up, and
   * once it is, none is, however long one waits.
   */
  lemma DeathLocksOut(tries: seq<Try>, later: seq<Try>, maxAttempts: int, window: int, k: nat, died: nat)
    requires DiedOpening(tries, window, died) && k < |later|
    ensures Through(tries, window).Counting?
    ensures Answered(Onward(Through(tries, window), later[..k], window), later[k], maxAttempts, window)
            <==> !later[k].dies && Through(tries, window).count + k < maxAttempts
  {
    CounterIsUnarmedIff(tries, window);
    Counted(tries, window);
    UnarmedCounterNeverResets(Through(tries, window), later[..k], window);
  }

  /** Where nothing dies, a later attempt after a whole window's wait is admitted; here it is refused, a year on. */
  lemma OneDeathRefusesForGood()
    ensures var tries := [Try(0, true), Try(1, false)];
            var year := 365 * 86_400;
            && DiedOpening(tries, 60, 0)
            && !Answered(Through(tries, 60), Try(year, false), 2, 60)
            && Answered(Through([Try(0, false), Try(1, false)], 60), Try(year, false), 2, 60)
  {
    TwoTries(Try(0, true), Try(1, false), 60);
    TwoTries(Try(0, false), Try(1, false), 60);
    assert [Try(0, true), Try(1, false)][..0] == [];
  }

  lemma TwoTries(a: Try, b: Try, window: int)
    ensures Through([a, b], window) == One(One(Absent, a, window), b, window)
  {
    assert [a, b][..1] == [a] && [a][..0] == [];
    assert Onward(Absent, [a], window) == One(Absent, a, window);
  }
}
