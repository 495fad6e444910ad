/**
 * What the grace clock really charges over a whole run of one row, measured against
 * an observer who keeps the true overdue time, split into running and paused.
 */
module GraceClock {
  import opened Domain
  import opened StateMachine

  /** Overdue time at `t`, paused or not. */
  function Over(dueAt: int, t: int): int {
    Max(0, t - dueAt)
  }

  /**
   * The observer. `running` and `held` split the overdue time up to `last` into time
   * with the clock running and time with it paused; `suspensions` and `resumptions`
   * are the instants at which the clock stopped and started again.
   */
  datatype Watch = Watch(
    row: TaskRow,
    last: int,
    running: int,
    held: int,
    suspensions: seq<int>,
    resumptions: seq<int>)

  function Running(w: Watch, now: int): int {
    if w.row.pausedAt.None? then w.running + Over(w.row.dueAt, now) - Over(w.row.dueAt, w.last) else w.running
  }

  function Held(w: Watch, now: int): int {
    if w.row.pausedAt.None? then w.held else w.held + Over(w.row.dueAt, now) - Over(w.row.dueAt, w.last)
  }

  function Advance(w: Watch, row: TaskRow, now: int): Watch {
    var stopped := w.row.pausedAt.None? && row.pausedAt.Some?;
    var started := w.row.pausedAt.Some? && row.pausedAt.None?;
    Watch(row, now, Running(w, now), Held(w, now),
          if stopped then w.suspensions + [now] else w.suspensions,
          if started then w.resumptions + [now] else w.resumptions)
  }

  function Tick(w: Watch, a: Action): Watch {
    Advance(w, Act(w.row, a), a.now)
  }

  function Follow(row: TaskRow, created: int, acts: seq<Action>): Watch {
    if acts == [] then
      Watch(row, created, Over(row.dueAt, created), 0, [], [])
    else
      Tick(Follow(row, created, acts[..|acts| - 1]), acts[|acts| - 1])
  }

  predicate Chronological(start: int, acts: seq<Action>) {
    && (forall k :: 0 <= k < |acts| ==> start <= acts[k].now)
    && (forall j, k :: 0 <= j < k < |acts| ==> acts[j].now <= acts[k].now)
  }

  function End(start: int, acts: seq<Action>): int {
    if acts == [] then start else acts[|acts| - 1].now
  }

  /** The sum over suspensions of the whole overdue seconds at each. */
  function Charged(dueAt: int, suspensions: seq<int>): int {
    if suspensions == [] then 0
    else Charged(dueAt, suspensions[..|suspensions| - 1]) + Over(dueAt, suspensions[|suspensions| - 1]) / MICROS
  }

  ghost predicate Inv(w: Watch) {
    var due := w.row.dueAt;
    && RowOk(w.row)
    && w.running >= 0 && w.held >= 0
    && w.running + w.held == Over(due, w.last)
    && w.row.elapsed == Charged(due, w.suspensions)
    && |w.suspensions| == |w.resumptions| + (if w.row.pausedAt.Some? then 1 else 0)
    && (w.row.pausedAt.Some? ==>
          var s := w.row.pausedAt.value;
          && s == w.suspensions[|w.suspensions| - 1] <= w.last
          && w.running <= Over(due, s)
          && w.row.elapsed >= Over(due, s) / MICROS)
    && (|w.suspensions| == 0 ==> w.held == 0)
    && (|w.suspensions| == 1 ==>
          var s := w.suspensions[0];
          && s <= w.last
          && w.held == if w.row.pausedAt.Some? then Over(due, w.last) - Over(due, s)
                       else Over(due, w.resumptions[0]) - Over(due, s))
    && (|w.resumptions| == 1 == |w.suspensions| ==> w.suspensions[0] <= w.resumptions[0] <= w.last)
  }

  lemma ChargedNonnegative(dueAt: int, suspensions: seq<int>)
    ensures Charged(dueAt, suspensions) >= 0
  {
  }

  lemma SuspendCharges(row: TaskRow, now: int)
    requires row.elapsed >= 0 && row.pausedAt.None?
    ensures SuspendGrace(row, now).elapsed == row.elapsed + Over(row.dueAt, now) / MICROS
  {
  }

  /** All an action can do to the clock: nothing, stop it and count, or start it. */
  ghost predicate ClockStep(row: TaskRow, next: TaskRow, now: int) {
    && next.dueAt == row.dueAt
    && RowOk(next)
    && (|| (next.pausedAt == row.pausedAt && next.elapsed == row.elapsed)
        || (row.pausedAt.None? && next.pausedAt == Some(now)
            && next.elapsed == row.elapsed + Over(row.dueAt, now) / MICROS)
        || (row.pausedAt.Some? && next.pausedAt.None? && next.elapsed == row.elapsed))
  }

  lemma ActIsAClockStep(row: TaskRow, a: Action)
    requires RowOk(row)
    ensures ClockStep(row, Act(row, a), a.now)
  {
    if row.pausedAt.None? {
      SuspendCharges(row, a.now);
    }
  }

  lemma AdvanceKeepsInv(w: Watch, next: TaskRow, now: int)
    requires Inv(w) && w.last <= now && ClockStep(w.row, next, now)
    ensures Inv(Advance(w, next, now))
  {
    var v := Advance(w, next, now);
    ChargedNonnegative(w.row.dueAt, w.suspensions);
    if w.row.pausedAt.None? && next.pausedAt.Some? {
      assert v.suspensions[..|v.suspensions| - 1] == w.suspensions;
    }
  }

  lemma {:induction false} FollowKeepsInv(row: TaskRow, created: int, acts: seq<Action>)
    requires Fresh(row) && Chronological(created, acts)
    ensures Inv(Follow(row, created, acts))
    ensures Follow(row, created, acts).row == Play(row, acts)
    ensures Follow(row, created, acts).last == End(created, acts)
  {
    if acts != [] {
      FollowKeepsInv(row, created, acts[..|acts| - 1]);
      var w := Follow(row, created, acts[..|acts| - 1]);
      var a := acts[|acts| - 1];
      ActIsAClockStep(w.row, a);
      AdvanceKeepsInv(w, Act(w.row, a), a.now);
    }
  }

  // ---------------------------------------------------------------- theorems

  /** The closed form of the stored seconds and of the charge, over every run. */
  lemma ChargeClosedForm(row: TaskRow, created: int, acts: seq<Action>, now: int)
    requires Fresh(row) && Chronological(created, acts)
    ensures var w := Follow(row, created, acts);
            var total := Charged(row.dueAt, w.suspensions);
            && Play(row, acts).elapsed == total
            && GraceUsed(Play(row, acts), now)
               == if w.row.pausedAt.Some? then total * MICROS else Max(total * MICROS, now - row.dueAt)
  {
    FollowKeepsInv(row, created, acts);
    IdentityIsFrozen(row, acts);
  }

  /** The charge never falls short of the true running time, in whole seconds. */
  lemma ChargeNeverUndercounts(row: TaskRow, created: int, acts: seq<Action>, now: int)
    requires Fresh(row) && Chronological(created, acts) && End(created, acts) <= now
    ensures GraceUsed(Play(row, acts), now) / MICROS >= Running(Follow(row, created, acts), now) / MICROS
  {
    FollowKeepsInv(row, created, acts);
  }

  /**
   * After a single suspension made once overdue, the charge exceeds the true running
   * time by exactly the pause: the clock does not resume from where it stopped.
   */
  lemma OnePauseIsChargedInFull(row: TaskRow, created: int, acts: seq<Action>, now: int)
    requires Fresh(row) && Chronological(created, acts) && End(created, acts) <= now
    requires var w := Follow(row, created, acts);
             w.row.pausedAt.None? && |w.suspensions| == 1 && row.dueAt <= w.suspensions[0]
    ensures var w := Follow(row, created, acts);
            && |w.resumptions| == 1
            && GraceUsed(Play(row, acts), now) - Running(w, now) == w.resumptions[0] - w.suspensions[0]
  {
    FollowKeepsInv(row, created, acts);
    IdentityIsFrozen(row, acts);
    var w := Follow(row, created, acts);
    assert Charged(row.dueAt, w.suspensions[..0]) == 0;
  }

  /** One action, and any wait around it, never lowers the charge in whole seconds. */
  lemma ActNeverLowersTheCharge(row: TaskRow, a: Action, from: int, to: int)
    requires RowOk(row) && from <= a.now <= to
    ensures GraceUsed(row, from) / MICROS <= GraceUsed(Act(row, a), to) / MICROS
  {
    var next := Act(row, a);
    ActIsAClockStep(row, a);
    if row.pausedAt.None? && next.pausedAt.Some? {
      assert GraceUsed(row, from) <= row.elapsed * MICROS + Over(row.dueAt, a.now);
    } else {
      assert GraceUsed(row, from) <= GraceUsed(next, to);
    }
  }

  lemma {:induction false} ChargeNeverFalls(row: TaskRow, acts: seq<Action>, from: int, to: int)
    requires RowOk(row) && Chronological(from, acts) && End(from, acts) <= to
    ensures GraceUsed(row, from) / MICROS <= GraceUsed(Play(row, acts), to) / MICROS
  {
    if acts != [] {
      var n := |acts| - 1;
      var mid := End(from, acts[..n]);
      ChargeNeverFalls(row, acts[..n], from, mid);
      RowOkForever(row, acts[..n]);
      ActNeverLowersTheCharge(Play(row, acts[..n]), acts[n], mid, to);
    }
  }

  /**
   * In microseconds the charge can fall, and only in one way: a first suspension, made
   * after the due time and off a whole second, drops the fraction.
   */
  lemma SuspensionDropsFractionIff(row: TaskRow, now: int)
    requires RowOk(row) && row.pausedAt.None?
    ensures GraceUsed(SuspendGrace(row, now), now) < GraceUsed(row, now)
            <==> row.elapsed == 0 && row.dueAt < now && (now - row.dueAt) % MICROS != 0
  {
    SuspendCharges(row, now);
  }

  /** An excuse sent at `submitted` and denied at `denied`. */
  function Denied(row: TaskRow, submitted: int, denied: int, graceHours: int): TaskRow {
    Act(Act(row, DoExcuse(submitted, 10)), DoResolve(denied, false, true, graceHours))
  }

  /** Overdue seconds that the submission adds to the stored ones; an excuse sent before the sweep adds none. */
  function Counted(row: TaskRow, submitted: int): int {
    if row.status == Overdue then Over(row.dueAt, submitted) / MICROS else 0
  }

  lemma DeniedCharge(row: TaskRow, submitted: int, denied: int, graceHours: int)
    requires RowOk(row) && row.status in {Pending, Overdue}
    ensures var after := Denied(row, submitted, denied, graceHours);
            && after.dueAt == row.dueAt && after.pausedAt.None?
            && after.elapsed == row.elapsed + Counted(row, submitted)
            && GraceUsed(after, denied) == Max(after.elapsed * MICROS, denied - row.dueAt)
  {
    SuspendCharges(row.(excuseSubmittedAt := Some(submitted)), submitted);
  }

  /**
   * The documented promise is that an excuse stops the clock and a denial resumes it from
   * where it stopped. It is kept exactly when the submission counts no whole second and
   * the denial is immediate or comes before the stored seconds have passed since due, or
   * the submission counts the first seconds ever stored and the denial is immediate.
   */
  lemma DenialResumesWhereItPausedIff(row: TaskRow, submitted: int, denied: int, graceHours: int)
    requires RowOk(row) && row.status in {Pending, Overdue} && submitted <= denied
    ensures GraceUsed(Denied(row, submitted, denied, graceHours), denied) == GraceUsed(row, submitted)
            <==> if row.status == Pending || submitted - row.dueAt < MICROS
                 then denied == submitted || denied <= row.dueAt + row.elapsed * MICROS
                 else denied == submitted && row.elapsed == 0
  {
    DeniedCharge(row, submitted, denied, graceHours);
  }

  /**
   * A denied excuse is missed exactly when the parent answers once the grace period
   * counted from the due time is over, or the stored seconds, with those the submission
   * added, use it up; otherwise it is overdue. How long the clock stood still plays no part.
   */
  lemma SlowDenialIsMissedIff(row: TaskRow, submitted: int, denied: int, graceHours: int)
    requires RowOk(row) && row.status in {Pending, Overdue}
    ensures var after := Denied(row, submitted, denied, graceHours).status;
            && (after == Missed <==> || row.dueAt + graceHours * 3600 * MICROS <= denied
                                     || graceHours * 3600 <= row.elapsed + Counted(row, submitted))
            && (after == Overdue <==> after != Missed)
  {
    DeniedCharge(row, submitted, denied, graceHours);
  }

  /**
   * No teen is to be penalised for a slow answer: a denied excuse should be missed only if
   * its grace was used up when it was sent. That is so exactly when it was used up then, or
   * the answer comes within the grace period counted from the due time and the stored
   * seconds leave some of it.
   */
  lemma SlowAnswerIsHarmlessIff(row: TaskRow, submitted: int, denied: int, graceHours: int)
    requires RowOk(row) && row.status in {Pending, Overdue} && submitted <= denied
    ensures (Denied(row, submitted, denied, graceHours).status == Missed <==> GraceRemaining(row, graceHours, submitted) <= 0)
            <==> || GraceRemaining(row, graceHours, submitted) <= 0
                 || (&& denied < row.dueAt + graceHours * 3600 * MICROS
                     && row.elapsed + Counted(row, submitted) < graceHours * 3600)
  {
    SlowDenialIsMissedIff(row, submitted, denied, graceHours);
  }

  /** The promise broken: an excuse sent an hour before the task is due, denied after thirty hours, loses the task. */
  lemma TimelyExcuseIsMissed()
    ensures var hour := 3600 * MICROS;
            var row := TaskRow(0, 0, None, 0, 10, Pending, None, None, None, 0);
            && GraceUsed(row, -hour) == 0
            && GraceUsed(Denied(row, -hour, 30 * hour, 24), 30 * hour) == 30 * hour
            && Denied(row, -hour, 30 * hour, 24).status == Missed
  {
  }

  /** The promise broken: a second excuse, sent at three hours and denied half an hour later, leaves four hours charged. */
  lemma SecondExcuseIsChargedTwice()
    ensures var hour := 3600 * MICROS;
            var row := TaskRow(0, 0, None, 0, 10, Overdue, None, None, None, 0);
            var once := Denied(row, hour, 2 * hour, 24);
            && once.status == Overdue
            && GraceUsed(once, 3 * hour) == 3 * hour
            && GraceUsed(Denied(once, 3 * hour, 3 * hour + hour / 2, 24), 3 * hour + hour / 2) == 4 * hour
  {
  }

  /**
   * The promise broken: an excuse sent one hour late, with a day's grace, is denied after
   * thirty hours, and the task is missed although 23 hours were left when the clock stopped.
   */
  lemma SlowParentCostsTheTask()
    ensures var hour := 3600 * MICROS;
            var row := TaskRow(0, 0, None, 0, 10, Overdue, None, None, None, 0);
            var waiting := Act(row, DoExcuse(hour, 10));
            && GraceRemaining(waiting, 24, 30 * hour) == 23 * hour
            && Play(row, [DoExcuse(hour, 10), DoResolve(30 * hour, false, true, 24)]).status == Missed
  {
    var hour := 3600 * MICROS;
    var row := TaskRow(0, 0, None, 0, 10, Overdue, None, None, None, 0);
    var acts := [DoExcuse(hour, 10), DoResolve(30 * hour, false, true, 24)];
    PlayTwo(row, acts[0], acts[1]);
  }

  /**
   * Waiting for a completion review is charged in full, as if nothing had been submitted;
   * the clock resumes from where it was exactly when the denial is immediate or comes
   * before the stored seconds have passed since due.
   */
  lemma ReviewWaitIsCharged(row: TaskRow, submitted: int, denied: int)
    requires RowOk(row) && row.status in {Pending, Overdue} && submitted <= denied
    ensures var after := Play(row, [DoComplete(submitted, true), DoReview(denied, false, true)]);
            && after.status == (if denied < row.dueAt then Pending else Overdue)
            && GraceUsed(after, denied) == GraceUsed(row, denied)
            && (GraceUsed(after, denied) == GraceUsed(row, submitted)
                <==> denied == submitted || denied <= row.dueAt + row.elapsed * MICROS)
  {
    var acts := [DoComplete(submitted, true), DoReview(denied, false, true)];
    PlayTwo(row, acts[0], acts[1]);
  }
}
