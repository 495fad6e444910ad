/**
 * The TaskInstance lifecycle: the transition table, the grace clock, and what each
 * service action and each nightly write does to one row.
 */
module StateMachine {
  import opened Domain

  datatype Trigger =
    | CompleteAuto
    | CompleteReview
    | SubmitExcuse
    | DuePasses
    | Cancel
    | Approve
    | DenyBeforeDue
    | DenyAfterDue
    | GraceExpires
    | DenyGraceRemaining
    | DenyGraceExpired
    | ReversesBeforeDue
    | ReversesAfterDue

  /** The transition table; None stands for a missing key. */
  function Next(from: Status, trigger: Trigger): Option<Status> {
    match (from, trigger)
    case (Pending, CompleteAuto) => Some(Complete)
    case (Pending, CompleteReview) => Some(ReviewPending)
    case (Pending, SubmitExcuse) => Some(ExcusePending)
    case (Pending, DuePasses) => Some(Overdue)
    case (Pending, Cancel) => Some(Cancelled)
    case (Overdue, CompleteAuto) => Some(Complete)
    case (Overdue, CompleteReview) => Some(ReviewPending)
    case (Overdue, SubmitExcuse) => Some(ExcusePending)
    case (Overdue, GraceExpires) => Some(Missed)
    case (Overdue, Cancel) => Some(Cancelled)
    case (ReviewPending, Approve) => Some(Complete)
    case (ReviewPending, DenyBeforeDue) => Some(Pending)
    case (ReviewPending, DenyAfterDue) => Some(Overdue)
    case (ExcusePending, Approve) => Some(Excused)
    case (ExcusePending, DenyGraceRemaining) => Some(Overdue)
    case (ExcusePending, DenyGraceExpired) => Some(Missed)
    case (Complete, ReversesBeforeDue) => Some(Overdue)
    case (Complete, ReversesAfterDue) => Some(Missed)
    case _ => None
  }

  /** `to` is one table row away from `from`. */
  ghost predicate Edge(from: Status, to: Status) {
    exists trigger :: Next(from, trigger) == Some(to)
  }

  predicate Terminal(s: Status) {
    s in {Missed, Excused, Cancelled}
  }

  // ---------------------------------------------------------------- grace clock

  /** Python's int(): truncation toward zero of a microsecond count to whole seconds. */
  function WholeSeconds(micros: int): int {
    if micros < 0 then -((-micros) / MICROS) else micros / MICROS
  }

  /** Grace used at `now`, in microseconds: `used`, plus `extra` while the clock runs. */
  function GraceUsed(row: TaskRow, now: int): int {
    var used := row.elapsed * MICROS;
    if row.pausedAt.None? then used + Max(0, now - row.dueAt - used) else used
  }

  function GraceRemaining(row: TaskRow, graceHours: int, now: int): int {
    graceHours * 3600 * MICROS - GraceUsed(row, now)
  }

  function SuspendGrace(row: TaskRow, now: int): TaskRow {
    var counted := if row.pausedAt.None?
                   then row.(elapsed := WholeSeconds(row.elapsed * MICROS + Max(0, now - row.dueAt)))
                   else row;
    counted.(pausedAt := Some(now))
  }

  function ResumeGrace(row: TaskRow): TaskRow {
    row.(pausedAt := None)
  }

  // ------------------------------------------------------- actions on one row

  datatype Action =
    | DoComplete(now: int, requiresReview: bool)
    | DoExcuse(now: int, excuseLength: nat)
    | DoReview(now: int, approve: bool, hasComment: bool)
    | DoResolve(now: int, approve: bool, hasComment: bool, graceHours: int)
    | DoCancel(now: int)
    | DoReverse(now: int)
    | DoMarkOverdue(now: int)
    | DoMarkMissed(now: int, graceHours: int)

  function CompleteRow(row: TaskRow, now: int, requiresReview: bool): Result<TaskRow> {
    if row.status !in {Pending, Overdue} then
      Err(InvalidTransition)
    else
      var trigger := if requiresReview then CompleteReview else CompleteAuto;
      Ok(row.(completedAt := Some(now), status := Next(row.status, trigger).value))
  }

  function ExcuseRow(row: TaskRow, now: int, excuseLength: nat): Result<TaskRow> {
    if row.status !in {Pending, Overdue} then
      Err(InvalidTransition)
    else if excuseLength < 10 then
      Err(ExcuseTooShort)
    else
      var stamped := row.(excuseSubmittedAt := Some(now));
      var held := if row.status == Overdue then SuspendGrace(stamped, now) else stamped;
      Ok(held.(status := Next(row.status, SubmitExcuse).value))
  }

  function ReviewRow(row: TaskRow, now: int, approve: bool, hasComment: bool): Result<TaskRow> {
    if row.status != ReviewPending then
      Err(InvalidTransition)
    else if !approve && !hasComment then
      Err(MissingComment)
    else if approve then
      Ok(row.(status := Next(row.status, Approve).value))
    else
      var trigger := if now < row.dueAt then DenyBeforeDue else DenyAfterDue;
      var moved := row.(status := Next(row.status, trigger).value);
      Ok(if moved.status == Overdue then ResumeGrace(moved) else moved)
  }

  function ResolveRow(row: TaskRow, now: int, approve: bool, hasComment: bool, graceHours: int): Result<TaskRow> {
    if row.status != ExcusePending then
      Err(InvalidTransition)
    else if !approve && !hasComment then
      Err(MissingComment)
    else if approve then
      Ok(row.(status := Next(row.status, Approve).value))
    else
      var resumed := ResumeGrace(row);
      var trigger := if GraceRemaining(resumed, graceHours, now) > 0 then DenyGraceRemaining else DenyGraceExpired;
      Ok(resumed.(status := Next(row.status, trigger).value))
  }

  function CancelRow(row: TaskRow): Result<TaskRow> {
    if row.status !in {Pending, Overdue} then
      Err(InvalidTransition)
    else
      Ok(row.(status := Next(row.status, Cancel).value))
  }

  function ReverseRow(row: TaskRow, now: int): Result<TaskRow> {
    if row.status != Complete then
      Err(InvalidTransition)
    else
      var trigger := if now < row.dueAt then ReversesBeforeDue else ReversesAfterDue;
      Ok(row.(status := Next(row.status, trigger).value))
  }

  /** The worker's two direct status writes; neither consults the table. */
  function MarkOverdue(row: TaskRow, now: int): TaskRow {
    if row.status == Pending && row.dueAt <= now then row.(status := Overdue) else row
  }

  function MarkMissed(row: TaskRow, now: int, graceHours: int): TaskRow {
    if row.status == Overdue && GraceRemaining(row, graceHours, now) <= 0 then row.(status := Missed) else row
  }

  function Attempt(row: TaskRow, a: Action): Result<TaskRow> {
    match a
    case DoComplete(now, requiresReview) => CompleteRow(row, now, requiresReview)
    case DoExcuse(now, excuseLength) => ExcuseRow(row, now, excuseLength)
    case DoReview(now, approve, hasComment) => ReviewRow(row, now, approve, hasComment)
    case DoResolve(now, approve, hasComment, graceHours) => ResolveRow(row, now, approve, hasComment, graceHours)
    case DoCancel(now) => CancelRow(row)
    case DoReverse(now) => ReverseRow(row, now)
    case DoMarkOverdue(now) => Ok(MarkOverdue(row, now))
    case DoMarkMissed(now, graceHours) => Ok(MarkMissed(row, now, graceHours))
  }

  /** A refused action leaves the stored row as it was. */
  function Act(row: TaskRow, a: Action): TaskRow {
    var attempt := Attempt(row, a);
    if attempt.Ok? then attempt.value else row
  }

  function Play(row: TaskRow, acts: seq<Action>): TaskRow {
    if acts == [] then row else Act(Play(row, acts[..|acts| - 1]), acts[|acts| - 1])
  }

  lemma PlayAppend(row: TaskRow, acts: seq<Action>, more: seq<Action>)
    ensures Play(row, acts + more) == Play(Play(row, acts), more)
  {
    if more == [] {
      assert acts + more == acts;
    } else {
      var n := |more| - 1;
      assert (acts + more)[..|acts + more| - 1] == acts + more[..n];
      PlayAppend(row, acts, more[..n]);
    }
  }

  // ---------------------------------------------------------------- theorems

  /**
   * The table is exactly the set of status changes the code makes: every change is
   * a table row, and every table row is made by some action on some row.
   */
  lemma TableIsExactlyTheWrites(from: Status, to: Status)
    requires from != to
    ensures Edge(from, to) <==> exists row: TaskRow, a: Action :: row.status == from && Act(row, a).status == to
  {
    forall row: TaskRow, a: Action | row.status == from && Act(row, a).status == to
      ensures Edge(from, to)
    {
      WriteIsAnEdge(row, a);
    }
    if Edge(from, to) {
      var row, a := EdgeWitness(from, to);
      assert row.status == from && Act(row, a).status == to;
    }
  }

  lemma WriteIsAnEdge(row: TaskRow, a: Action)
    ensures Act(row, a).status == row.status || Edge(row.status, Act(row, a).status)
  {
    var to := Act(row, a).status;
    if to != row.status {
      var trigger :=
        match a
        case DoComplete(_, requiresReview) => if requiresReview then CompleteReview else CompleteAuto
        case DoExcuse(_, _) => SubmitExcuse
        case DoReview(now, approve, _) =>
          if approve then Approve else if now < row.dueAt then DenyBeforeDue else DenyAfterDue
        case DoResolve(now, approve, _, graceHours) =>
          if approve then Approve
          else if GraceRemaining(ResumeGrace(row), graceHours, now) > 0 then DenyGraceRemaining
          else DenyGraceExpired
        case DoCancel(_) => Cancel
        case DoReverse(now) => if now < row.dueAt then ReversesBeforeDue else ReversesAfterDue
        case DoMarkOverdue(_) => DuePasses
        case DoMarkMissed(_, _) => GraceExpires;
      assert Next(row.status, trigger) == Some(to);
    }
  }

  lemma EdgeWitness(from: Status, to: Status) returns (row: TaskRow, a: Action)
    requires Edge(from, to)
    ensures row.status == from && Act(row, a).status == to
  {
    var trigger :| Next(from, trigger) == Some(to);
    row := TaskRow(0, 0, None, 0, 0, from, None, None, None, 0);
    a := match trigger
      case CompleteAuto => DoComplete(0, false)
      case CompleteReview => DoComplete(0, true)
      case SubmitExcuse => DoExcuse(0, 10)
      case DuePasses => DoMarkOverdue(0)
      case Cancel => DoCancel(0)
      case Approve => if from == ReviewPending then DoReview(0, true, false) else DoResolve(0, true, false, 0)
      case DenyBeforeDue => DoReview(-1, false, true)
      case DenyAfterDue => DoReview(0, false, true)
      case GraceExpires => DoMarkMissed(0, 0)
      case DenyGraceRemaining => DoResolve(0, false, true, 1)
      case DenyGraceExpired => DoResolve(0, false, true, 0)
      case ReversesBeforeDue => DoReverse(-1)
      case ReversesAfterDue => DoReverse(0);
  }

  /** The grace period is over, counted in microseconds on a running clock. */
  predicate GraceOver(row: TaskRow, graceHours: int, now: int) {
    graceHours * 3_600_000_000 <= Max(row.elapsed * 1_000_000, now - row.dueAt)
  }

  /** The parent turns the excuse down. */
  predicate TurnsDown(row: TaskRow, a: Action) {
    a.DoResolve? && row.status == ExcusePending && !a.approve && a.hasComment
  }

  /** The action is a completion the row takes. */
  predicate Completes(row: TaskRow, a: Action) {
    a.DoComplete? && row.status in {Pending, Overdue}
  }

  /** The action is an excuse the row takes. */
  predicate Excuses(row: TaskRow, a: Action) {
    a.DoExcuse? && row.status in {Pending, Overdue} && a.excuseLength >= 10
  }

  /** When a row comes to have each status it did not have, told by the action and the row before it. */
  lemma BecomesIff(row: TaskRow, a: Action)
    requires RowOk(row)
    ensures var to := Act(row, a).status;
            to != row.status ==>
              && (to == Complete <==> || (Completes(row, a) && !a.requiresReview)
                                      || (a.DoReview? && row.status == ReviewPending && a.approve))
              && (to == ReviewPending <==> Completes(row, a) && a.requiresReview)
              && (to == ExcusePending <==> Excuses(row, a))
              && (to == Cancelled <==> a.DoCancel? && row.status in {Pending, Overdue})
              && (to == Excused <==> a.DoResolve? && row.status == ExcusePending && a.approve)
              && (to == Pending <==> a.DoReview? && row.status == ReviewPending && !a.approve && a.hasComment && a.now < row.dueAt)
              && (to == Overdue <==> || (a.DoMarkOverdue? && row.status == Pending && row.dueAt <= a.now)
                                     || (a.DoReverse? && row.status == Complete && a.now < row.dueAt)
                                     || (a.DoReview? && row.status == ReviewPending && !a.approve && a.hasComment && row.dueAt <= a.now)
                                     || (TurnsDown(row, a) && !GraceOver(row, a.graceHours, a.now)))
              && (to == Missed <==> || (a.DoMarkMissed? && row.status == Overdue && GraceOver(row, a.graceHours, a.now))
                                    || (a.DoReverse? && row.status == Complete && row.dueAt <= a.now)
                                    || (TurnsDown(row, a) && GraceOver(row, a.graceHours, a.now)))
    ensures Act(row, a).status == row.status
            <==> match a
                 case DoComplete(_, _) => row.status !in {Pending, Overdue}
                 case DoExcuse(_, length) => row.status !in {Pending, Overdue} || length < 10
                 case DoReview(_, approve, hasComment) => row.status != ReviewPending || (!approve && !hasComment)
                 case DoResolve(_, approve, hasComment, _) => row.status != ExcusePending || (!approve && !hasComment)
                 case DoCancel(_) => row.status !in {Pending, Overdue}
                 case DoReverse(_) => row.status != Complete
                 case DoMarkOverdue(now) => row.status != Pending || now < row.dueAt
                 case DoMarkMissed(now, hours) => row.status != Overdue || !GraceOver(row, hours, now)
  {
  }

  /**
   * The instants and seconds an action stores: a completion or excuse that goes through
   * stores its own instant, an excuse from overdue stops the clock and adds the whole
   * seconds since due, a denied excuse starts it, and nothing else touches these columns.
   */
  lemma StampsAreItsOwn(row: TaskRow, a: Action)
    requires RowOk(row)
    ensures var next := Act(row, a);
            var stops := Excuses(row, a) && row.status == Overdue;
            && next.completedAt == (if Completes(row, a) then Some(a.now) else row.completedAt)
            && next.excuseSubmittedAt == (if Excuses(row, a) then Some(a.now) else row.excuseSubmittedAt)
            && next.pausedAt == (if stops then Some(a.now) else if TurnsDown(row, a) then None else row.pausedAt)
            && next.elapsed == row.elapsed + (if stops then Max(0, a.now - row.dueAt) / 1_000_000 else 0)
  {
  }

  /** Why an action is refused. */
  lemma RefusedIff(row: TaskRow, a: Action)
    ensures Attempt(row, a) == Err(MissingComment)
            <==> (|| (a.DoReview? && row.status == ReviewPending)
                  || (a.DoResolve? && row.status == ExcusePending)) && !a.approve && !a.hasComment
    ensures Attempt(row, a) == Err(ExcuseTooShort) <==> a.DoExcuse? && row.status in {Pending, Overdue} && a.excuseLength < 10
    ensures Attempt(row, a) == Err(InvalidTransition)
            <==> || ((a.DoComplete? || a.DoExcuse? || a.DoCancel?) && row.status !in {Pending, Overdue})
                 || (a.DoReview? && row.status != ReviewPending)
                 || (a.DoResolve? && row.status != ExcusePending)
                 || (a.DoReverse? && row.status != Complete)
    ensures Attempt(row, a).Err? ==> Attempt(row, a).why in {MissingComment, ExcuseTooShort, InvalidTransition}
  {
  }

  /** Missed, excused and cancelled rows are frozen whole, whatever is attempted and however often. */
  lemma {:induction false} TerminalRowsAreFrozen(row: TaskRow, acts: seq<Action>)
    requires Terminal(row.status)
    ensures Play(row, acts) == row
  {
    if acts != [] {
      TerminalRowsAreFrozen(row, acts[..|acts| - 1]);
    }
  }

  /**
   * What holds of every row the system can produce: the clock is paused only in
   * excuse_pending or excused, and whatever waits in the parent inbox carries the
   * submission time the inbox asserts.
   */
  predicate RowOk(row: TaskRow) {
    && row.elapsed >= 0
    && (row.pausedAt.Some? ==> row.status in {ExcusePending, Excused})
    && (row.status == ReviewPending ==> row.completedAt.Some?)
    && (row.status == ExcusePending ==> row.excuseSubmittedAt.Some?)
  }

  lemma {:induction false} RowOkForever(row: TaskRow, acts: seq<Action>)
    requires RowOk(row)
    ensures RowOk(Play(row, acts))
  {
    if acts != [] {
      RowOkForever(row, acts[..|acts| - 1]);
    }
  }

  /** The point value, due time, owner and series of a row never change. */
  predicate SameIdentity(a: TaskRow, b: TaskRow) {
    && a.definition == b.definition
    && a.assignee == b.assignee
    && a.series == b.series
    && a.dueAt == b.dueAt
    && a.pointValue == b.pointValue
  }

  lemma {:induction false} IdentityIsFrozen(row: TaskRow, acts: seq<Action>)
    ensures SameIdentity(row, Play(row, acts))
  {
    if acts != [] {
      IdentityIsFrozen(row, acts[..|acts| - 1]);
    }
  }

  /** A parent's move that turns a row overdue before it is due: a reversal, or an excuse denial with stored grace left. */
  predicate TurnsOverdueEarly(row: TaskRow, a: Action) {
    && a.now < row.dueAt
    && (|| (a.DoReverse? && row.status == Complete)
        || (a.DoResolve? && row.status == ExcusePending && !a.approve && a.hasComment
            && row.elapsed < a.graceHours * 3600))
  }

  /** "Overdue" need not mean that the due time has passed: exactly two moves make a row overdue before. */
  lemma OverdueMeansDueIff(row: TaskRow, a: Action)
    requires RowOk(row) && row.status != Overdue
    ensures Act(row, a).status == Overdue && a.now < row.dueAt <==> TurnsOverdueEarly(row, a)
  {
  }

  /** A task due at noon, completed and reversed in the morning, is overdue in the morning. */
  lemma ReversedEarlyIsOverdue()
    ensures var noon := 12 * 3600 * MICROS;
            var row := TaskRow(0, 0, None, noon, 10, Pending, None, None, None, 0);
            Play(row, [DoComplete(0, false), DoReverse(1)]).status == Overdue && 1 < noon
  {
    var row := TaskRow(0, 0, None, 12 * 3600 * MICROS, 10, Pending, None, None, None, 0);
    PlayTwo(row, DoComplete(0, false), DoReverse(1));
  }

  /** So is one excused and denied in the morning. */
  lemma DeniedEarlyIsOverdue()
    ensures var noon := 12 * 3600 * MICROS;
            var row := TaskRow(0, 0, None, noon, 10, Pending, None, None, None, 0);
            Play(row, [DoExcuse(0, 10), DoResolve(1, false, true, 24)]).status == Overdue && 1 < noon
  {
    var row := TaskRow(0, 0, None, 12 * 3600 * MICROS, 10, Pending, None, None, None, 0);
    PlayTwo(row, DoExcuse(0, 10), DoResolve(1, false, true, 24));
  }

  lemma PlayTwo(row: TaskRow, a: Action, b: Action)
    ensures Play(row, [a, b]) == Act(Act(row, a), b)
  {
    assert [a, b][..1] == [a] && [a][..0] == [];
    assert Play(row, [a]) == Act(row, a);
  }
}
