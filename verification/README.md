# Chore points: the economy, verified

A Dafny model of a household chore application: tasks that fall due, are completed, excused,
reviewed, reversed or missed; points that are paid for them on an append-only ledger; series
of tasks that pay a bonus; a nightly job that creates and sweeps task instances; and the
request layer in front of it all. It also covers the weekly report, the series windows, the
login rate limiter and the one-time link codes.

`dafny verify dfyconfig.toml` checks the whole project.

## How it is organised

| file | what it holds |
|---|---|
| `Domain.dfy` | task rows, statuses, payout policies, the failures the services raise |
| `StateMachine.dfy` | the transition table, the grace clock, every action on one row |
| `GraceClock.dfy` | what the grace clock charges over a whole run, against an observer who keeps true time |
| `Schedule.dfy`, `Nightly.dfy` | which dates generate, when they are due, upserts, the two nightly sweeps |
| `Ledger.dfy`, `Points.dfy` | ledger rows and indexes; each request as one transaction on the stored state |
| `Runs.dfy`, `RunTheorems.dfy` | serial runs of all transactions, the invariant, and what it means |
| `Effects.dfy` | what each transaction does, told by its effects: refusals, the row moved, the entries booked, the series closed, the balances |
| `JobRuns.dfy` | the nightly job as one of those runs, and the key index over runs |
| `SeriesSafety.dfy`, `Bulk.dfy`, `Idempotency.dfy` | series bonuses, bulk approval and cached retries over whole runs |
| `Session.dfy` | the services and handlers as methods on a database session, proved to do what the transactions say |
| `Interleaving.dfy` | ledger writes of concurrent transactions, split into read, flush and commit |
| `Overlap.dfy`, `Races.dfy`, `Retries.dfy` | overlapping requests and sweeps on one instance, status and money together; races of two requests; overlapping retries of one completion through the response cache |
| `Reports.dfy`, `SeriesWindow.dfy`, `RateLimit.dfy`, `LinkCodes.dfy` | the four smaller parts |

The behaviour is written down twice. Pure functions (`StateMachine`, `Points`, `Nightly`,
`Bulk`) give each transaction as a function from the stored state to a new state or a
failure, and the theorems are about runs of those. `Session.DbSession` has the mutable
fields: its methods set a status before paying, flush a ledger row, roll back the whole
session when an index refuses it, and loop over definitions, days, members and batch items
in the order the code does. Each is proved to end where its function says. Handlers that
reach the commit are proved to be whole transactions: stored, or nothing. The nightly job is
also proved to be a run of insert and sweep transactions, so the theorems about runs hold of
what it leaves.

Every lookup the actions make in the transition table is proved to be defined: the value of
a missing key could not be taken.

## Conventions

- A task instance or series instance is known by its index in its table; rows are never
  deleted. A series and its series instance are one record.
- Instants are whole microseconds and grace seconds are whole, so the truncation in
  `_suspend_grace` is explicit. Dates are day numbers; day 0 is a Monday.
- The clock, the time zone's offsets, the household's calendar, random draws, whether a
  definition requires review, and whether a commit fails are parameters, so the theorems hold
  for all of them.
- The payout policy in force at an approval is kept as history beside the stored state; no
  transaction reads it.
- A Redis key is alive while the clock is before its expiry.
- Concurrent transactions see committed rows only, wait on an uncommitted row that clashes
  with theirs, and may abort at any point.

## Where the code departs from its own documents

The model follows the code. Each departure is stated as the condition under which the
documented promise does hold.

- An excuse is documented to stop the grace clock, and a denial to resume it from where it
  stopped (`backend/app/services/state_machine.py:8-11`, `docs/prd.md:228`). Measured from the
  submission, it does so only under the conditions of `DenialResumesWhereItPausedIff`. An
  excuse sent before the sweep has made the row overdue does not stop the clock at all
  (`TimelyExcuseIsMissed`); one sent after goes back to the time since due once it is denied
  (`OnePauseIsChargedInFull`, `SlowParentCostsTheTask`); a second one counts the overdue time
  twice (`SecondExcuseIsChargedTwice`). When a slow answer costs the task is decided by
  `SlowDenialIsMissedIff` and `SlowAnswerIsHarmlessIff`. Waiting for a completion review is
  charged in full (`ReviewWaitIsCharged`).
- `overdue` does not imply that the due time has passed. Exactly two moves break it, a
  reversal and an excuse denial made early (`OverdueMeansDueIff`, over whole runs
  `OverdueBeforeDueIff`, with examples in `ReversedEarlyIsOverdue` and `DeniedEarlyIsOverdue`).
- A nightly sweep that comes late matters to a teen or parent who acts before it
  (`LateSweepMattersIff` for completing, `LateSweepMattersToCancelIff`,
  `LateSweepMattersToExcuseIff`, with an example in `LateCompletionBeatsTheSweep`).
- Members of an all-or-nothing series are documented to pay nothing themselves
  (`docs/prd.md:137`). They are paid on completion in either mode, and their value is paid
  again with the bonus (`SeriesPaysItsValueOnceIff`, with an example in
  `AllOrNothingPaysTwice`).
- A bad item is documented to fail alone in a bulk approval
  (`backend/app/routers/approvals.py:99-102`). An item whose payment was already made and
  reversed takes the whole batch down (`BatchAbortsIff`, `ReversedTaskSinksTheBatch`).
- The idempotency key is documented to be reserved before the handler runs, so that a retry
  gets the first answer and not the duplicate error
  (`backend/app/services/idempotency.py:4-11`). It is looked up before and set after the
  handler, and set before the commit. A failed commit leaves a success cached and loses the
  request (`AnsweredIsStoredIffCommitted`, `FailedCommitLosesTheRequest`); a retry that
  overlaps the first can meet the duplicate error (`RetryMeetsDuplicateIff`,
  `OverlappingRetryMeetsTheDuplicate`), though the completion is paid once, whatever else
  goes on (`RetriesCompleteOnce`).
- The status a request writes is made from the copy it loaded, and no version is checked.
  `MoneyAndStatusPartBy` says by how much money and status part under any interleaving, and
  `RacePartsThemIff` when any two requests that load an instance together do it: a task can
  end cancelled and paid (`CancelledButPaid`), or denied by one parent and paid for by the
  other (`DeniedButPaid`). Terminal statuses are not absorbing then either: `TableBindsTheCopy`
  and `RaceRevivesIff` say when one is left, `CancelledThenComplete` shows it.
- Issuing a link code is documented to invalidate only the same member's old code. After a
  collision of draws it can delete another member's live code (`OthersCodeSurvivesIff`,
  `CollisionLosesAFreshCode`).
- The limiter's counter is documented to last one window. It increments and arms the expiry
  in two commands, and the counter ends with its window exactly when no attempt that opened
  one died between them (`WindowEndsIff`, `CounterIsUnarmedIff`). After such a death the limit
  is used up once and for all (`DeathLocksOut`, with an example in `OneDeathRefusesForGood`).
- `reverse_completion` is reached from no route, nothing assigns a task's series instance, and
  nothing sets a series to `expired`. The model includes the first two as possible events.

## Model

| member | source | states |
|---|---|---|
| StateMachine.TableIsExactlyTheWrites | backend/app/services/state_machine.py:36-60 | the transition table is exact: a pair of statuses is a table row if and only if some action, or one of the worker's direct writes, makes that change on some row |
| StateMachine.WriteIsAnEdge | backend/app/services/state_machine.py:71-250 | every status write by any action or nightly sweep either leaves the status or is an edge of the table |
| StateMachine.TerminalRowsAreFrozen | backend/app/services/state_machine.py:63 | a missed, excused or cancelled row stays identical under any sequence of attempts |
| StateMachine.RowOkForever | backend/app/services/state_machine.py:254-267 | over any sequence of actions a paused clock occurs only in excuse_pending or excused, and waiting rows carry their submission time |
| StateMachine.IdentityIsFrozen | backend/app/workers/generate_instances.py:135-141 | point value, due time, assignee, definition and series of a row never change |
| StateMachine.OverdueMeansDueIff | backend/app/services/state_machine.py:194-202 | of all moves on a row that is not overdue, exactly a reversal of a complete row and a commented denial of an excuse with stored grace left, each made early, make it overdue before it is due |
| StateMachine.BecomesIff | backend/app/services/state_machine.py:71-250 | for each of the eight statuses, exactly which actions on which rows lead to it, and exactly when an action leaves the status alone, with the grace period in microseconds |
| StateMachine.StampsAreItsOwn | backend/app/services/state_machine.py:85-126 | a completion or excuse that goes through stores its own instant, an excuse from overdue stops the clock and adds the whole seconds since due, a denied excuse starts it, and no other action touches these columns |
| StateMachine.RefusedIff | backend/app/services/state_machine.py:79-147 | which error an action is refused with, exactly, in the order of the guards |
| StateMachine.ReversedEarlyIsOverdue | backend/app/services/state_machine.py:239-243 | a concrete run in which a morning's reversal makes a task overdue before its noon due time |
| StateMachine.DeniedEarlyIsOverdue | backend/app/services/state_machine.py:194-202 | a concrete run in which a morning's excuse denial does the same |
| GraceClock.ChargeClosedForm | backend/app/services/state_machine.py:254-295 | over every run the stored seconds are the sum over suspensions of the whole overdue seconds at each, and the charge is that sum while paused, or the larger of it and the time since due while running |
| GraceClock.ChargeNeverUndercounts | backend/app/services/state_machine.py:277-295 | the charge is never below the true time the clock was running, in whole seconds |
| GraceClock.OnePauseIsChargedInFull | backend/app/services/state_machine.py:264-295 | after one suspension made once overdue the charge exceeds the true running time by exactly the length of the pause |
| GraceClock.ChargeNeverFalls | backend/app/services/state_machine.py:254-295 | along any chronological run of a row the charge in whole seconds is monotone |
| GraceClock.SuspensionDropsFractionIff | backend/app/services/state_machine.py:257-261 | in microseconds a suspension lowers the charge exactly when it is the first to count and falls off a whole second after due |
| GraceClock.DenialResumesWhereItPausedIff | backend/app/services/state_machine.py:8-11 | from any open row, the charge after a denial is the charge at the submission exactly when the submission counts no whole second and the denial is immediate or within the stored seconds of due, or it counts the first stored seconds and the denial is immediate |
| GraceClock.SlowDenialIsMissedIff | backend/app/services/state_machine.py:194-202 | from any open row, a denied excuse is missed exactly when the answer comes once the grace period from the due time is over or the stored seconds with the submission's use it up, and is otherwise overdue |
| GraceClock.SlowAnswerIsHarmlessIff | docs/prd.md:228 | a denial is missed only for grace used up at the submission exactly when it was used up then, or the answer comes within the grace period from the due time and the stored seconds leave some of it |
| GraceClock.TimelyExcuseIsMissed | backend/app/services/state_machine.py:122-127 | a concrete run: an excuse sent an hour before due and denied after thirty hours is charged them all and missed |
| GraceClock.SecondExcuseIsChargedTwice | backend/app/services/state_machine.py:257-262 | a concrete run: a second excuse, sent with three hours charged, resumes with four |
| GraceClock.SlowParentCostsTheTask | backend/app/services/state_machine.py:8-11 | a concrete run in which a slow answer makes a task missed that had 23 hours of grace left |
| GraceClock.ReviewWaitIsCharged | backend/app/services/state_machine.py:85-102 | a completion denied on review is charged as if it had never been submitted, so the clock resumes where it was exactly when the denial is immediate or within the stored seconds of due |
| Schedule.WeekGeneratesPerWeek | backend/app/workers/generate_instances.py:147-172 | any seven consecutive dates in range select 7, 1 or the number of set low mask bits, by type |
| Schedule.WeeksGenerateEvenly | backend/app/workers/generate_instances.py:147-172 | any whole number of weeks in range selects that many times the weekly count |
| Schedule.HorizonGeneratesTwoWeeks | backend/app/workers/generate_instances.py:71-74 | a horizon wholly in range selects exactly twice the weekly count |
| Schedule.OneTimeGeneratesOnceIff | backend/app/workers/generate_instances.py:149-159 | a one-time definition has a date exactly when it does not end before it starts, and then one |
| Schedule.DailyIsEveryDayOfTheRange | backend/app/workers/generate_instances.py:149-161 | a daily task generates on every date from its start to its end, both included, and on no other |
| Schedule.WeeklyIsEverySeventhDay | backend/app/workers/generate_instances.py:168-170 | a weekly task generates exactly every seventh day from its start |
| Schedule.MaskReadsItsDays | backend/app/workers/generate_instances.py:162-167 | a mask built from seven flags, Monday's lowest, selects exactly the flagged weekdays, whatever stands above them |
| Schedule.MaskOfOneIsMonday | backend/app/workers/generate_instances.py:162-167 | a mask of 1 selects exactly the Mondays |
| Schedule.DueReadsBack | backend/app/workers/generate_instances.py:123-127 | a due time, read on the household's clock, is the date it was made for at the definition's time of day |
| Schedule.NextDueLaterIff | backend/app/workers/generate_instances.py:123-127 | consecutive dates are due in order exactly when the offset shift between them is under a day, and share a due time exactly when it is a day |
| Schedule.DueStrictlyIncreases | backend/app/workers/generate_instances.py:123-127 | with shifts under a day due times are strictly monotone in the date |
| Nightly.GenerationAddsExactlyTheAskedKeys | backend/app/workers/generate_instances.py:110-144 | any sequence of upserts keeps stored rows as a prefix, keeps keys unique, and adds exactly the keys asked for |
| Nightly.RerunIsANoOp | backend/app/workers/generate_instances.py:113-119 | upserts whose keys are all stored change nothing at all |
| Nightly.GenerationIsIdempotent | backend/app/workers/generate_instances.py:113-119 | repeating any of the upserts, at any later time and after any edit of the point value, changes nothing |
| Nightly.FirstCallFixesTheRow | backend/app/workers/generate_instances.py:133-144 | every added row is the one built by the first call that asked for its key |
| Nightly.AddedRowsAreAsScheduled | backend/app/workers/generate_instances.py:123-143 | every added row is due on a scheduled call's date at the definition's time of day, belongs to its assignee at its value, is untouched, and is overdue at once exactly if its due time is not after the reading |
| Nightly.JobCoversTheHorizon | backend/app/workers/generate_instances.py:71-74 | one job upserts a definition on a date if and only if it lists the definition and the date is one of its fourteen |
| Nightly.VisitsLeaveOneRowPerScheduledDate | backend/app/routers/definitions.py:67-78 | jobs on any dates, each with its own clock, mixed with on-demand creations, sweeps, requests and other definitions' rows, leave one row per scheduled covered date and no other, priced by the first visit that covered it |
| Nightly.LateSweepSubsumes | backend/app/workers/generate_instances.py:76-105 | sweeping and sweeping again later equals sweeping only later |
| Nightly.SweepSettles | backend/app/workers/generate_instances.py:76-105 | after a sweep no active row is pending and due or overdue without grace, and a sweep leaves a table alone exactly when that already holds |
| Nightly.SweepChangesIff | backend/app/workers/generate_instances.py:76-105 | a sweep makes an active row missed exactly when it is late and its grace is over, overdue exactly when it is late otherwise, and changes nothing else of any row |
| Nightly.DirectOverdueEqualsPendingThenSweep | backend/app/workers/generate_instances.py:128-131 | a row inserted directly overdue ends a job as if inserted pending and swept |
| Nightly.JobIgnoresUpsertClock | backend/app/workers/generate_instances.py:131 | the readings of the clock during generation do not affect the table a job leaves |
| Nightly.LateSweepMattersIff | backend/app/workers/generate_instances.py:95-105 | completing before or after a sweep differs exactly when the row's definition is active, the row is overdue or due by the first reading, and its grace is gone by the second |
| Nightly.LateSweepMattersToCancelIff | backend/app/workers/generate_instances.py:95-105 | the same exact condition for cancelling |
| Nightly.LateSweepMattersToExcuseIff | backend/app/services/state_machine.py:122-127 | a long enough excuse sent before or after a sweep differs exactly when the definition is active and the row is pending and due by the first reading, or overdue without grace by the second |
| Nightly.LateCompletionBeatsTheSweep | backend/app/workers/generate_instances.py:95-105 | a concrete row, a day past its grace, that completion keeps if it comes before the sweep |
| JobRuns.NightlyJobIsARun | backend/app/workers/generate_instances.py:52-107 | a job leaves the state that a run of its scheduled inserts and one sweep leaves |
| JobRuns.GenerationIsARun | backend/app/workers/generate_instances.py:71-74 | any upserts leave the table that a run of the scheduled ones' inserts leaves |
| JobRuns.KeysStayUnique | backend/app/db/models.py:319-321 | along every run no definition has two instances due at one time |
| JobRuns.RunIsMeanwhile | backend/app/workers/generate_instances.py:110-144 | any run that inserts nothing for a definition keeps its rows' identities and adds none, so it may come between two visits |
| Ledger.PostKeepsLedger | backend/app/services/ledger.py:39-46 | any row stamped with the balance just read keeps both indexes and every stored running balance |
| Ledger.TakenTask | backend/app/db/migrations/versions/0001_initial_schema.py:291-297 | a task row is refused exactly when the task already has a row of its kind |
| Ledger.TakenBonus | backend/app/db/migrations/versions/0001_initial_schema.py:298-304 | a bonus row is refused exactly when the series instance already has one |
| Runs.StepKeeps | backend/app/db/database.py:34-43 | every transaction keeps the invariant tying status, ledger, indexes, running balances and series together |
| Runs.InvForever | backend/app/db/database.py:34-43 | the invariant holds along every run |
| Runs.CompleteTaskKeeps | backend/app/routers/tasks.py:198-220 | completing an open instance fails exactly when it pays at once and was reversed before, and then as a duplicate |
| Runs.ReviewKeeps | backend/app/routers/tasks.py:267-284 | an answer that passes its guards fails exactly when it pays in full for a reversed instance; one that does not fails with a guard's error |
| Runs.ReverseKeeps | backend/app/services/state_machine.py:229-250 | a completed instance can always be reversed and has no earlier reversal |
| Runs.EvaluateKeeps | backend/app/services/series_completion.py:38-102 | on a reachable state evaluation never meets a duplicate, and closes a series exactly when it is unpaid and payable |
| Effects.RefusedIff | backend/app/routers/tasks.py:192-286 | which error each transaction is refused with, exactly, told by the state before it |
| Effects.RequestEffect | backend/app/services/state_machine.py:104-250 | a request that goes through takes its own action on the row it names, which changes the status, books exactly its entries and changes nothing else; one refused changes nothing |
| Effects.CompleteTaskEffect | backend/app/routers/tasks.py:198-220 | a completion moves its row, books its entry unless reviewed, and then its series is evaluated on what that leaves |
| Effects.EvaluationEffect | backend/app/services/series_completion.py:38-102 | evaluation closes a series at its own instant, with the entry for the assignee over the standing balance, exactly when it is unpaid, all its rows are complete or excused and one is complete |
| Effects.CompletionPaysTheBonusIff | backend/app/routers/tasks.py:205-218 | after completing a member the bonus row exists exactly if it did before or the series is all done, in either mode |
| Effects.FreeEffect | backend/app/services/ledger.py:144-181 | a claim takes its points from its member's balance and an adjustment adds its signed delta, and no one else's balance moves |
| Effects.BalanceIsWhatHappened | backend/app/services/ledger.py:39-46 | a balance is the worth of the member's instances plus the bonuses their completions earned, plus what was adjusted, less what was claimed, over every run |
| Effects.WorthInFigures | backend/app/services/ledger.py:75-87 | what each status and policy is worth in figures, the half being floored |
| RunTheorems.MoneyMatchesStatus | backend/app/services/state_machine.py:71-250 | in every reachable state the ledger rows of an instance sum to its value if complete, to the policy's share if excused, and to zero otherwise, reversals included |
| RunTheorems.StepPaysTheDifference | backend/app/services/state_machine.py:71-250 | every transaction, from any state at all, pays each instance exactly the difference its change of status is worth |
| RunTheorems.ApprovalPolicyIsFinal | backend/app/services/ledger.py:68-99 | an excused instance is paid by the policy in force at its approval, whatever happens afterwards |
| RunTheorems.BalanceIsConserved | backend/app/services/ledger.py:39-46 | a member's balance splits without loss into the worth of their instances and the sums of the three kinds of row tied to none |
| RunTheorems.StoredBalancesAreExact | backend/app/services/ledger.py:48-203 | in a serial run every stored balance_after is the exact running balance, whichever writers interleave |
| RunTheorems.DuplicateIffReversed | backend/app/services/ledger.py:219-229 | a request meets the duplicate error if and only if it attempts, past every guard, to pay for an instance reversed earlier |
| RunTheorems.LedgerIsAppendOnly | backend/app/services/ledger.py:4-9 | the ledger at any time is a prefix of the ledger at any later time |
| RunTheorems.ReversalIsFinal | backend/app/services/ledger.py:183-203 | a reversed instance is never complete again and holds one completion row and one reversal row that negates it |
| RunTheorems.StepIsPlay | backend/app/routers/tasks.py:198-286 | what any transaction does to any row is at most two actions of the state machine, at the transaction's own time |
| RunTheorems.RunIsPlay | backend/app/routers/tasks.py:198-286 | over a run a row plays a chronological sequence of actions, so theorems about rows are theorems about the system |
| RunTheorems.TerminalInstancesAreFrozen | backend/app/services/state_machine.py:63 | missed, excused and cancelled instances never change again in any run |
| RunTheorems.SystemChargeNeverFalls | backend/app/services/state_machine.py:277-295 | the grace charge of an instance is monotone along every run of the system |
| RunTheorems.ReachableRowsAreOk | backend/app/routers/approvals.py:66-73 | in every reachable state an overdue clock runs and a row in the parent inbox has the submission time the inbox asserts |
| RunTheorems.OverdueBeforeDueIff | backend/app/services/state_machine.py:194-202 | along every chronological run, before its due time an instance is overdue exactly when some transaction reversed it or denied its excuse early and none after that one completed, excused or cancelled it or swept it without grace |
| RunTheorems.TakesOutIff | backend/app/services/state_machine.py:71-227 | on reachable states an overdue instance stops being overdue exactly by a completion that is reviewed or was never reversed, a long enough excuse, a cancellation, or a sweep of its active definition without grace |
| SeriesSafety.MemberOrderIsIrrelevant | backend/app/services/series_completion.py:51-97 | any order of the members gives the same decision and the same amount |
| SeriesSafety.ClosedIffPaidOnce | backend/app/services/series_completion.py:80-102 | in every reachable state a series instance is complete if and only if its bonus row exists, and it has at most one |
| SeriesSafety.EvaluateSucceedsAtMostOnce | backend/app/services/series_completion.py:48-49 | after an evaluation has returned true, none for that series does so again in any run |
| SeriesSafety.BonusIsEarned | backend/app/routers/tasks.py:205-218 | only completing a member adds a bonus row, all members then being complete or excused and one complete, for the amount of the mode |
| SeriesSafety.SeriesPaysItsValueOnceIff | docs/prd.md:137 | a closed series has been paid its completed value once plus the bonus exactly when it pays individually or that value is zero |
| SeriesSafety.AllOrNothingPaysTwice | backend/app/services/state_machine.py:98-99 | a concrete run in which a ten-point task alone in an all-or-nothing series with a bonus of five pays 25 points |
| Bulk.BatchIsAFold | backend/app/routers/approvals.py:104-168 | a batch that goes through is the run of its single reviews, with results matching the items in number and order, each with the outcome of its review and the status that review left |
| Bulk.ReviewsAreTheItems | backend/app/routers/approvals.py:132-140 | each of those reviews is its item's own answer |
| Bulk.SuccessReportsTheFinalStatus | backend/app/routers/approvals.py:160-166 | the status a success reports is the one its instance has when the batch is done |
| Bulk.FailingItemIsInert | backend/app/routers/approvals.py:150-158 | an item that fails a guard can be dropped without changing the state or any other result |
| Bulk.RepeatedIdSucceedsOnce | backend/app/routers/approvals.py:109-166 | of two items with one id at most one succeeds |
| Bulk.BatchAbortsIff | backend/app/routers/approvals.py:104-168 | a batch is undone whole exactly when some item approves, for a full payout, a waiting instance that was reversed and that no earlier item has answered |
| Bulk.ReversedTaskSinksTheBatch | backend/app/routers/approvals.py:99-102 | any completion reversed before due and submitted again takes down every batch that opens by approving it |
| Session.DbSession.Write | backend/app/services/ledger.py:219-229 | appends one row, or restores the last committed state and reports a duplicate |
| Session.DbSession.AwardTaskCompletion | backend/app/services/ledger.py:48-66 | pays the instance's value as its completion row, or rolls back |
| Session.DbSession.AwardExcuseIfPolicy | backend/app/services/ledger.py:68-99 | pays nothing, the floored half or the whole value, in the row kind of the policy, or rolls back |
| Session.DbSession.AwardSeries | backend/app/services/ledger.py:101-142 | writes the one bonus row of a series instance, or rolls back |
| Session.DbSession.PayClaim | backend/app/services/ledger.py:144-160 | debits a claim from the balance |
| Session.DbSession.AdjustPoints | backend/app/services/ledger.py:162-181 | refuses a blank reason, otherwise adds the signed adjustment |
| Session.DbSession.WriteReversal | backend/app/services/ledger.py:183-203 | writes the negated value as the instance's reversal row, or rolls back |
| Session.DbSession.Suspend | backend/app/services/state_machine.py:254-262 | counts the overdue seconds only if the clock was running, and stops it |
| Session.DbSession.Resume | backend/app/services/state_machine.py:264-267 | restarts the clock and leaves the count |
| Session.DbSession.Complete | backend/app/services/state_machine.py:71-102 | sets the status and then pays, a duplicate undoing both: the completion transaction |
| Session.DbSession.SubmitExcuse | backend/app/services/state_machine.py:104-129 | the excuse transaction, with the clock stopped only from overdue |
| Session.DbSession.Review | backend/app/services/state_machine.py:131-167 | the review transaction on a row waiting for review, and a refusal on any other |
| Session.DbSession.ResolveExcuse | backend/app/services/state_machine.py:169-205 | the excuse answer on a row waiting for it, and a refusal on any other |
| Session.DbSession.CancelInstance | backend/app/services/state_machine.py:207-227 | the cancellation, without a ledger row |
| Session.DbSession.ReverseCompletion | backend/app/services/state_machine.py:229-250 | the reversal transaction: status and compensating row together |
| Session.DbSession.SelectMembers | backend/app/services/series_completion.py:51-56 | finds exactly the rows of the series, in table order |
| Session.DbSession.Sort | backend/app/services/series_completion.py:61-66 | the three lists cover the members, each is empty exactly when no member is of its kind, and the completed values are summed |
| Session.DbSession.EvaluateSeries | backend/app/services/series_completion.py:38-102 | closes and pays the series exactly when the members are payable, and reports whether it did |
| Session.DbSession.CompleteDo | backend/app/routers/tasks.py:198-220 | completion followed by evaluation of the series, as one outcome |
| Session.DbSession.Answer | backend/app/routers/tasks.py:267-284 | dispatches on what the instance waits for and does exactly that transaction |
| Session.DbSession.ReviewHandler | backend/app/routers/tasks.py:267-286 | the whole review request: committed, or nothing stored |
| Session.DbSession.AnswerItem | backend/app/routers/approvals.py:132-166 | one turn of the batch: a guard's error is recorded, a duplicate ends the call |
| Session.DbSession.BulkApprove | backend/app/routers/approvals.py:104-168 | the loop ends in the fold of the items, committed, or in the state it began with |
| Session.DbSession.UpsertInstance | backend/app/workers/generate_instances.py:110-144 | inserts the scheduled row unless its key is stored |
| Session.DbSession.GenerateHorizon | backend/app/workers/generate_instances.py:71-74 | the day loop makes the fourteen upserts of one definition |
| Session.DbSession.GenerateAll | backend/app/workers/generate_instances.py:71-74 | the two loops make the job's upserts in order |
| Session.DbSession.NightlyJob | backend/app/workers/generate_instances.py:52-107 | the job commits the generated table swept at its two clock readings, restricted to its definitions, and is a run of the system |
| Session.DbSession.MarkAllOverdue | backend/app/workers/generate_instances.py:76-87 | turns exactly the active pending rows that are due overdue |
| Session.DbSession.MarkAllMissed | backend/app/workers/generate_instances.py:95-105 | turns exactly the active overdue rows without grace missed |
| Session.DbSession.Commit | backend/app/db/database.py:34-43 | the session's state becomes the stored state |
| Session.DbSession.Rollback | backend/app/db/database.py:34-43 | the session returns to the stored state |
| Interleaving.EveryRun | backend/app/services/ledger.py:219-229 | under every interleaving committed and uncommitted rows never clash, and every row's staleness is accounted for |
| Interleaving.AwardsAreCountedOnce | backend/app/db/migrations/versions/0001_initial_schema.py:290-304 | under every interleaving a task has at most one row of a kind and a series instance one bonus row, and the sum counts each once |
| Interleaving.StaleBalanceIsOffByTheOverlap | backend/app/services/ledger.py:48-66 | a stored balance_after is off by exactly the member's deltas committed between its read and its commit, and right exactly when they sum to zero |
| Interleaving.LoneTransactionPosts | backend/app/services/ledger.py:48-66 | with nothing else under way, read, flush and commit append exactly the row of the serial ledger, or nothing when an index refuses it |
| Interleaving.SlotCountsOnce | backend/app/db/migrations/versions/0001_initial_schema.py:291-297 | under the index the sum over a task's rows of one kind is one row's delta |
| Overlap.MoneyAndStatusPartBy | backend/app/services/state_machine.py:71-250 | under every interleaving of requests and sweeps, from any instance whose money and status agree, it has been paid its status' worth plus exactly what the requests it overwrote unseen were paid, and the two agree if and only if those cancel out |
| Overlap.NothingStaleNothingLost | backend/app/db/database.py:34-43 | when every writer had loaded the version it replaced, nothing was overwritten |
| Overlap.CommitPartsThemIff | backend/app/services/state_machine.py:71-250 | a commit leaves money and status apart exactly when the payments committed since it loaded, and those its copy had overwritten, do not sum to zero |
| Overlap.CompletionIsPaidOnce | backend/app/db/migrations/versions/0001_initial_schema.py:291-297 | under every interleaving of requests and sweeps the completion rows of an instance sum to its point value if there is one and to nothing otherwise |
| Overlap.TableBindsTheCopy | backend/app/services/state_machine.py:36-63 | under every interleaving each version follows the table from the copy it was made from, which was not terminal; a terminal version is replaced only by a writer that had loaded an earlier one |
| Overlap.RequestOutcome | backend/app/services/state_machine.py:71-250 | any request on any copy goes through exactly when its guards hold and the kind of row it writes is not on the ledger, and meets the duplicate error exactly when only the second fails |
| Races.LoneRequestRuns | backend/app/services/state_machine.py:71-250 | with no one else writing, to load, write and commit is to take the request's action on the instance as it stands and book its entries |
| Races.RacePartsThemIff | backend/app/services/state_machine.py:71-250 | any two requests that load any instance together leave money and status apart exactly when both go through on that copy, they do not write the same kind of row, and the first pays a sum other than zero |
| Races.RaceRevivesIff | backend/app/services/state_machine.py:62-63 | they replace a terminal status exactly when both go through and the first cancels, excuses, or reverses or denies too late |
| Races.OpenRacePartsThemIff | backend/app/services/state_machine.py:71-227 | on an open instance money and status part exactly when the first completes it at once for a value other than zero and the second submits it for review, excuses it or cancels it |
| Races.WaitingRacePartsThemIff | backend/app/services/state_machine.py:131-167 | on an instance waiting for review they part exactly when the first approves it for a value not yet paid and other than zero, and the second denies it with a comment |
| Races.DeniedButPaid | backend/app/services/state_machine.py:152-164 | a concrete race of two parents that pays for a denied completion |
| Races.CancelledThenComplete | backend/app/services/state_machine.py:62-63 | a concrete race that brings a cancelled task back complete |
| Races.CancelledButPaid | backend/app/services/state_machine.py:207-227 | a concrete race that leaves a cancelled task paid |
| Retries.RetriesAreMoves | backend/app/services/idempotency.py:38-44 | overlapping retries through the cache, with any other requests, expiries and failed commits, are an interleaving of moves |
| Retries.RetriesCompleteOnce | backend/app/routers/tasks.py:192-222 | however retries overlap with each other and with anything else on the instance, its completion is paid the point value once or not at all |
| Retries.RetriesAloneCommitOnce | backend/app/routers/tasks.py:192-222 | while nothing else touches a fresh instance, at most one of its retries without review is ever committed, and with it the value is paid |
| Retries.RetryMeetsDuplicateIff | backend/app/services/idempotency.py:4-7 | in any state, a retry that missed the cache and whose turn has come meets the duplicate error exactly when it needs no review, the copy it loaded is open, and the completion has been paid |
| Retries.FoundKeyAnswers | backend/app/services/idempotency.py:38-40 | a retry that finds the key is answered with the response set and runs nothing |
| Retries.FirstResponseIsKept | backend/app/services/idempotency.py:42-44 | the key keeps the first response until it expires, each retry is answered with its own, and a committed one adds one version |
| Retries.OverlappingRetryMeetsTheDuplicate | backend/app/services/idempotency.py:38-43 | an overlap of two retries, of any fresh instance, in which the second meets the duplicate error |
| Idempotency.LiveReplayReturnsFirstResponse | backend/app/services/idempotency.py:38-40 | while the response lives, and whatever is served in between, replays return it and change nothing |
| Idempotency.FirstAnswerIsCached | backend/app/services/idempotency.py:42-44 | an answered miss is cached for the full day |
| Idempotency.MissAnswersTheCompletedRow | backend/app/routers/tasks.py:198-222 | a miss answers the instance complete, or waiting for review, as of the request's instant, and that is what is stored |
| Idempotency.AnswerLivesADay | backend/app/services/idempotency.py:21 | a first answer serves replays for exactly 86,400 seconds, after which a retry runs again |
| Idempotency.AnsweredIsStoredIffCommitted | backend/app/services/idempotency.py:42-44 | an answered request is stored exactly when its commit succeeds, while replays report success either way |
| Idempotency.FailedCommitLosesTheRequest | backend/app/services/idempotency.py:42-44 | while the response of a failed commit lives every retry is answered with it, and the state is as if neither the request nor its retries had been made |
| Idempotency.PaidRetryStoresNothing | backend/app/routers/tasks.py:198-222 | once an instance has been paid, a completion without review stores nothing, cached or not |
| Idempotency.RetriesPayAtMostOnce | backend/app/routers/tasks.py:198-222 | over any serial traffic, from any reachable state, an instance has been paid its value for completion once or not at all, and once paid stays so |
| Idempotency.RetriesTakeEffectOnce | backend/app/services/idempotency.py:31-33 | however a completion is retried in turn, under any keys, lifetimes and failing commits, the state is untouched or as one retry alone leaves it |
| Idempotency.LateRetrySubmitsAgainIff | backend/app/services/idempotency.py:38-43 | a retry without a live response takes effect exactly when the instance is open and would not be paid twice |
| Idempotency.ResponseCache.RunIdempotent | backend/app/services/idempotency.py:24-44 | look up, run, set, then commit or not: the session and cache end as the served request says |
| Reports.BuildWeeklyReport | backend/app/services/reports.py:43-106 | one entry per week from the start, ascending, each with the figures declared for that week |
| Reports.EntryFigures | backend/app/services/reports.py:73-105 | from a Monday, each entry's completed, missed, excuses and points are the figures of its own seven days |
| Reports.EntryRate | backend/app/services/reports.py:94-105 | each entry's rate is absent exactly if it has none completed or missed, and otherwise the share of its own completed |
| Reports.ReportAddsUp | backend/app/services/reports.py:91-106 | from a Monday, each field summed over the report's entries is the figure of the whole range |
| Reports.EmptyBuckets | backend/app/services/reports.py:63-71 | the buckets are exactly the range's week starts, all zero |
| Reports.CountRows | backend/app/services/reports.py:73-84 | every bucket holds the counts of its week's rows |
| Reports.CountPoints | backend/app/services/reports.py:86-89 | every bucket holds the sum of its week's entries |
| Reports.MondayWeeksAreSevenDays | backend/app/services/reports.py:37-40 | from a Monday an instant is counted exactly in the week of its local day |
| Reports.OffMondayReportsAreEmpty | backend/app/services/reports.py:37-40 | a week that starts on another day counts nothing |
| Reports.RateIsAProportion | backend/app/services/reports.py:94-95 | the rate is absent exactly when nothing was completed or missed and otherwise lies in [0, 1] |
| Reports.TotalsAddUp | backend/app/services/reports.py:73-89 | from a Monday the weekly figures sum to the figures of the range |
| Reports.InputOrderIsIrrelevant | backend/app/services/reports.py:73-89 | any order of rows and entries gives the same week |
| Ascending.Least | backend/app/services/reports.py:92 | takes the least remaining bucket |
| SeriesWindow.WindowContainsNow | backend/app/routers/series.py:204-233 | the window computed at an instant contains it |
| SeriesWindow.WeeklyWindowIsAMondayWeek | backend/app/routers/series.py:210-215 | a weekly window is seven days long from a Monday's midnight |
| SeriesWindow.MonthlyWindowIsTheMonth | backend/app/routers/series.py:216-224 | a monthly window starts at the midnight of day 1 and holds exactly the instants of its month |
| SeriesWindow.CustomWindowStartsToday | backend/app/routers/series.py:225-228 | a custom window is seven days long from the midnight before now |
| SeriesWindow.YearStart | backend/app/routers/series.py:216-224 | the calendar used counts 365 days a year and a leap day every fourth, but for centuries not divisible by 400 |
| SeriesWindow.MonthOffsets | backend/app/routers/series.py:216-224 | how far each month's first is from the year's, in both kinds of year |
| SeriesWindow.KnownDates | backend/app/routers/series.py:216-224 | three known dates have their known day numbers and weekdays |
| SeriesWindow.WindowsPartition | backend/app/routers/series.py:210-224 | two weekly or two monthly windows are identical or disjoint |
| SeriesWindow.NextWindowStartsAtTheEnd | backend/app/routers/series.py:210-228 | the window computed at a window's end starts there, over year ends and every month length |
| SeriesWindow.WindowsLeaveNoGap | backend/app/routers/series.py:210-228 | the end of every window is a local instant, and the window computed there starts at it |
| SeriesWindow.DateOf | backend/app/routers/series.py:216-224 | every day from the first on has a date in the calendar used |
| SeriesWindow.CustomWindowsOverlapIff | backend/app/routers/series.py:225-228 | two custom windows overlap exactly when opened less than seven dates apart |
| SeriesWindow.DayNumberNamesOneDate | backend/app/routers/series.py:216-224 | the calendar used is sound: different valid dates have different day numbers |
| RateLimit.Limiter.CheckRateLimit | backend/app/services/rate_limit.py:15-27 | counts the attempt, arms the window on its first, and admits exactly the first `maxAttempts` |
| RateLimit.WindowAdmitsExactly | backend/app/services/rate_limit.py:15-27 | each window of any history admits exactly the lesser of its attempts and the limit |
| RateLimit.IntervalAdmitsAtMostTwice | backend/app/services/rate_limit.py:15-27 | any interval of one window's length admits at most twice the limit |
| RateLimit.CounterIsUnarmedIff | backend/app/services/rate_limit.py:22-25 | over any history the counter has no expiry exactly when some attempt that created it died before arming one |
| RateLimit.WindowEndsIff | backend/app/services/rate_limit.py:15-25 | a window's length after the last attempt the counter is gone exactly when no such death occurred |
| RateLimit.UnarmedCounterNeverResets | backend/app/services/rate_limit.py:22-25 | a counter left without an expiry counts every later attempt and never expires, whenever they come |
| RateLimit.DeathLocksOut | backend/app/services/rate_limit.py:22-27 | after such a death exactly those later attempts are admitted that do not die and come before the limit is used up, and then none ever |
| RateLimit.OneDeathRefusesForGood | backend/app/services/rate_limit.py:22-27 | a concrete history in which one death refuses an attempt a year later that would otherwise be admitted |
| LinkCodes.LinkService.CreateLinkCode | backend/app/services/linking.py:41-58 | drops the member's live code and stores the new pair of keys |
| LinkCodes.LinkService.RedeemLinkCode | backend/app/services/linking.py:61-73 | returns and consumes a live code's member, and changes nothing otherwise |
| LinkCodes.IndexHoldsForever | backend/app/services/linking.py:41-73 | in every serial run, collisions included, a live code's member key holds that code and outlives it |
| LinkCodes.FreshCodeLivesADay | backend/app/services/linking.py:30-58 | a code just issued redeems for its member for exactly 86,400 seconds, and the member's older live code is dead at once |
| LinkCodes.RedemptionConsumes | backend/app/services/linking.py:61-73 | a redemption that succeeds leaves neither key, and one that fails changes nothing |
| LinkCodes.OneLiveCodePerMember | backend/app/services/linking.py:41-46 | a member never has two live codes |
| LinkCodes.EachIssueRedeemsAtMostOnce | backend/app/services/linking.py:61-73 | redemptions of a code, plus one if it is stored, never outnumber its issues |
| LinkCodes.RedemptionReturnsTheLastOwner | backend/app/services/linking.py:61-73 | a redemption returns the member the code was last issued to, and the code is that member's latest |
| LinkCodes.OthersCodeSurvivesIff | backend/app/services/linking.py:49-55 | issuing keeps another member's code exactly when it is not drawn again and is not what the issuing member's live key names |
| LinkCodes.CollisionLosesAFreshCode | backend/app/services/linking.py:49-55 | a concrete run in which a collision loses another member's fresh code |

## Left out

- Effects.BalanceIsWhatHappened: claim debits are counted as they occur; that a claim is debited at most once is not claimed, because `resolve_claim` checks no status and no index covers claims (`backend/app/routers/wallet.py:173-187`).
- SeriesSafety.BonusIsEarned: safety only; the bonus need not ever be paid, since evaluation is called on completion and not on review or excuse approval (`backend/app/routers/tasks.py:205-218`).
- Overlap.MoneyAndStatusPartBy: one instance and its own ledger rows; a series bonus written in an overlapping request is not part of it, and columns other than those of the model are not merged column by column.
- Retries.RetriesAloneCommitOnce: only while nothing else touches the instance, and for completions that need no review; Retries.RetriesCompleteOnce asks neither.
- Idempotency.RetriesPayAtMostOnce: serial traffic; overlapping retries are in Retries.RetriesCompleteOnce. The cache is modelled in front of completion; the other handlers use it in the same way.
- LinkCodes.IndexHoldsForever: serial runs; commands of two link operations do not interleave, nor do those of two limiter calls.
- RunTheorems.MoneyMatchesStatus: instances and definitions are never deleted.
- GraceClock.ChargeClosedForm: `total_seconds()` is exact here, not a binary float; hours and seconds are unbounded.
- Reports.BuildWeeklyReport: the rate is a real number, without rounding; the queries that scope its inputs to a member and a range are not modelled.
- SeriesWindow.WindowsPartition: local wall time; the conversion of the bounds to UTC and the end of the year 9999 are not modelled.
- Session.DbSession.SubmitExcuse: service methods are modelled up to the commit; the excuse and cancel endpoints around them add notification and the same commit.
- Session.DbSession.UpsertInstance: the parsing of `due_time` and of dates, and the errors of malformed ones, are not modelled; a definition holds them parsed.
- Real time zone data and its ambiguous and missing local hours: `zone` and `localDay` are arbitrary functions, restricted only where a lemma says so.
- HTTP routing, request validation, the ORM, task queue and Redis client libraries.
- Authentication, roles and household scoping: one-branch checks.
- Push notifications, digests and reminders: I/O behind a sent-once flag.
- Titles, notes, comments and display ordering, beyond what the guards look at.
- Savings goals and the claim workflow beyond its debit, and read-only endpoints.
