/**
 * The nightly job as a run of the system: its inserts and its sweep are transactions like
 * any other, so whatever every run keeps, the job keeps too.
 */
module JobRuns {
  import opened Domain
  import opened StateMachine
  import opened Schedule
  import opened Nightly
  import opened Runs
  import RunTheorems

  /** The inserts the scheduled ones among the calls come to. */
  function Inserts(zone: int -> int, calls: seq<Call>): seq<Event> {
    if calls == [] then []
    else
      var last := calls[|calls| - 1];
      Inserts(zone, calls[..|calls| - 1])
      + (if Scheduled(last.defn, last.date) then [Insert(NewRow(zone, last))] else [])
  }

  function JobEvents(
    defns: seq<Definition>, today: int, zone: int -> int, clock: nat -> int,
    overdueAt: int, missedAt: int, graceHours: int): seq<Event>
  {
    Inserts(zone, JobCalls(defns, today, clock))
    + [NightlySweep(set d <- defns :: d.id, overdueAt, missedAt, graceHours)]
  }

  lemma AfterOneMore(r: Run, events: seq<Event>, e: Event)
    ensures After(r, events + [e]) == Step(After(r, events), e)
  {
    assert (events + [e])[..|events + [e]| - 1] == events;
  }

  lemma InsertIsAStep(r: Run, row: TaskRow)
    requires Fresh(row)
    ensures Step(r, Insert(row)) == Run(r.store.(rows := InsertRow(r.store.rows, row)), r.policies)
  {
  }

  lemma SweepIsAStep(r: Run, active: set<nat>, overdueAt: int, missedAt: int, graceHours: int)
    ensures Step(r, NightlySweep(active, overdueAt, missedAt, graceHours))
            == Run(r.store.(rows := Sweep(r.store.rows, active, overdueAt, missedAt, graceHours)), r.policies)
  {
  }

  lemma {:induction false} GenerationIsARun(r: Run, zone: int -> int, calls: seq<Call>)
    ensures After(r, Inserts(zone, calls)) == Run(r.store.(rows := Generate(r.store.rows, zone, calls)), r.policies)
  {
    if calls != [] {
      var n := |calls| - 1;
      var before, row := Inserts(zone, calls[..n]), NewRow(zone, calls[n]);
      GenerationIsARun(r, zone, calls[..n]);
      if Scheduled(calls[n].defn, calls[n].date) {
        AfterOneMore(r, before, Insert(row));
        InsertIsAStep(After(r, before), row);
      } else {
        assert Inserts(zone, calls) == before;
      }
    }
  }

  /** A job leaves the state a run of its inserts and its sweep leaves. */
  lemma NightlyJobIsARun(
    r: Run, defns: seq<Definition>, today: int, zone: int -> int, clock: nat -> int,
    overdueAt: int, missedAt: int, graceHours: int)
    ensures var generated := Generate(r.store.rows, zone, JobCalls(defns, today, clock));
            After(r, JobEvents(defns, today, zone, clock, overdueAt, missedAt, graceHours))
            == Run(r.store.(rows := Sweep(generated, set d <- defns :: d.id, overdueAt, missedAt, graceHours)), r.policies)
  {
    var calls := JobCalls(defns, today, clock);
    GenerationIsARun(r, zone, calls);
    AfterOneMore(r, Inserts(zone, calls), NightlySweep(set d <- defns :: d.id, overdueAt, missedAt, graceHours));
    SweepIsAStep(After(r, Inserts(zone, calls)), set d <- defns :: d.id, overdueAt, missedAt, graceHours);
  }

  // ---------------------------------------------------------------- keys over a run

  lemma MeanwhileJoins(a: seq<TaskRow>, b: seq<TaskRow>, c: seq<TaskRow>, definition: nat)
    requires Meanwhile(a, b, definition) && Meanwhile(b, c, definition)
    ensures Meanwhile(a, c, definition)
  {
    forall k | 0 <= k < |a|
      ensures SameIdentity(a[k], c[k])
    {
      assert SameIdentity(a[k], b[k]) && SameIdentity(b[k], c[k]);
    }
    forall k | |a| <= k < |c|
      ensures c[k].definition != definition
    {
      assert k < |b| ==> SameIdentity(b[k], c[k]);
    }
  }

  lemma StepKeepsIdentities(r: Run, e: Event)
    requires !e.Insert?
    ensures |Step(r, e).store.rows| == |r.store.rows|
    ensures forall k :: 0 <= k < |r.store.rows| ==> SameIdentity(r.store.rows[k], Step(r, e).store.rows[k])
  {
    StepKeepsLength(r, e);
    forall k | 0 <= k < |r.store.rows|
      ensures SameIdentity(r.store.rows[k], Step(r, e).store.rows[k])
    {
      var acts := RunTheorems.StepIsPlay(r, e, k);
      IdentityIsFrozen(r.store.rows[k], acts);
    }
  }

  lemma StepKeepsLength(r: Run, e: Event)
    requires !e.Insert?
    ensures |Step(r, e).store.rows| == |r.store.rows|
  {
  }

  lemma StepIsMeanwhile(r: Run, e: Event, definition: nat)
    requires UniqueKeys(r.store.rows) && !(e.Insert? && e.row.definition == definition)
    ensures Meanwhile(r.store.rows, Step(r, e).store.rows, definition)
  {
    var rows, next := r.store.rows, Step(r, e).store.rows;
    if !e.Insert? {
      StepKeepsIdentities(r, e);
      forall j, k | 0 <= j < k < |next|
        ensures next[j].definition != next[k].definition || next[j].dueAt != next[k].dueAt
      {
        assert SameIdentity(rows[j], next[j]) && SameIdentity(rows[k], next[k]);
      }
    }
  }

  /** uq_instance_def_due holds along every run: no definition has two instances due at one time. */
  lemma {:induction false} KeysStayUnique(r: Run, events: seq<Event>)
    requires UniqueKeys(r.store.rows)
    ensures UniqueKeys(After(r, events).store.rows)
  {
    if events != [] {
      var n := |events| - 1;
      KeysStayUnique(r, events[..n]);
      var e := events[n];
      StepIsMeanwhile(After(r, events[..n]), e, if e.Insert? then e.row.definition + 1 else 0);
    }
  }

  /** A run that inserts nothing for a definition is one of the things that may happen between two visits to it. */
  lemma {:induction false} RunIsMeanwhile(r: Run, events: seq<Event>, definition: nat)
    requires UniqueKeys(r.store.rows)
    requires forall k :: 0 <= k < |events| && events[k].Insert? ==> events[k].row.definition != definition
    ensures Meanwhile(r.store.rows, After(r, events).store.rows, definition)
  {
    if events != [] {
      var n := |events| - 1;
      RunIsMeanwhile(r, events[..n], definition);
      StepIsMeanwhile(After(r, events[..n]), events[n], definition);
      MeanwhileJoins(r.store.rows, After(r, events[..n]).store.rows, After(r, events).store.rows, definition);
    }
  }
}
