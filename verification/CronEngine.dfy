/** The scheduler of the cron engine as a state machine: callers that hold the mutex, one
    outstanding request to the scheduler goroutine, and the goroutine's own steps. Every
    instant here is in nanoseconds; `None` is the zero time. */
module CronEngine {
  import opened Results
  import opened Search
  import opened CronSpec
  import opened CronActivations

  // Schedules.

  /** The two kinds of schedule the engine brings, and any other that a caller implements. */
  datatype Schedule = Spec(spec: SpecSchedule) | Delay(delay: int) | Other(next: int -> Option<int>)

  /** A delay of at least a second, truncated to whole seconds. */
  function Every(duration: int): (r: Schedule)
    ensures Regular(r) && r.Delay?
    ensures duration >= NANOS ==> r.delay <= duration < r.delay + NANOS
    ensures duration < NANOS ==> r.delay == NANOS
  {
    var d := if duration < NANOS then NANOS else duration;
    Delay(d - d % NANOS)
  }

  /** The schedule keeps the promise of the interface, to return a later time or none: a delay
      does when `Every` could have built it. */
  ghost predicate Regular(s: Schedule) {
    match s
    case Spec(_) => true
    case Delay(d) => d >= NANOS && d % NANOS == 0
    case Other(next) => forall now :: next(now).Some? ==> now < next(now).value
  }

  function NextOf(s: Schedule, now: int): Option<int> {
    match s
    case Spec(spec) => (match NextActivation(spec, now) case None => None case Some(t) => Some(t * NANOS))
    case Delay(d) => Some(now + (d - now % NANOS))
    case Other(next) => next(now)
  }

  /** A regular schedule returns a strictly later instant or none; the engine's own kinds, a whole second. */
  lemma NextIsLater(s: Schedule, now: int)
    requires Regular(s)
    ensures NextOf(s, now).Some? ==> now < NextOf(s, now).value
    ensures NextOf(s, now).Some? && !s.Other? ==> NextOf(s, now).value % NANOS == 0
    ensures NextOf(s, now).Some? && s.Spec? ==> Matches(s.spec, NextOf(s, now).value / NANOS)
  {
    hide Matches, SearchEnd;
    match s {
      case Spec(spec) =>
        var r := NextActivation(spec, now);
        if r.Some? {
          assert IsFirst(Activation(spec), UpcomingSecond(now), SearchEnd(now), r);
          assert now < r.value * NANOS;
        }
      case Delay(d) =>
        assert (now + (d - now % NANOS)) % NANOS == 0;
      case Other(_) =>
    }
  }

  /** A delay is waited from the start of the current second; a wait of 90.5 seconds is one of 90. */
  lemma DelayIsWaited(duration: int, now: int)
    ensures var delay := if duration < NANOS then NANOS else duration / NANOS * NANOS;
            NextOf(Every(duration), now) == Some(now / NANOS * NANOS + delay)
  {
    WholeSeconds(now);
    WholeSeconds(duration);
  }

  lemma WholeSeconds(x: int)
    ensures x - x % NANOS == x / NANOS * NANOS
  {
  }

  // The state machine.

  datatype Job = Job(schedule: Schedule, next: Option<int>, prev: Option<int>)

  datatype Phase = Stopped | Starting | Waiting

  /** What a caller that holds the mutex asks of the scheduler goroutine. */
  datatype Request = AddEntry(id: nat, schedule: Schedule) | RemoveEntry(id: nat) | Halt

  datatype Engine = Engine(jobs: map<nat, Job>, nextID: nat, phase: Phase, request: Option<Request>)

  datatype Event =
    | CallAdd(schedule: Schedule)
    | CallRemove(id: nat)
    | CallStart
    | CallStop
    | Begin(now: int)
    | Wake(now: int)
    | Accept(now: int)

  const NEW := Engine(map[], 0, Stopped, None)

  /** Callers need the mutex, which is held while a request is outstanding. */
  predicate Enabled(e: Engine, ev: Event) {
    match ev
    case CallAdd(_) => e.request.None?
    case CallRemove(_) => e.request.None?
    case CallStart => e.request.None?
    case CallStop => e.request.None?
    case Begin(_) => e.phase.Starting?
    case Wake(_) => e.phase.Waiting?
    case Accept(_) => e.phase.Waiting? && e.request.Some?
  }

  predicate Due(j: Job, now: int) {
    j.next.Some? && j.next.value <= now
  }

  function Planned(j: Job, now: int): Job {
    Job(j.schedule, NextOf(j.schedule, now), j.prev)
  }

  function Woken(j: Job, now: int): Job {
    if Due(j, now) then Job(j.schedule, NextOf(j.schedule, now), j.next) else j
  }

  function AllPlanned(jobs: map<nat, Job>, now: int): map<nat, Job> {
    map id | id in jobs :: Planned(jobs[id], now)
  }

  function AllWoken(jobs: map<nat, Job>, now: int): map<nat, Job> {
    map id | id in jobs :: Woken(jobs[id], now)
  }

  function Step(e: Engine, ev: Event): Engine
    requires Enabled(e, ev)
  {
    match ev
    case CallAdd(s) =>
      var id := e.nextID + 1;
      if e.phase.Stopped? then e.(nextID := id, jobs := e.jobs[id := Job(s, None, None)])
      else e.(nextID := id, request := Some(AddEntry(id, s)))
    case CallRemove(id) =>
      if e.phase.Stopped? then e.(jobs := e.jobs - {id}) else e.(request := Some(RemoveEntry(id)))
    case CallStart => if e.phase.Stopped? then e.(phase := Starting) else e
    case CallStop => if e.phase.Stopped? then e else e.(request := Some(Halt))
    case Begin(now) =>
      e.(phase := Waiting, jobs := AllPlanned(e.jobs, now))
    case Wake(now) =>
      e.(jobs := AllWoken(e.jobs, now))
    case Accept(now) =>
      match e.request.value
      case AddEntry(id, s) => e.(request := None, jobs := e.jobs[id := Job(s, NextOf(s, now), None)])
      case RemoveEntry(id) => e.(request := None, jobs := e.jobs - {id})
      case Halt => e.(request := None, phase := Stopped)
  }

  /** The clock after an event; callers do not read it. */
  function ClockAfter(clock: int, ev: Event): int {
    match ev
    case Begin(now) => now
    case Wake(now) => now
    case Accept(now) => now
    case _ => clock
  }

  /** The events can happen in this order under a clock that never goes back. */
  predicate Runs(e: Engine, clock: int, events: seq<Event>)
    decreases |events|
  {
    |events| == 0 ||
    (Enabled(e, events[0]) && clock <= ClockAfter(clock, events[0])
     && Runs(Step(e, events[0]), ClockAfter(clock, events[0]), events[1..]))
  }

  function After(e: Engine, clock: int, events: seq<Event>): Engine
    requires Runs(e, clock, events)
    decreases |events|
  {
    if |events| == 0 then e else After(Step(e, events[0]), ClockAfter(clock, events[0]), events[1..])
  }

  function LastClock(clock: int, events: seq<Event>): int
    decreases |events|
  {
    if |events| == 0 then clock else LastClock(ClockAfter(clock, events[0]), events[1..])
  }

  predicate StartsJob(e: Engine, ev: Event, id: nat) {
    ev.Wake? && id in e.jobs && Due(e.jobs[id], ev.now)
  }

  /** The instants for which the job was started, in the order of the starts. */
  function Instants(e: Engine, clock: int, events: seq<Event>, id: nat): seq<int>
    requires Runs(e, clock, events)
    decreases |events|
  {
    if |events| == 0 then []
    else
      var rest := Instants(Step(e, events[0]), ClockAfter(clock, events[0]), events[1..], id);
      if StartsJob(e, events[0], id) then [e.jobs[id].next.value] + rest else rest
  }

  /** The identifiers that the calls to Schedule return. */
  function Returned(e: Engine, clock: int, events: seq<Event>): seq<nat>
    requires Runs(e, clock, events)
    decreases |events|
  {
    if |events| == 0 then []
    else
      var rest := Returned(Step(e, events[0]), ClockAfter(clock, events[0]), events[1..]);
      if events[0].CallAdd? then [e.nextID + 1] + rest else rest
  }

  // Invariants.

  ghost predicate JobOk(j: Job, phase: Phase, clock: int) {
    && Regular(j.schedule)
    && (j.prev.Some? ==> j.prev.value <= clock)
    && (j.prev.Some? && j.next.Some? && phase.Waiting? ==> j.prev.value < j.next.value)
    && (j.next.Some? && j.schedule.Spec? ==> Matches(j.schedule.spec, j.next.value / NANOS))
  }

  ghost predicate Inv(e: Engine, clock: int) {
    && (forall id :: id in e.jobs ==> 1 <= id <= e.nextID && JobOk(e.jobs[id], e.phase, clock))
    && (e.request.Some? ==> !e.phase.Stopped?)
    && (e.request.Some? && e.request.value.AddEntry? ==>
          1 <= e.request.value.id <= e.nextID && e.request.value.id !in e.jobs && Regular(e.request.value.schedule))
  }

  lemma PlannedIsOk(j: Job, phase: Phase, clock: int, now: int)
    requires JobOk(j, phase, clock) && clock <= now
    ensures JobOk(Planned(j, now), Waiting, now)
  {
    hide Matches, NextOf;
    NextIsLater(j.schedule, now);
  }

  lemma WokenIsOk(j: Job, clock: int, now: int)
    requires JobOk(j, Waiting, clock) && clock <= now
    ensures JobOk(Woken(j, now), Waiting, now) && !Due(Woken(j, now), now)
  {
    hide Matches, NextOf;
    NextIsLater(j.schedule, now);
  }

  lemma AddedIsOk(s: Schedule, clock: int)
    requires Regular(s)
    ensures JobOk(Job(s, NextOf(s, clock), None), Waiting, clock)
    ensures JobOk(Job(s, None, None), Stopped, clock)
  {
    hide Matches, NextOf;
    NextIsLater(s, clock);
  }

  lemma StepKeepsInvariant(e: Engine, clock: int, ev: Event)
    requires Inv(e, clock) && Enabled(e, ev) && clock <= ClockAfter(clock, ev)
    requires ev.CallAdd? ==> Regular(ev.schedule)
    ensures Inv(Step(e, ev), ClockAfter(clock, ev))
  {
    hide NextOf, Planned, Woken, Regular;
    match ev {
      case CallAdd(s) => AddedIsOk(s, clock);
      case Begin(now) =>
        forall id | id in e.jobs ensures JobOk(Planned(e.jobs[id], now), Waiting, now) {
          PlannedIsOk(e.jobs[id], e.phase, clock, now);
        }
      case Wake(now) =>
        forall id | id in e.jobs ensures JobOk(Woken(e.jobs[id], now), Waiting, now) {
          WokenIsOk(e.jobs[id], clock, now);
        }
      case Accept(now) =>
        if e.request.value.AddEntry? { AddedIsOk(e.request.value.schedule, now); }
      case _ =>
    }
  }

  ghost predicate RegularAdds(events: seq<Event>) {
    forall i :: 0 <= i < |events| && events[i].CallAdd? ==> Regular(events[i].schedule)
  }

  lemma {:induction false} RunKeepsInvariant(e: Engine, clock: int, events: seq<Event>)
    requires Inv(e, clock) && Runs(e, clock, events) && RegularAdds(events)
    ensures Inv(After(e, clock, events), LastClock(clock, events))
    decreases |events|
  {
    hide Inv, Step, Enabled;
    if |events| > 0 {
      StepKeepsInvariant(e, clock, events[0]);
      RunKeepsInvariant(Step(e, events[0]), ClockAfter(clock, events[0]), events[1..]);
    }
  }

  // What a step does to each job, and to nothing else.

  ghost predicate Numbered(e: Engine) {
    && (forall id :: id in e.jobs ==> 1 <= id <= e.nextID)
    && (e.request.Some? && e.request.value.AddEntry? ==>
          1 <= e.request.value.id <= e.nextID && e.request.value.id !in e.jobs)
  }

  lemma StepKeepsNumbered(e: Engine, ev: Event)
    requires Numbered(e) && Enabled(e, ev)
    ensures Numbered(Step(e, ev))
  {
    hide NextOf;
  }

  /** The step carries out the removal of exactly this entry. */
  ghost predicate Removes(e: Engine, ev: Event, id: nat) {
    (ev == CallRemove(id) && e.phase.Stopped?) || (ev.Accept? && e.request == Some(RemoveEntry(id)))
  }

  /** A job leaves only when it is removed; the first pass of a start plans it anew, a wake that it
      was due for starts it and plans it anew, and every other step leaves it as it is. */
  lemma JobAfterStep(e: Engine, ev: Event, id: nat)
    requires Numbered(e) && Enabled(e, ev) && id in e.jobs
    ensures var j, jobs := e.jobs[id], Step(e, ev).jobs;
            && (id in jobs <==> !Removes(e, ev, id))
            && (id in jobs ==>
                  jobs[id] ==
                  if ev.Begin? then Job(j.schedule, NextOf(j.schedule, ev.now), j.prev)
                  else if ev.Wake? && j.next.Some? && j.next.value <= ev.now
                       then Job(j.schedule, NextOf(j.schedule, ev.now), j.next)
                  else j)
  {
    hide NextOf;
  }

  /** A job appears only by being added: at once and without a plan while the engine is stopped,
      planned from now when the running scheduler receives it. */
  lemma JobsAdded(e: Engine, ev: Event, id: nat)
    requires Enabled(e, ev) && id !in e.jobs
    ensures var jobs := Step(e, ev).jobs;
            var atOnce := ev.CallAdd? && e.phase.Stopped? && id == e.nextID + 1;
            var received := ev.Accept? && e.request.value.AddEntry? && e.request.value.id == id;
            && (id in jobs <==> atOnce || received)
            && (atOnce ==> jobs[id] == Job(ev.schedule, None, None))
            && (received ==> jobs[id] == Job(e.request.value.schedule, NextOf(e.request.value.schedule, ev.now), None))
  {
    hide NextOf;
  }

  /** What callers ask of a running engine is kept until it is accepted; phases change only by
      starting, by the first pass and by an accepted stop. */
  lemma PhaseAfterStep(e: Engine, ev: Event)
    requires Enabled(e, ev)
    ensures Step(e, ev).phase ==
            if ev.CallStart? && e.phase.Stopped? then Starting
            else if ev.Begin? then Waiting
            else if ev.Accept? && e.request.value.Halt? then Stopped
            else e.phase
    ensures Step(e, ev).request ==
            if ev.Accept? then None
            else if e.phase.Stopped? then e.request
            else if ev.CallAdd? then Some(AddEntry(e.nextID + 1, ev.schedule))
            else if ev.CallRemove? then Some(RemoveEntry(ev.id))
            else if ev.CallStop? then Some(Halt)
            else e.request
  {
  }

  // One step.

  /** A wake leaves no job overdue. */
  lemma NothingOverdueAfterWake(e: Engine, clock: int, now: int, id: nat)
    requires Inv(e, clock) && e.phase.Waiting? && clock <= now
    requires id in Step(e, Wake(now)).jobs
    ensures !Due(Step(e, Wake(now)).jobs[id], now)
  {
    hide NextOf, Woken, JobOk;
    WokenIsOk(e.jobs[id], clock, now);
  }

  /** While the scheduler runs, a job's Next changes only in a step that starts the job. */
  lemma NextChangesOnlyWhenStarted(e: Engine, clock: int, ev: Event, id: nat)
    requires Inv(e, clock) && Enabled(e, ev) && e.phase.Waiting? && clock <= ClockAfter(clock, ev)
    requires id in e.jobs && id in Step(e, ev).jobs
    ensures Step(e, ev).jobs[id].next != e.jobs[id].next <==> StartsJob(e, ev, id)
    ensures Step(e, ev).jobs[id].prev != e.jobs[id].prev ==> StartsJob(e, ev, id)
  {
    hide NextOf, JobOk;
    if StartsJob(e, ev, id) {
      NothingOverdueAfterWake(e, clock, ev.now, id);
    }
  }

  // Whole runs.

  /** Strictly increasing, and above the bound. */
  predicate Ascends(bound: int, a: seq<int>) {
    && (forall i :: 0 <= i < |a| ==> bound < a[i])
    && (forall i, j :: 0 <= i < j < |a| ==> a[i] < a[j])
  }

  lemma NothingAscends(bound: int)
    ensures Ascends(bound, [])
  {
  }

  lemma PrependAscends(bound: int, x: int, rest: seq<int>)
    requires bound < x && Ascends(x, rest)
    ensures Ascends(bound, [x] + rest)
  {
  }

  lemma StepCounts(e: Engine, ev: Event)
    requires Enabled(e, ev)
    ensures Step(e, ev).nextID == e.nextID + if ev.CallAdd? then 1 else 0
  {
  }

  function Adds(events: seq<Event>): nat {
    if |events| == 0 then 0 else (if events[0].CallAdd? then 1 else 0) + Adds(events[1..])
  }

  /** Every call to Schedule returns the next identifier, so that no two return the same. */
  lemma {:induction false} IdentifiersAreNeverReused(e: Engine, clock: int, events: seq<Event>)
    requires Runs(e, clock, events)
    ensures Ascends(e.nextID, Returned(e, clock, events))
    ensures |Returned(e, clock, events)| == Adds(events)
    ensures forall i :: 0 <= i < Adds(events) ==> Returned(e, clock, events)[i] == e.nextID + 1 + i
    decreases |events|
  {
    hide Ascends, Step, Enabled;
    if |events| == 0 {
      NothingAscends(e.nextID);
    } else {
      var e', clock' := Step(e, events[0]), ClockAfter(clock, events[0]);
      StepCounts(e, events[0]);
      IdentifiersAreNeverReused(e', clock', events[1..]);
      if events[0].CallAdd? {
        PrependAscends(e.nextID, e.nextID + 1, Returned(e', clock', events[1..]));
      }
    }
  }

  /** The identifier was handed out, and its job is neither in the engine nor about to be. */
  predicate Gone(e: Engine, id: nat) {
    && 1 <= id <= e.nextID && id !in e.jobs
    && (e.request.Some? && e.request.value.AddEntry? ==> e.request.value.id != id)
  }

  lemma GoneStaysGone(e: Engine, ev: Event, id: nat)
    requires Gone(e, id) && Enabled(e, ev)
    ensures Gone(Step(e, ev), id) && id !in e.jobs
  {
  }

  lemma RemovalIsEffective(e: Engine, clock: int, ev: Event, id: nat)
    requires Inv(e, clock) && Enabled(e, ev) && 1 <= id <= e.nextID
    requires (ev == CallRemove(id) && e.phase.Stopped?) || (ev.Accept? && e.request == Some(RemoveEntry(id)))
    ensures Gone(Step(e, ev), id)
  {
    hide JobOk;
  }

  /** A removed job never starts again, in any continuation of the run. */
  lemma {:induction false} RemovedNeverStarts(e: Engine, clock: int, events: seq<Event>, id: nat)
    requires Runs(e, clock, events) && Gone(e, id)
    ensures Instants(e, clock, events, id) == [] && Gone(After(e, clock, events), id)
    decreases |events|
  {
    hide Gone, Step, Enabled;
    if |events| > 0 {
      GoneStaysGone(e, events[0], id);
      RemovedNeverStarts(Step(e, events[0]), ClockAfter(clock, events[0]), events[1..], id);
    }
  }

  /** Some step of the run removes the entry. */
  ghost predicate RemovedIn(e: Engine, clock: int, events: seq<Event>, id: nat)
    requires Runs(e, clock, events)
    decreases |events|
  {
    |events| > 0 &&
    (Removes(e, events[0], id) || RemovedIn(Step(e, events[0]), ClockAfter(clock, events[0]), events[1..], id))
  }

  lemma RemovedIsGone(e: Engine, ev: Event, id: nat)
    requires Numbered(e) && Enabled(e, ev) && id in e.jobs && Removes(e, ev, id)
    ensures Gone(Step(e, ev), id)
  {
  }

  /** Over any run an entry stays, with its schedule, exactly unless some step removes it. */
  lemma {:induction false} HeldUnlessRemoved(e: Engine, clock: int, events: seq<Event>, id: nat)
    requires Numbered(e) && Runs(e, clock, events) && id in e.jobs
    ensures id in After(e, clock, events).jobs <==> !RemovedIn(e, clock, events, id)
    ensures id in After(e, clock, events).jobs ==> After(e, clock, events).jobs[id].schedule == e.jobs[id].schedule
    decreases |events|
  {
    hide Numbered, Step, Enabled, Removes, Gone, NextOf;
    if |events| > 0 {
      var ev := events[0];
      var e', clock' := Step(e, ev), ClockAfter(clock, ev);
      StepKeepsNumbered(e, ev);
      JobAfterStep(e, ev, id);
      if Removes(e, ev, id) {
        RemovedIsGone(e, ev, id);
        RemovedNeverStarts(e', clock', events[1..], id);
        GoneIsNotHeld(After(e', clock', events[1..]), id);
      } else {
        HeldUnlessRemoved(e', clock', events[1..], id);
      }
    }
  }

  lemma GoneIsNotHeld(e: Engine, id: nat)
    requires Gone(e, id)
    ensures id !in e.jobs
  {
  }

  lemma {:induction false} StoppedStartsNothing(e: Engine, clock: int, events: seq<Event>, id: nat)
    requires Runs(e, clock, events) && e.phase.Stopped? && forall i :: 0 <= i < |events| ==> !events[i].CallStart?
    ensures Instants(e, clock, events, id) == [] && After(e, clock, events).phase.Stopped?
    decreases |events|
  {
    hide Step;
    if |events| > 0 {
      PhaseAfterStep(e, events[0]);
      StoppedStartsNothing(Step(e, events[0]), ClockAfter(clock, events[0]), events[1..], id);
    }
  }

  /** An accepted stop changes no job, and afterwards nothing starts until the engine is started again. */
  lemma HaltStopsStarts(e: Engine, now: int, events: seq<Event>, id: nat)
    requires Enabled(e, Accept(now)) && e.request == Some(Halt)
    requires Runs(Step(e, Accept(now)), now, events) && forall i :: 0 <= i < |events| ==> !events[i].CallStart?
    ensures Step(e, Accept(now)).jobs == e.jobs && Instants(Step(e, Accept(now)), now, events, id) == []
  {
    StoppedStartsNothing(Step(e, Accept(now)), now, events, id);
  }

  lemma StartsAreLater(e: Engine, clock: int, ev: Event, id: nat, bound: int)
    requires Inv(e, clock) && Enabled(e, ev)
    requires id in e.jobs && e.jobs[id].prev == Some(bound)
    ensures StartsJob(e, ev, id) ==>
              && bound < e.jobs[id].next.value
              && id in Step(e, ev).jobs && Step(e, ev).jobs[id].prev == Some(e.jobs[id].next.value)
    ensures !StartsJob(e, ev, id) && id in Step(e, ev).jobs ==> Step(e, ev).jobs[id].prev == Some(bound)
    ensures id !in Step(e, ev).jobs ==> Gone(Step(e, ev), id)
  {
    hide NextOf, Matches;
  }

  lemma {:induction false} StartsIncreaseFrom(e: Engine, clock: int, events: seq<Event>, id: nat, bound: int)
    requires Inv(e, clock) && Runs(e, clock, events) && RegularAdds(events)
    requires id in e.jobs && e.jobs[id].prev == Some(bound)
    ensures Ascends(bound, Instants(e, clock, events, id))
    decreases |events|
  {
    hide Inv, Step, Enabled, Ascends, Gone;
    NothingAscends(bound);
    if |events| > 0 {
      var ev := events[0];
      var e', clock' := Step(e, ev), ClockAfter(clock, ev);
      StepKeepsInvariant(e, clock, ev);
      StartsAreLater(e, clock, ev, id, bound);
      if StartsJob(e, ev, id) {
        var due := e.jobs[id].next.value;
        StartsIncreaseFrom(e', clock', events[1..], id, due);
        PrependAscends(bound, due, Instants(e', clock', events[1..], id));
      } else if id in e'.jobs {
        StartsIncreaseFrom(e', clock', events[1..], id, bound);
      } else {
        RemovedNeverStarts(e', clock', events[1..], id);
      }
    }
  }

  ghost predicate Ascending(a: seq<int>) {
    exists bound :: Ascends(bound, a)
  }

  lemma FirstStart(e: Engine, ev: Event, id: nat)
    requires Enabled(e, ev) && (id in e.jobs ==> e.jobs[id].prev.None?)
    ensures var e' := Step(e, ev);
            if StartsJob(e, ev, id) then id in e'.jobs && e'.jobs[id].prev == Some(e.jobs[id].next.value)
            else id in e'.jobs ==> e'.jobs[id].prev.None?
  {
    hide NextOf;
  }

  /** Whatever is added, removed, stopped and restarted in between, the instants for which an
      entry is started are strictly increasing. */
  lemma {:induction false} StartsIncrease(e: Engine, clock: int, events: seq<Event>, id: nat)
    requires Inv(e, clock) && Runs(e, clock, events) && RegularAdds(events)
    ensures Ascending(Instants(e, clock, events, id))
    decreases |events|
  {
    hide Inv, Step, Enabled, Ascends;
    NothingAscends(0);
    if id in e.jobs && e.jobs[id].prev.Some? {
      StartsIncreaseFrom(e, clock, events, id, e.jobs[id].prev.value);
    } else if |events| > 0 {
      var ev := events[0];
      var e', clock' := Step(e, ev), ClockAfter(clock, ev);
      StepKeepsInvariant(e, clock, ev);
      FirstStart(e, ev, id);
      if StartsJob(e, ev, id) {
        var due := e.jobs[id].next.value;
        StartsIncreaseFrom(e', clock', events[1..], id, due);
        PrependAscends(due - 1, due, Instants(e', clock', events[1..], id));
      } else {
        StartsIncrease(e', clock', events[1..], id);
      }
    }
  }

  lemma NewEngineIsOk(clock: int)
    ensures Inv(NEW, clock)
  {
  }

  /** All of this holds of every run of a new engine to which regular schedules are added. */
  lemma EveryRun(clock: int, events: seq<Event>, id: nat)
    requires Runs(NEW, clock, events) && RegularAdds(events)
    ensures Inv(After(NEW, clock, events), LastClock(clock, events))
    ensures Ascends(0, Returned(NEW, clock, events))
    ensures Ascending(Instants(NEW, clock, events, id))
  {
    hide Inv, Step, Enabled, Ascends;
    NewEngineIsOk(clock);
    RunKeepsInvariant(NEW, clock, events);
    IdentifiersAreNeverReused(NEW, clock, events);
    StartsIncrease(NEW, clock, events, id);
  }

  // Runs whose wakes are on time.

  /** The timer fires less than a second after the instants it was set for. */
  predicate Prompt(e: Engine, ev: Event) {
    ev.Wake? ==> forall id :: id in e.jobs && Due(e.jobs[id], ev.now) ==> ev.now < e.jobs[id].next.value + NANOS
  }

  predicate PromptRun(e: Engine, clock: int, events: seq<Event>)
    requires Runs(e, clock, events)
    decreases |events|
  {
    |events| > 0 ==> Prompt(e, events[0]) && PromptRun(Step(e, events[0]), ClockAfter(clock, events[0]), events[1..])
  }

  predicate NoHalt(e: Engine, events: seq<Event>) {
    && (e.request.Some? ==> !e.request.value.Halt?)
    && forall i :: 0 <= i < |events| ==> !events[i].CallStop?
  }

  function Seconds(a: seq<int>): seq<int> {
    if |a| == 0 then [] else [a[0] / NANOS] + Seconds(a[1..])
  }

  /** From anywhere within a second the next activation is the same. */
  lemma SameSecondSameNext(s: SpecSchedule, t: int, now: int)
    requires t * NANOS <= now < t * NANOS + NANOS
    ensures NextActivation(s, now) == NextActivation(s, t * NANOS)
  {
    hide FirstWhere, SearchEnd;
    assert UpcomingSecond(now) == t + 1 == UpcomingSecond(t * NANOS);
    SearchEndOfUpcoming(now, t * NANOS);
  }

  lemma SearchEndOfUpcoming(a: int, b: int)
    requires UpcomingSecond(a) == UpcomingSecond(b)
    ensures SearchEnd(a) == SearchEnd(b)
  {
  }

  ghost predicate Awaits(e: Engine, id: nat, s: SpecSchedule, base: int) {
    e.phase.Waiting? && id in e.jobs && e.jobs[id].schedule == Spec(s) && e.jobs[id].next == NextOf(Spec(s), base)
  }

  lemma StepOfAwaitedJob(e: Engine, clock: int, ev: Event, id: nat, s: SpecSchedule, base: int)
    requires Inv(e, clock) && Enabled(e, ev) && Prompt(e, ev) && Awaits(e, id, s, base) && !ev.CallStop?
    requires e.request.Some? ==> !e.request.value.Halt?
    ensures var e' := Step(e, ev);
            && (e'.request.Some? ==> !e'.request.value.Halt?)
            && (if StartsJob(e, ev, id) then
                  && NextActivation(s, base).Some?
                  && e.jobs[id].next == Some(NextActivation(s, base).value * NANOS)
                  && Awaits(e', id, s, NextActivation(s, base).value * NANOS)
                else if id in e'.jobs then Awaits(e', id, s, base)
                else Gone(e', id))
  {
    hide NextActivation, Matches;
    if StartsJob(e, ev, id) {
      var t := NextActivation(s, base).value;
      SameSecondSameNext(s, t, ev.now);
      assert e.jobs[id] in {e.jobs[id]} && Due(e.jobs[id], ev.now);
    }
  }

  lemma SecondsOfWhole(t: int, rest: seq<int>)
    ensures Seconds([t * NANOS] + rest) == [t] + Seconds(rest)
  {
    assert ([t * NANOS] + rest)[1..] == rest;
  }

  lemma {:induction false} PromptRunFollowsActivations(
    e: Engine, clock: int, events: seq<Event>, id: nat, s: SpecSchedule, base: int)
    requires Inv(e, clock) && Runs(e, clock, events) && PromptRun(e, clock, events) && NoHalt(e, events) && RegularAdds(events)
    requires Awaits(e, id, s, base)
    ensures var starts := Instants(e, clock, events, id);
            && Seconds(starts) == Activations(s, base, |starts|)
            && (!RemovedIn(e, clock, events, id) ==>
                  Awaits(After(e, clock, events), id, s, if |starts| == 0 then base else starts[|starts| - 1]))
    decreases |events|
  {
    hide Inv, Step, Enabled, Prompt, Gone, Awaits, StartsJob, NextActivation, Removes;
    if |events| > 0 {
      var ev := events[0];
      var e', clock' := Step(e, ev), ClockAfter(clock, ev);
      AwaitedIsHeld(e, clock, ev, id, s, base);
      StepKeepsInvariant(e, clock, ev);
      StepOfAwaitedJob(e, clock, ev, id, s, base);
      if StartsJob(e, ev, id) {
        var t := NextActivation(s, base).value;
        PromptRunFollowsActivations(e', clock', events[1..], id, s, t * NANOS);
        SecondsOfWhole(t, Instants(e', clock', events[1..], id));
      } else if id in e'.jobs {
        PromptRunFollowsActivations(e', clock', events[1..], id, s, base);
      } else {
        RemovedNeverStarts(e', clock', events[1..], id);
      }
    }
  }

  lemma AwaitedIsHeld(e: Engine, clock: int, ev: Event, id: nat, s: SpecSchedule, base: int)
    requires Inv(e, clock) && Enabled(e, ev) && Awaits(e, id, s, base)
    ensures id in Step(e, ev).jobs <==> !Removes(e, ev, id)
    ensures StartsJob(e, ev, id) ==> !Removes(e, ev, id)
  {
    hide JobOk, NextOf;
    JobAfterStep(e, ev, id);
  }

  /** While wakes are on time and nobody stops the engine, an entry planned at `base` is started
      exactly once for every second its schedule matches, in order, with none left out; unless it
      was removed it is still held, and planned for the activation after its last start. */
  lemma PromptRunMissesNothing(e: Engine, clock: int, events: seq<Event>, id: nat, s: SpecSchedule, base: int)
    requires Inv(e, clock) && Runs(e, clock, events) && PromptRun(e, clock, events) && NoHalt(e, events) && RegularAdds(events)
    requires Awaits(e, id, s, base)
    ensures var starts := Instants(e, clock, events, id);
            && Enumerates(Activation(s), base, Seconds(starts))
            && (!RemovedIn(e, clock, events, id) ==>
                  Awaits(After(e, clock, events), id, s, if |starts| == 0 then base else starts[|starts| - 1]))
  {
    hide Inv, Enumerates, Activations, Awaits;
    PromptRunFollowsActivations(e, clock, events, id, s, base);
    IterationEnumeratesMatches(s, base, |Instants(e, clock, events, id)|);
  }
}
