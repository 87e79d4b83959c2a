/** Job wrappers: how a chain composes them, and what the two concurrent ones guarantee in every
    interleaving of the calls to one wrapped job. */
module JobChain {

  // Composition.

  /** m1(m2(m3(job))) for the wrappers m1, m2, m3. */
  function Wrapped<J>(wrappers: seq<J -> J>, job: J): J {
    if |wrappers| == 0 then job else wrappers[0](Wrapped(wrappers[1..], job))
  }

  method Then<J>(wrappers: seq<J -> J>, job: J) returns (j: J)
    ensures j == Wrapped(wrappers, job)
  {
    j := job;
    for i := 0 to |wrappers|
      invariant j == Wrapped(wrappers[|wrappers| - i..], job)
    {
      assert wrappers[|wrappers| - i - 1..][1..] == wrappers[|wrappers| - i..];
      j := wrappers[|wrappers| - i - 1](j);
    }
    assert wrappers[0..] == wrappers;
  }

  /** A chain can be applied in two stages: the inner wrappers first, the outer ones around them. */
  lemma {:induction false} ChainsCompose<J>(outer: seq<J -> J>, inner: seq<J -> J>, job: J)
    ensures Wrapped(outer + inner, job) == Wrapped(outer, Wrapped(inner, job))
  {
    if |outer| == 0 {
      assert outer + inner == inner;
    } else {
      assert (outer + inner)[1..] == outer[1..] + inner;
      ChainsCompose(outer[1..], inner, job);
    }
  }

  // Interleavings.

  /** The wrapper's captured state: how many tokens the channel of SkipIfStillRunning holds, or
      whether the mutex of DelayIfStillRunning is locked. */
  datatype Guard = Channel(tokens: nat) | Mutex(locked: bool)

  /** How far one call has come. `Ended` is a job that returned or panicked and whose deferred
      release has not happened yet. */
  datatype Progress = Called | Executing | Ended(panicked: bool) | Returned(panicked: bool) | Skipped

  datatype World = World(guard: Guard, calls: seq<Progress>)

  datatype Action = Call | Enter(i: nat) | Finish(i: nat, panicked: bool) | Release(i: nat)

  const SKIPPING := World(Channel(1), [])
  const DELAYING := World(Mutex(false), [])

  predicate Enabled(w: World, a: Action) {
    match a
    case Call => true
    case Enter(i) => i < |w.calls| && w.calls[i].Called? && (w.guard.Mutex? ==> !w.guard.locked)
    case Finish(i, _) => i < |w.calls| && w.calls[i].Executing?
    case Release(i) => i < |w.calls| && w.calls[i].Ended?
  }

  function Act(w: World, a: Action): World
    requires Enabled(w, a)
  {
    match a
    case Call => w.(calls := w.calls + [Called])
    case Enter(i) =>
      (match w.guard
       case Mutex(_) => World(Mutex(true), w.calls[i := Executing])
       case Channel(n) =>
         if n > 0 then World(Channel(n - 1), w.calls[i := Executing]) else World(w.guard, w.calls[i := Skipped]))
    case Finish(i, panicked) => w.(calls := w.calls[i := Ended(panicked)])
    case Release(i) =>
      var freed := match w.guard case Mutex(_) => Mutex(false) case Channel(n) => Channel(n + 1);
      World(freed, w.calls[i := Returned(w.calls[i].panicked)])
  }

  predicate Can(w: World, actions: seq<Action>)
    decreases |actions|
  {
    |actions| == 0 || (Enabled(w, actions[0]) && Can(Act(w, actions[0]), actions[1..]))
  }

  function After(w: World, actions: seq<Action>): World
    requires Can(w, actions)
    decreases |actions|
  {
    if |actions| == 0 then w else After(Act(w, actions[0]), actions[1..])
  }

  predicate InProgress(p: Progress) {
    p.Executing? || p.Ended?
  }

  /** How many calls execute the job or have not yet released the guard. */
  function Busy(calls: seq<Progress>): nat {
    if |calls| == 0 then 0 else Busy(calls[..|calls| - 1]) + if InProgress(calls[|calls| - 1]) then 1 else 0
  }

  /** The tokens in the channel; for the mutex, one when it is unlocked. */
  function Free(g: Guard): nat {
    match g
    case Channel(n) => n
    case Mutex(locked) => if locked then 0 else 1
  }

  lemma {:induction false} BusyAfterUpdate(calls: seq<Progress>, i: nat, p: Progress)
    requires i < |calls|
    ensures Busy(calls[i := p]) == Busy(calls) - (if InProgress(calls[i]) then 1 else 0) + if InProgress(p) then 1 else 0
  {
    var n := |calls| - 1;
    if i < n {
      assert calls[i := p][..n] == calls[..n][i := p];
      BusyAfterUpdate(calls[..n], i, p);
    } else {
      assert calls[i := p][..n] == calls[..n];
    }
  }

  lemma {:induction false} BusyCounts(calls: seq<Progress>, i: nat)
    requires i < |calls| && InProgress(calls[i])
    ensures Busy(calls) >= 1
    ensures forall j :: 0 <= j < |calls| && j != i && InProgress(calls[j]) ==> Busy(calls) >= 2
  {
    var n := |calls| - 1;
    if i < n {
      BusyCounts(calls[..n], i);
      assert forall j :: 0 <= j < n ==> calls[..n][j] == calls[j];
    } else {
      forall j | 0 <= j < n && InProgress(calls[j]) ensures Busy(calls) >= 2 {
        BusyCounts(calls[..n], j);
      }
    }
  }

  lemma ActKeepsBalance(w: World, a: Action)
    requires Enabled(w, a) && Free(w.guard) + Busy(w.calls) == 1
    ensures Free(Act(w, a).guard) + Busy(Act(w, a).calls) == 1
    ensures Act(w, a).guard.Channel? <==> w.guard.Channel?
  {
    match a {
      case Call => assert (w.calls + [Called])[..|w.calls|] == w.calls;
      case Enter(i) =>
        BusyAfterUpdate(w.calls, i, Executing);
        BusyAfterUpdate(w.calls, i, Skipped);
      case Finish(i, panicked) => BusyAfterUpdate(w.calls, i, Ended(panicked));
      case Release(i) =>
        BusyAfterUpdate(w.calls, i, Returned(w.calls[i].panicked));
        BusyCounts(w.calls, i);
    }
  }

  /** In every interleaving, panics included: the tokens in the channel and the executions in
      progress are together always one; likewise an unlocked mutex and the executions. */
  lemma {:induction false} Balance(w: World, actions: seq<Action>)
    requires Can(w, actions) && Free(w.guard) + Busy(w.calls) == 1
    ensures Free(After(w, actions).guard) + Busy(After(w, actions).calls) == 1
    ensures After(w, actions).guard.Channel? <==> w.guard.Channel?
    decreases |actions|
  {
    hide Busy, Free, Act, Enabled;
    if |actions| > 0 {
      ActKeepsBalance(w, actions[0]);
      Balance(Act(w, actions[0]), actions[1..]);
    }
  }

  /** A wrapped job has at most one execution in progress, and the deferred release of a call that
      ended never blocks: the channel is then empty, the mutex locked. */
  lemma AtMostOneExecution(w: World, actions: seq<Action>)
    requires (w == SKIPPING || w == DELAYING) && Can(w, actions)
    ensures var calls := After(w, actions).calls;
            forall i, j :: 0 <= i < |calls| && 0 <= j < |calls| && InProgress(calls[i]) && InProgress(calls[j]) ==> i == j
    ensures forall i :: Enabled(After(w, actions), Release(i)) ==> Free(After(w, actions).guard) == 0
  {
    Balance(w, actions);
    var calls := After(w, actions).calls;
    forall i | 0 <= i < |calls| && InProgress(calls[i])
      ensures Busy(calls) >= 1
      ensures forall j :: 0 <= j < |calls| && j != i && InProgress(calls[j]) ==> Busy(calls) >= 2
    {
      BusyCounts(calls, i);
    }
  }

  lemma {:induction false} SomeoneIsBusy(calls: seq<Progress>)
    ensures Busy(calls) > 0 <==> exists j :: 0 <= j < |calls| && InProgress(calls[j])
  {
    var n := |calls| - 1;
    if n >= 0 {
      SomeoneIsBusy(calls[..n]);
      if j :| 0 <= j < n && InProgress(calls[..n][j]) {
        assert calls[j] == calls[..n][j];
      }
      if j :| 0 <= j < n && InProgress(calls[j]) {
        assert calls[..n][j] == calls[j];
      }
    }
  }

  /** A call is skipped exactly when another execution is still in progress at that moment, however
      the earlier ones ended; a delayed call is never skipped and can proceed exactly when none is. */
  lemma SkippedExactlyWhileRunning(w: World, actions: seq<Action>, i: nat)
    requires (w == SKIPPING || w == DELAYING) && Can(w, actions)
    requires i < |After(w, actions).calls| && After(w, actions).calls[i].Called?
    ensures var now := After(w, actions);
            var running := exists j :: 0 <= j < |now.calls| && InProgress(now.calls[j]);
            && (w == SKIPPING ==> Enabled(now, Enter(i)) && Act(now, Enter(i)).calls[i] == if running then Skipped else Executing)
            && (w == DELAYING ==> (Enabled(now, Enter(i)) <==> !running)
                                  && (!running ==> Act(now, Enter(i)).calls[i] == Executing))
  {
    Balance(w, actions);
    SomeoneIsBusy(After(w, actions).calls);
  }

  /** How the job ended is what the caller sees: a panic goes on after the release, and one does not
      arise from a job that returned. */
  lemma PanicsArePassedOn(w: World, i: nat, panicked: bool)
    requires Enabled(w, Finish(i, panicked))
    ensures var ended := Act(w, Finish(i, panicked));
            Enabled(ended, Release(i)) && Act(ended, Release(i)).calls[i] == Returned(panicked)
    ensures forall j :: 0 <= j < |w.calls| && j != i ==> Act(Act(w, Finish(i, panicked)), Release(i)).calls[j] == w.calls[j]
  {
  }

  lemma ThreeWrappers<J>(m1: J -> J, m2: J -> J, m3: J -> J, job: J)
    ensures Wrapped([m1, m2, m3], job) == m1(m2(m3(job)))
  {
    assert [m1, m2, m3][1..] == [m2, m3] && [m2, m3][1..] == [m3] && [m3][1..] == [];
    assert Wrapped([m3], job) == m3(job) && Wrapped([m2, m3], job) == m2(m3(job));
  }
}
