/** The scheduler's own code over its mutable entries. Each method is proved to take one step of
    the engine's state machine. */
module CronScheduler {
  import opened Results
  import opened CronEngine

  class Entry {
    const id: nat
    const schedule: Schedule
    var next: Option<int>
    var prev: Option<int>

    constructor (id: nat, schedule: Schedule)
      ensures this.id == id && this.schedule == schedule && next == None && prev == None
    {
      this.id, this.schedule, this.next, this.prev := id, schedule, None, None;
    }

    function State(): Job
      reads this
    {
      Job(schedule, next, prev)
    }
  }

  /** The comparison that entries are sorted with: earlier times first, the zero time last. */
  function Compare(a: Option<int>, b: Option<int>): int {
    if a.None? && b.None? then 0
    else if a.None? then 1
    else if b.None? then -1
    else if a.value < b.value then -1
    else if b.value < a.value then 1
    else 0
  }

  /** The comparison is a strict weak order, as sorting demands of it. */
  lemma CompareIsAnOrder(a: Option<int>, b: Option<int>, c: Option<int>)
    ensures Compare(a, b) < 0 <==> Compare(b, a) > 0
    ensures Compare(a, b) <= 0 && Compare(b, c) <= 0 ==> Compare(a, c) <= 0
    ensures Compare(a, b) == 0 && Compare(b, c) == 0 ==> Compare(a, c) == 0
    ensures Compare(a, b) == 0 <==> a == b
  {
  }

  ghost predicate Sorted(s: seq<Entry>)
    reads s
  {
    forall i, j :: 0 <= i < j < |s| ==> Compare(s[i].next, s[j].next) <= 0
  }

  ghost predicate DistinctIds(s: seq<Entry>) {
    forall i, j :: 0 <= i < j < |s| ==> s[i].id != s[j].id
  }

  /** The entries are exactly the jobs of the table. */
  ghost predicate Holds(s: seq<Entry>, jobs: map<nat, Job>)
    reads s
  {
    && (forall e :: e in s ==> e.id in jobs && jobs[e.id] == e.State())
    && (forall id :: id in jobs ==> exists e :: e in s && e.id == id)
  }

  lemma PermutationKeepsEntries(a: seq<Entry>, b: seq<Entry>, jobs: map<nat, Job>)
    requires multiset(a) == multiset(b) && DistinctIds(a) && Holds(a, jobs)
    ensures DistinctIds(b) && Holds(b, jobs)
  {
    forall e ensures e in a <==> e in b {
      assert e in a <==> e in multiset(a);
      assert e in b <==> e in multiset(b);
    }
    forall i, j | 0 <= i < j < |b| ensures b[i].id != b[j].id {
      if b[i].id == b[j].id {
        assert b[i] in a && b[j] in a;
        assert b[i] == b[j];
        CountTwice(b, i, j);
        CountOnce(a, b[i]);
      }
    }
  }

  lemma CountTwice(s: seq<Entry>, i: nat, j: nat)
    requires i < j < |s| && s[i] == s[j]
    ensures multiset(s)[s[i]] >= 2
  {
    assert s == s[..j] + [s[j]] + s[j + 1..];
    assert s[i] in s[..j];
  }

  lemma {:induction false} CountOnce(s: seq<Entry>, e: Entry)
    requires DistinctIds(s)
    ensures multiset(s)[e] <= 1
  {
    if |s| > 0 {
      CountOnce(s[1..], e);
      assert s == [s[0]] + s[1..];
      assert forall k :: 0 <= k < |s[1..]| ==> s[1..][k].id != s[0].id;
    }
  }

  lemma AddKeepsEntries(s: seq<Entry>, jobs: map<nat, Job>, e: Entry)
    requires DistinctIds(s) && Holds(s, jobs) && forall x :: x in s ==> x.id != e.id
    ensures DistinctIds(s + [e]) && Holds(s + [e], jobs[e.id := e.State()])
  {
    var more, table := s + [e], jobs[e.id := e.State()];
    forall id | id in table ensures exists x :: x in more && x.id == id {
      if id == e.id {
        assert e in more;
      } else {
        var x :| x in s && x.id == id;
        assert x in more;
      }
    }
  }

  /** The entries without the one that has this identifier, in the same order. */
  function Others(s: seq<Entry>, id: nat): seq<Entry> {
    if |s| == 0 then []
    else Others(s[..|s| - 1], id) + if s[|s| - 1].id != id then [s[|s| - 1]] else []
  }

  lemma {:induction false} RemoveKeepsEntries(s: seq<Entry>, jobs: map<nat, Job>, id: nat)
    requires DistinctIds(s) && Holds(s, jobs)
    ensures DistinctIds(Others(s, id)) && Holds(Others(s, id), jobs - {id})
  {
    var others, table := Others(s, id), jobs - {id};
    OthersAre(s, id);
    forall e | e in others ensures e.id in table && table[e.id] == e.State() {
      assert e in s;
    }
    forall i | i in table ensures exists x :: x in others && x.id == i {
      assert i in jobs;
      var x :| x in s && x.id == i;
      assert x in others;
    }
  }

  lemma {:induction false} OthersAre(s: seq<Entry>, id: nat)
    requires DistinctIds(s)
    ensures forall k :: 0 <= k < |Others(s, id)| ==> Others(s, id)[k] in s && Others(s, id)[k].id != id
    ensures forall k :: 0 <= k < |s| && s[k].id != id ==> s[k] in Others(s, id)
    ensures DistinctIds(Others(s, id))
  {
    if |s| > 0 {
      var init, last := s[..|s| - 1], s[|s| - 1];
      OthersAre(init, id);
      assert s == init + [last];
      assert forall k :: 0 <= k < |init| ==> init[k] == s[k] && init[k].id != last.id;
      var others := Others(init, id);
      forall k | 0 <= k < |others| ensures others[k].id != last.id {
        assert others[k] in init;
      }
    }
  }

  lemma InsertKeepsOrder(s: seq<Entry>, e: Entry, k: nat)
    requires Sorted(s) && k <= |s|
    requires k > 0 ==> Compare(e.next, s[k - 1].next) >= 0
    requires forall j :: k <= j < |s| ==> Compare(e.next, s[j].next) < 0
    ensures Sorted(s[..k] + [e] + s[k..])
  {
  }

  lemma NothingToSort()
    ensures Sorted([])
  {
  }

  method InsertionIndex(s: seq<Entry>, e: Entry) returns (k: nat)
    ensures k <= |s| && (k > 0 ==> Compare(e.next, s[k - 1].next) >= 0)
    ensures forall j :: k <= j < |s| ==> Compare(e.next, s[j].next) < 0
  {
    hide Compare;
    k := |s|;
    while k > 0 && Compare(e.next, s[k - 1].next) < 0
      invariant 0 <= k <= |s|
      invariant forall j :: k <= j < |s| ==> Compare(e.next, s[j].next) < 0
    {
      k := k - 1;
    }
  }

  lemma InsertedMultiset(s: seq<Entry>, e: Entry, k: nat)
    requires k <= |s|
    ensures multiset(s[..k] + [e] + s[k..]) == multiset(s) + multiset{e}
  {
    assert s == s[..k] + s[k..];
  }

  /** `slices.SortFunc`, which promises no more than a sorted rearrangement. */
  method SortByNext(s: seq<Entry>) returns (sorted: seq<Entry>)
    ensures multiset(sorted) == multiset(s) && Sorted(sorted)
  {
    hide Compare, Sorted;
    NothingToSort();
    sorted := [];
    for i := 0 to |s|
      invariant multiset(sorted) == multiset(s[..i]) && Sorted(sorted)
    {
      var k := InsertionIndex(sorted, s[i]);
      InsertKeepsOrder(sorted, s[i], k);
      InsertedMultiset(sorted, s[i], k);
      assert s[..i + 1] == s[..i] + [s[i]];
      sorted := sorted[..k] + [s[i]] + sorted[k..];
    }
    assert s[..|s|] == s;
  }

  lemma SameEntries(a: seq<Entry>, b: seq<Entry>)
    requires multiset(a) == multiset(b)
    ensures forall e :: e in a <==> e in b
  {
    forall e ensures e in a <==> e in b {
      assert e in a <==> e in multiset(a);
      assert e in b <==> e in multiset(b);
    }
  }

  lemma IndexedHold(s: seq<Entry>, before: map<nat, Job>, after: map<nat, Job>)
    requires forall k :: 0 <= k < |s| ==> s[k].id in after && after[s[k].id] == s[k].State()
    requires after.Keys == before.Keys && forall id :: id in before ==> exists e :: e in s && e.id == id
    ensures Holds(s, after)
  {
  }

  /** Plans every entry from `now`. */
  method PlanAll(s: seq<Entry>, ghost jobs: map<nat, Job>, now: int)
    requires DistinctIds(s) && Holds(s, jobs)
    modifies s
    ensures Holds(s, AllPlanned(jobs, now))
    ensures forall e :: e in s ==> e.next == NextOf(e.schedule, now) && e.prev == old(e.prev)
  {
    hide NextOf;
    for i := 0 to |s|
      invariant forall k :: 0 <= k < i ==> s[k].next == NextOf(s[k].schedule, now)
      invariant forall k :: 0 <= k < |s| ==> s[k].prev == old(s[k].prev)
      invariant forall k :: 0 <= k < i ==> s[k].State() == Planned(jobs[s[k].id], now)
      invariant forall k :: i <= k < |s| ==> s[k].State() == jobs[s[k].id]
    {
      assert s[i].State() == jobs[s[i].id];
      s[i].next := NextOf(s[i].schedule, now);
    }
    IndexedHold(s, jobs, AllPlanned(jobs, now));
  }

  predicate SortedJobs(jobs: seq<Job>) {
    forall i, j :: 0 <= i < j < |jobs| ==> Compare(jobs[i].next, jobs[j].next) <= 0
  }

  /** In sorted order, with the zero times last, nothing behind the first job that is not due is due. */
  lemma DueIsAPrefix(jobs: seq<Job>, i: nat, now: int)
    requires SortedJobs(jobs) && i <= |jobs| && (i < |jobs| ==> !Due(jobs[i], now))
    ensures forall k :: i <= k < |jobs| ==> !Due(jobs[k], now)
  {
  }

  /** The sorted entries' jobs, and the identifiers of the entries started so far. */
  lemma StartedExactly(s: seq<Entry>, jobs: map<nat, Job>, was: seq<Job>, started: seq<nat>, now: int)
    requires DistinctIds(s) && |was| == |s| && forall k :: 0 <= k < |s| ==> s[k].id in jobs && was[k] == jobs[s[k].id]
    requires forall id :: id in jobs ==> exists e :: e in s && e.id == id
    requires |started| <= |s| && forall k :: 0 <= k < |started| ==> started[k] == s[k].id && Due(was[k], now)
    requires forall k :: |started| <= k < |s| ==> !Due(was[k], now)
    ensures forall id :: id in started <==> id in jobs && Due(jobs[id], now)
    ensures forall i, j :: 0 <= i < j < |started| ==> started[i] != started[j]
  {
    forall id | id in jobs && Due(jobs[id], now) ensures id in started {
      var e :| e in s && e.id == id;
      var k :| 0 <= k < |s| && s[k] == e;
      assert was[k] == jobs[id];
      assert started[k] == id;
    }
  }

  ghost function JobsOf(s: seq<Entry>, jobs: map<nat, Job>): seq<Job>
    requires forall e :: e in s ==> e.id in jobs
  {
    seq(|s|, k requires 0 <= k < |s| => jobs[s[k].id])
  }

  lemma JobsOfEntries(s: seq<Entry>, jobs: map<nat, Job>)
    requires Holds(s, jobs) && Sorted(s)
    ensures forall k :: 0 <= k < |s| ==> s[k].State() == JobsOf(s, jobs)[k]
    ensures SortedJobs(JobsOf(s, jobs))
  {
    hide Compare;
    assert forall k :: 0 <= k < |s| ==> s[k].State() == JobsOf(s, jobs)[k];
  }

  /** Starts the entries that are due, up to the first one that is not. */
  method RunDue(s: seq<Entry>, ghost was: seq<Job>, now: int) returns (started: seq<nat>)
    requires DistinctIds(s) && |was| == |s| && SortedJobs(was)
    requires forall k :: 0 <= k < |s| ==> s[k].State() == was[k]
    modifies s
    ensures |started| <= |s|
    ensures forall k :: 0 <= k < |started| ==> started[k] == s[k].id && Due(was[k], now)
    ensures forall k :: |started| <= k < |s| ==> !Due(was[k], now)
    ensures forall k :: 0 <= k < |s| ==> s[k].State() == Woken(was[k], now)
  {
    hide NextOf, Compare;
    started := [];
    var i := 0;
    while i < |s|
      invariant 0 <= i <= |s| && |started| == i
      invariant forall k :: 0 <= k < i ==> started[k] == s[k].id && Due(was[k], now)
      invariant forall k :: 0 <= k < i ==> s[k].State() == Woken(was[k], now)
      invariant forall k :: i <= k < |s| ==> s[k].State() == was[k]
    {
      var e := s[i];
      if e.next.None? || e.next.value > now {
        break;
      }
      assert e.State() == was[i];
      started := started + [e.id];
      e.prev := e.next;
      e.next := NextOf(e.schedule, now);
      i := i + 1;
    }
    assert i < |s| ==> s[i].State() == was[i];
    DueIsAPrefix(was, i, now);
  }

  lemma WokenEntriesHold(s: seq<Entry>, jobs: map<nat, Job>, now: int)
    requires forall k :: 0 <= k < |s| ==> s[k].id in jobs && s[k].State() == Woken(jobs[s[k].id], now)
    requires forall id :: id in jobs ==> exists e :: e in s && e.id == id
    ensures Holds(s, AllWoken(jobs, now))
  {
    hide Woken;
    IndexedHold(s, jobs, AllWoken(jobs, now));
  }

  lemma WokenMeans(j: Job, now: int)
    ensures Due(j, now) <==> j.next.Some? && j.next.value <= now
    ensures Woken(j, now) == if Due(j, now) then Job(j.schedule, NextOf(j.schedule, now), j.next) else j
  {
  }

  lemma EveryJobHasAnEntry(s: seq<Entry>, jobs: map<nat, Job>)
    requires Holds(s, jobs)
    ensures forall e :: e in s ==> e.id in jobs
    ensures forall id :: id in jobs ==> exists e :: e in s && e.id == id
  {
  }

  /** Every entry that is due is started, once, and planned from now; every other one stays as it is. */
  method StartDue(s: seq<Entry>, ghost jobs: map<nat, Job>, now: int) returns (started: seq<nat>)
    requires DistinctIds(s) && Holds(s, jobs) && Sorted(s)
    modifies s
    ensures Holds(s, AllWoken(jobs, now))
    ensures forall e :: e in s ==>
              if old(e.next).Some? && old(e.next).value <= now
              then e.id in started && e.prev == old(e.next) && e.next == NextOf(e.schedule, now)
              else e.id !in started && e.prev == old(e.prev) && e.next == old(e.next)
    ensures forall id :: id in started <==> id in jobs && Due(jobs[id], now)
    ensures forall i, j :: 0 <= i < j < |started| ==> started[i] != started[j]
  {
    hide NextOf, Sorted, Holds, DistinctIds, AllWoken, Woken, Due, SortedJobs;
    EveryJobHasAnEntry(s, jobs);
    JobsOfEntries(s, jobs);
    ghost var was := JobsOf(s, jobs);
    started := RunDue(s, was, now);
    StartedExactly(s, jobs, was, started, now);
    WokenEntriesHold(s, jobs, now);
    forall k | 0 <= k < |s|
      ensures if old(s[k].next).Some? && old(s[k].next).value <= now
              then s[k].id in started && s[k].prev == old(s[k].next) && s[k].next == NextOf(s[k].schedule, now)
              else s[k].id !in started && s[k].prev == old(s[k].prev) && s[k].next == old(s[k].next)
    {
      WokenMeans(was[k], now);
      assert s[k].State() == Woken(was[k], now) && was[k] == old(s[k].State()) == jobs[s[k].id];
    }
  }

  /** The request that the scheduler goroutine receives from a caller. */
  datatype Message = Offer(entry: Entry) | Drop(id: nat) | Quit

  function Asked(m: Message): Request {
    match m
    case Offer(e) => AddEntry(e.id, e.schedule)
    case Drop(id) => RemoveEntry(id)
    case Quit => Halt
  }

  class Cron {
    var entries: seq<Entry>
    var nextID: nat
    var phase: Phase
    var message: Option<Message>
    ghost var engine: Engine

    ghost function Offered(): set<Entry>
      reads this
    {
      if message.Some? && message.value.Offer? then {message.value.entry} else {}
    }

    ghost predicate Valid()
      reads this, entries, Offered()
    {
      && engine.nextID == nextID && engine.phase == phase
      && engine.request == (if message.None? then None else Some(Asked(message.value)))
      && DistinctIds(entries) && Holds(entries, engine.jobs)
      && (phase.Waiting? ==> Sorted(entries))
      && (forall e :: e in entries ==> 1 <= e.id <= nextID)
      && (message.Some? ==> !phase.Stopped?)
      && (forall e :: e in Offered() ==> 1 <= e.id <= nextID && e.prev == None && forall x :: x in entries ==> x.id != e.id)
    }

    constructor ()
      ensures Valid() && engine == NEW && entries == []
    {
      entries, nextID, phase, message, engine := [], 0, Stopped, None, NEW;
    }

    /** Determines the next entry to run. */
    method Sort()
      requires DistinctIds(entries) && Holds(entries, engine.jobs)
      modifies this`entries
      ensures DistinctIds(entries) && Holds(entries, engine.jobs) && Sorted(entries)
      ensures multiset(entries) == multiset(old(entries)) && forall e :: e in entries <==> e in old(entries)
    {
      hide Sorted, Holds, DistinctIds;
      var sorted := SortByNext(entries);
      PermutationKeepsEntries(entries, sorted, engine.jobs);
      SameEntries(entries, sorted);
      entries := sorted;
    }

    /** Adds an entry, directly or through the running scheduler; returns its identifier. */
    method Schedule(schedule: CronEngine.Schedule) returns (id: nat)
      requires Valid() && message.None?
      modifies this
      ensures Valid() && engine == Step(old(engine), CallAdd(schedule)) && id == old(nextID) + 1
      ensures old(phase).Stopped? ==>
                |entries| == |old(entries)| + 1 && entries[..|old(entries)|] == old(entries)
                && var e := entries[|old(entries)|];
                   fresh(e) && e.id == id && e.schedule == schedule && e.next == None && e.prev == None
      ensures !old(phase).Stopped? ==>
                entries == old(entries) && message.Some? && message.value.Offer?
                && var e := message.value.entry; fresh(e) && e.id == id && e.schedule == schedule && e.prev == None
    {
      hide Sorted, Holds, DistinctIds;
      nextID := nextID + 1;
      var entry := new Entry(nextID, schedule);
      if phase.Stopped? {
        AddKeepsEntries(entries, engine.jobs, entry);
        entries := entries + [entry];
      } else {
        message := Some(Offer(entry));
      }
      engine := Step(engine, CallAdd(schedule));
      return nextID;
    }

    /** Removes an entry, directly or through the running scheduler. */
    method Remove(id: nat)
      requires Valid() && message.None?
      modifies this
      ensures Valid() && engine == Step(old(engine), CallRemove(id))
      ensures old(phase).Stopped? ==> forall e :: e in entries <==> e in old(entries) && e.id != id
      ensures !old(phase).Stopped? ==> entries == old(entries) && message == Some(Drop(id))
    {
      hide Sorted, Holds, DistinctIds, Others;
      if phase.Stopped? {
        RemoveKeepsEntries(entries, engine.jobs, id);
        OthersAre(entries, id);
        DropEntry(id);
      } else {
        message := Some(Drop(id));
      }
      engine := Step(engine, CallRemove(id));
    }

    /** Drops the entry with this identifier and keeps the order of the others. */
    method DropEntry(id: nat)
      modifies this`entries
      ensures entries == Others(old(entries), id)
    {
      var all, kept := entries, [];
      for i := 0 to |all|
        invariant kept == Others(all[..i], id)
      {
        assert all[..i + 1][..i] == all[..i];
        if all[i].id != id {
          kept := kept + [all[i]];
        }
      }
      assert all[..|all|] == all;
      entries := kept;
    }

    method Start()
      requires Valid() && message.None?
      modifies this
      ensures Valid() && engine == Step(old(engine), CallStart) && entries == old(entries)
    {
      if phase.Stopped? {
        phase := Starting;
      }
      engine := Step(engine, CallStart);
    }

    method Stop()
      requires Valid() && message.None?
      modifies this
      ensures Valid() && engine == Step(old(engine), CallStop) && entries == old(entries)
    {
      if !phase.Stopped? {
        message := Some(Quit);
      }
      engine := Step(engine, CallStop);
    }

    /** The scheduler goroutine's first pass: plan every entry anew, then sort. */
    method BeginScheduling(now: int)
      requires Valid() && phase.Starting?
      modifies this, entries
      ensures Valid() && engine == Step(old(engine), Begin(now))
      ensures multiset(entries) == multiset(old(entries))
      ensures forall e :: e in old(entries) ==> e.next == NextOf(e.schedule, now) && e.prev == old(e.prev)
    {
      hide NextOf, Sorted, Holds, DistinctIds, AllPlanned;
      PlanAll(entries, engine.jobs, now);
      engine, phase := Step(engine, Begin(now)), Waiting;
      Sort();
    }

    /** The timer fires: start every entry that is due, up to the first one that is not. */
    method WakeUp(now: int) returns (started: seq<nat>)
      requires Valid() && phase.Waiting?
      modifies this, entries
      ensures Valid() && engine == Step(old(engine), Wake(now))
      ensures multiset(entries) == multiset(old(entries))
      ensures forall e :: e in old(entries) ==>
                if old(e.next).Some? && old(e.next).value <= now
                then e.id in started && e.prev == old(e.next) && e.next == NextOf(e.schedule, now)
                else e.id !in started && e.prev == old(e.prev) && e.next == old(e.next)
      ensures forall id :: id in started <==> StartsJob(old(engine), Wake(now), id)
      ensures forall i, j :: 0 <= i < j < |started| ==> started[i] != started[j]
    {
      hide NextOf, Sorted, Holds, DistinctIds, AllWoken;
      started := StartDue(entries, engine.jobs, now);
      engine := Step(engine, Wake(now));
      Sort();
    }

    /** The goroutine receives what a caller asked for. */
    method Receive(now: int)
      requires Valid() && phase.Waiting? && message.Some?
      modifies this, Offered()
      ensures Valid() && engine == Step(old(engine), Accept(now)) && message.None?
      ensures forall e :: e in old(entries) ==> e.next == old(e.next) && e.prev == old(e.prev)
      ensures match old(message.value)
              case Offer(x) => x.next == NextOf(x.schedule, now) && forall e :: e in entries <==> e in old(entries) || e == x
              case Drop(id) => forall e :: e in entries <==> e in old(entries) && e.id != id
              case Quit => entries == old(entries) && phase.Stopped?
    {
      hide NextOf, Sorted, Holds, DistinctIds, Others;
      ghost var jobs := engine.jobs;
      engine := Step(engine, Accept(now));
      match message.value {
        case Offer(e) =>
          e.next := NextOf(e.schedule, now);
          AddKeepsEntries(entries, jobs, e);
          message, entries := None, entries + [e];
        case Drop(id) =>
          RemoveKeepsEntries(entries, jobs, id);
          OthersAre(entries, id);
          message := None;
          DropEntry(id);
        case Quit =>
          message, phase := None, Stopped;
          return;
      }
      Sort();
    }

    /** When the timer is set to fire: at the earliest of all planned times, if there is one. */
    method Deadline() returns (at: Option<int>)
      requires Valid() && phase.Waiting?
      ensures at.None? ==> forall id :: id in engine.jobs ==> engine.jobs[id].next.None?
      ensures at.Some? ==> exists id :: id in engine.jobs && engine.jobs[id].next == at
      ensures at.Some? ==> forall id :: id in engine.jobs && engine.jobs[id].next.Some? ==> at.value <= engine.jobs[id].next.value
    {
      if |entries| == 0 || entries[0].next.None? {
        return None;
      }
      assert entries[0] in entries;
      return entries[0].next;
    }
  }
}
