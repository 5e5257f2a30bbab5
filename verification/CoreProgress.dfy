/** Liveness of the out-of-order core (src/ooo_cpu.cc): with at least one entry per cycle scheduled, executed
    and retired, every instruction that is dispatched retires after finitely many cycles.
 */
module CoreProgress {
  import opened RegisterWakeup
  import opened CoreCycle
  import opened Recency

  ghost predicate Positive(pace: Pace) {
    pace.window > 0 && pace.exec > 0 && pace.retire > 0
  }

  /** Every entry in use has been fetched. */
  ghost predicate AllFetched(s: Core)
    requires s.head < |s.entries|
  {
    forall i: nat | Live(s, i) :: s.entries[i].fetched.Completed?
  }

  // ---------------------------------------------------------------- the measure of the oldest entry

  /** 3 unscheduled, 2 waiting to start, 1 executing, 0 done. */
  function Phase(s: Core): nat
    requires s.head < |s.entries|
  {
    var e := s.entries[s.head];
    if e.executed.Completed? then 0 else if e.executed.Inflight? then 1 else if e.scheduled.Completed? then 2 else 3
  }

  /** How many entries are before it in the ready queue. */
  function Place(s: Core): nat
    requires s.head < |s.entries|
  {
    if Phase(s) == 2 && s.head in s.ready then IndexOf(s.ready, s.head) else 0
  }

  /** The entry whose time it waits for: the front of the ready queue, or itself. */
  function Awaited(s: Core): (i: nat)
    requires s.head < |s.entries|
    ensures i < |s.entries|
  {
    if Phase(s) == 2 && s.ready != [] && s.ready[0] < |s.entries| then s.ready[0] else s.head
  }

  function Wait(s: Core, now: nat): nat
    requires s.head < |s.entries|
  {
    var t := s.entries[Awaited(s)].eventCycle;
    if t > now then t - now else 0
  }

  ghost predicate Closer(s': Core, s: Core, now: nat)
    requires s.head < |s.entries| && s'.head < |s'.entries|
  {
    || Phase(s') < Phase(s)
    || (Phase(s') == Phase(s) && Place(s') < Place(s))
    || (Phase(s') == Phase(s) && Place(s') == Place(s) && Wait(s', now + 1) < Wait(s, now))
  }

  // ---------------------------------------------------------------- what the stages do to one entry

  /** The first `k` entries of the ready queue execute, and all else is as it was. */
  ghost predicate StartedFirst(s: Core, k: nat, m: Core) {
    && m.head == s.head && m.occupancy == s.occupancy && |m.entries| == |s.entries|
    && k <= |s.ready| && m.ready == s.ready[k..]
    && (forall i: nat | i < |s.entries| ::
          if i in s.ready[..k] then m.entries[i].executed.Inflight? && m.entries[i].fetched == s.entries[i].fetched
          else m.entries[i] == s.entries[i])
  }

  ghost predicate ReadySane(s: Core) {
    Distinct(s.ready) && forall j | 0 <= j < |s.ready| :: s.ready[j] < |s.entries|
  }

  lemma {:induction false} StartOneMore(s: Core, k: nat, next: nat, m: Core, now: nat, warm: bool, latency: nat)
    requires ReadySane(s) && StartedFirst(s, k, m) && next == k + 1
    ensures var m' := StartOne(m, now, warm, latency);
            if k < |s.ready| && s.entries[s.ready[k]].eventCycle <= now then StartedFirst(s, next, m') else m' == m
  {
    hide AfterLatency;
    if k < |s.ready| {
      var before := s.ready[..k];
      assert m.ready[0] == s.ready[k];
      assert s.ready[..next] == before + [s.ready[k]];
      assert s.ready[k] !in before;
      assert m.ready[1..] == s.ready[next..];
    }
  }

  /** Starting takes a prefix of the ready queue, which is not empty if the front may start. */
  lemma {:induction false} StartsPrefix(s: Core, n: nat, now: nat, warm: bool, latency: nat) returns (k: nat)
    requires ReadySane(s)
    ensures StartedFirst(s, k, StartMany(s, n, now, warm, latency))
    ensures n > 0 && s.ready != [] && s.entries[s.ready[0]].eventCycle <= now ==> k > 0
  {
    if n == 0 {
      k := 0;
      assert s.ready[0..] == s.ready;
    } else {
      k := StartsPrefix(s, n - 1, now, warm, latency);
      hide StartedFirst, StartOne;
      StartOneMore(s, k, k + 1, StartMany(s, n - 1, now, warm, latency), now, warm, latency);
      if k < |s.ready| && s.entries[s.ready[k]].eventCycle <= now {
        k := k + 1;
      }
    }
  }

  /** Dispatch leaves the entries in use as they are. */
  lemma {:induction false} DispatchLeaves(s: Core, es: seq<Entry>, now: nat)
    requires s.head < |s.entries| && s.occupancy <= |s.entries|
    ensures var m := DispatchMany(s, es, now);
            && m.head == s.head && |m.entries| == |s.entries| && m.ready == s.ready
            && s.occupancy <= m.occupancy <= |s.entries|
            && (forall i: nat | Live(s, i) :: Live(m, i) && m.entries[i] == s.entries[i])
            && (AllFetched(s) && (forall j | 0 <= j < |es| :: es[j].fetched.Completed?) ==> AllFetched(m))
    decreases |es|
  {
    if es == [] {
    } else {
      var n := |es| - 1;
      DispatchLeaves(s, es[..n], now);
      var m := DispatchMany(s, es[..n], now);
      if m.occupancy < |m.entries| {
        DispatchAges(m, es[n], now);
      }
    }
  }

  /** A cycle that retires nothing leaves the oldest entry in place. */
  lemma HeadStays(s: Core, a: Core)
    requires s.head < |s.entries| && s.occupancy > 0 && AfterRetiring(s, 0, a)
    ensures a.head == s.head && a.occupancy == s.occupancy && |a.entries| == |s.entries| && a.ready == s.ready
    ensures forall i: nat | Live(s, i) :: Live(a, i) && a.entries[i] == s.entries[i]
    ensures Live(s, s.head)
  {
  }

  /** What completion does to one entry. */
  lemma CompletedSeen(a: Core, width: nat, now: nat, b: Core, i: nat)
    requires a.head < |a.entries| && CompletedTo(a, a.occupancy, width, now, b) && Live(a, i)
    ensures b.head == a.head && b.occupancy == a.occupancy && |b.entries| == |a.entries| && Live(b, i)
    ensures |a.ready| <= |b.ready| && b.ready[..|a.ready|] == a.ready
    ensures b.entries[i].executed == (if Completing(a, i, width, now) then Completed else a.entries[i].executed)
    ensures b.entries[i].scheduled == a.entries[i].scheduled && b.entries[i].fetched == a.entries[i].fetched
    ensures b.entries[i].eventCycle == a.entries[i].eventCycle
  {
    hide Completing, SameNames;
  }

  /** What scheduling does to one entry. */
  lemma ScheduledSeen(c: Core, now: nat, window: nat, warm: bool, latency: nat, d: Core, i: nat)
    requires c.head < |c.entries| && ScheduledTo(c, c.occupancy, now, window, warm, latency, d) && Live(c, i)
    ensures d.head == c.head && d.occupancy == c.occupancy && |d.entries| == |c.entries| && Live(d, i)
    ensures Longer(c.ready, d.ready)
    ensures d.entries[i].executed == c.entries[i].executed && d.entries[i].fetched == c.entries[i].fetched
    ensures NewlyTo(c, i, c.occupancy, now, window) ==> d.entries[i].scheduled.Completed?
    ensures !NewlyTo(c, i, c.occupancy, now, window) ==>
              d.entries[i].scheduled == c.entries[i].scheduled && d.entries[i].eventCycle == c.entries[i].eventCycle
  {
    hide NewlyTo, NamesTo;
  }

  /** The rest of the cycle leaves an entry in use as it is, unless it is due, started or scheduled. */
  lemma {:induction false} ThroughCycle(pace: Pace, now: nat, s: Core, a: Core, b: Core, c: Core, d: Core,
                                        es: seq<Entry>, s': Core, k: nat, i: nat)
    requires s.head < |s.entries| && s.occupancy > 0 && AfterRetiring(s, 0, a)
    requires a.head < |a.entries| && CompletedTo(a, a.occupancy, pace.exec, now, b)
    requires StartedFirst(b, k, c) && c.head < |c.entries|
    requires ScheduledTo(c, c.occupancy, now, pace.window, pace.warm, pace.scheduling, d)
    requires d.head < |d.entries| && d.occupancy <= |d.entries| && s' == DispatchMany(d, es, now)
    requires Live(s, i) && (i in b.ready[..k] ==> !Completing(a, i, pace.exec, now))
    ensures s'.head == s.head && |s'.entries| == |s.entries| && s'.occupancy >= s.occupancy
    ensures Live(a, i) && |c.entries| == |s.entries| && c.head == s.head && c.occupancy == s.occupancy && Live(c, i)
    ensures |s.ready| <= |b.ready| && b.ready[..|s.ready|] == s.ready && k <= |b.ready|
    ensures Longer(b.ready[k..], s'.ready) && s'.entries[i].fetched == c.entries[i].fetched == s.entries[i].fetched
    ensures a.entries[i] == s.entries[i]
    ensures s'.entries[i].executed
         == if Completing(a, i, pace.exec, now) then Completed
            else if i in b.ready[..k] then Inflight else s.entries[i].executed
    ensures i !in b.ready[..k] ==>
              c.entries[i].scheduled == s.entries[i].scheduled && c.entries[i].eventCycle == s.entries[i].eventCycle
    ensures i !in b.ready[..k] && !NewlyTo(c, i, c.occupancy, now, pace.window) ==>
              s'.entries[i].scheduled == s.entries[i].scheduled && s'.entries[i].eventCycle == s.entries[i].eventCycle
    ensures NewlyTo(c, i, c.occupancy, now, pace.window) ==> s'.entries[i].scheduled.Completed?
  {
    HeadStays(s, a);
    hide Completing, NewlyTo, AfterRetiring, DispatchMany, CompletedTo, ScheduledTo;
    CompletedSeen(a, pace.exec, now, b, i);
    ScheduledSeen(c, now, pace.window, pace.warm, pace.scheduling, d, i);
    DispatchLeaves(d, es, now);
  }

  // ---------------------------------------------------------------- progress in one cycle

  /** One cycle at time `now` that retires nothing, seen from the oldest entry, with `k` entries started. */
  ghost predicate NoneRetired(pace: Pace, numSources: nat, now: nat, s: Core, a: Core, b: Core, c: Core, d: Core,
                              es: seq<Entry>, s': Core, k: nat)
  {
    && s.head < |s.entries| && s.occupancy > 0 && Retires(s, 0, pace.retire, now, a)
    && a.head < |a.entries| && CompletedTo(a, a.occupancy, pace.exec, now, b)
    && StartedFirst(b, k, c) && c.head < |c.entries|
    && (b.ready != [] && b.ready[0] < |b.entries| && b.entries[b.ready[0]].eventCycle <= now ==> k > 0)
    && ScheduledTo(c, c.occupancy, now, pace.window, pace.warm, pace.scheduling, d)
    && d.head < |d.entries| && d.occupancy <= |d.entries| && s' == DispatchMany(d, es, now)
    && Invariant(s, numSources) && Invariant(b, numSources)
  }

  /** The ready queue holds entries that are scheduled and have not started. */
  lemma ReadyIdle(s: Core, numSources: nat)
    requires Invariant(s, numSources)
    ensures ReadySane(s) && s.head < |s.entries|
    ensures forall i: nat | i in s.ready ::
              Live(s, i) && s.entries[i].executed.Idle? && s.entries[i].scheduled.Completed?
  {
    hide DeadAreBlank, NamesAreYounger, CountsExact, StartedWaitForNothing, YoungestRecorded, Executing;
    assert forall j | 0 <= j < |s.ready| :: s.ready[j] in s.ready;
  }

  /** ThroughCycle for a cycle that retires nothing. */
  lemma {:induction false} HeadThrough(pace: Pace, numSources: nat, now: nat, s: Core, a: Core, b: Core, c: Core,
                                       d: Core,
                                       es: seq<Entry>, s': Core, k: nat, i: nat)
    requires NoneRetired(pace, numSources, now, s, a, b, c, d, es, s', k) && Live(s, i)
    ensures s'.head == s.head && |s'.entries| == |s.entries| && s'.occupancy >= s.occupancy
    ensures a.head < |a.entries| && c.head < |c.entries| && Live(a, i) && Live(c, i)
    ensures c.head == s.head && |c.entries| == |s.entries|
    ensures c.occupancy == s.occupancy
    ensures |s.ready| <= |b.ready| && b.ready[..|s.ready|] == s.ready
    ensures k <= |b.ready| && Longer(b.ready[k..], s'.ready)
    ensures a.entries[i] == s.entries[i] && s'.entries[i].fetched == c.entries[i].fetched == s.entries[i].fetched
    ensures i in b.ready ==> s.entries[i].executed.Idle? && s.entries[i].scheduled.Completed?
    ensures i in b.ready ==> !Completing(a, i, pace.exec, now)
    ensures s'.entries[i].executed
         == if Completing(a, i, pace.exec, now) then Completed
            else if i in b.ready[..k] then Inflight else s.entries[i].executed
    ensures i !in b.ready[..k] ==>
              c.entries[i].scheduled == s.entries[i].scheduled && c.entries[i].eventCycle == s.entries[i].eventCycle
    ensures i !in b.ready[..k] && !NewlyTo(c, i, c.occupancy, now, pace.window) ==>
              s'.entries[i].scheduled == s.entries[i].scheduled && s'.entries[i].eventCycle == s.entries[i].eventCycle
    ensures NewlyTo(c, i, c.occupancy, now, pace.window) ==> s'.entries[i].scheduled.Completed?
    ensures i in b.ready ==> b.entries[i].eventCycle == s.entries[i].eventCycle
  {
    hide Invariant, NewlyTo, CompletedTo, ScheduledTo, DispatchMany, ReadySane, StartedFirst;
    ReadyIdle(b, numSources);
    HeadStays(s, a);
    CompletedSeen(a, pace.exec, now, b, i);
    hide Completing;
    ThroughCycle(pace, now, s, a, b, c, d, es, s', k, i);
  }

  /** What the invariant says of the oldest entry. */
  lemma HeadKnown(s: Core, numSources: nat)
    requires Invariant(s, numSources) && s.occupancy > 0
    ensures s.head < |s.entries| && Live(s, s.head)
    ensures Phase(s) < 3 <==> s.entries[s.head].scheduled.Completed?
    ensures Phase(s) == 3 ==> s.entries[s.head].scheduled.Idle? && s.entries[s.head].executed.Idle?
    ensures Phase(s) == 2 ==> s.head in s.ready
  {
    HeadNeverWaits(s, numSources);
    hide DeadAreBlank, NamesAreYounger, CountsExact, ReadyExact, YoungestRecorded, Executing;
  }

  /** A done or executing entry: it completes, or comes a cycle closer. */
  lemma {:induction false} StartedProgress(pace: Pace, numSources: nat, now: nat, next: nat, s: Core, a: Core,
                                           b: Core, c: Core,
                                           d: Core, es: seq<Entry>, s': Core, k: nat)
    requires NoneRetired(pace, numSources, next, s, a, b, c, d, es, s', k) && Positive(pace) && next == now + 1
    requires s.head < |s.entries| && Phase(s) < 2
    ensures s'.head < |s'.entries| && Closer(s', s, now)
  {
    hide Invariant, CompletedTo, ScheduledTo, DispatchMany, StartedFirst, Completing;
    HeadKnown(s, numSources);
    HeadThrough(pace, numSources, next, s, a, b, c, d, es, s', k, s.head);
    assert s.head !in b.ready;
    NotNewly(c, s.head, next, pace.window);
    FirstCompletes(a, pace.exec, next);
  }

  lemma NotNewly(c: Core, i: nat, now: nat, window: nat)
    requires c.head < |c.entries| && i < |c.entries| && !c.entries[i].scheduled.Idle?
    ensures !NewlyTo(c, i, c.occupancy, now, window)
  {
  }

  /** The oldest entry completes as soon as it is due. */
  lemma FirstCompletes(a: Core, width: nat, now: nat)
    requires a.head < |a.entries| && width > 0
    ensures Completing(a, a.head, width, now) <==> Live(a, a.head) && Due(a.entries[a.head], now)
  {
  }

  /** An unscheduled entry: it is scheduled, or comes a cycle closer. */
  lemma {:induction false} UnscheduledProgress(pace: Pace, numSources: nat, now: nat, next: nat, s: Core, a: Core,
                                               b: Core, c: Core,
                                               d: Core, es: seq<Entry>, s': Core, k: nat)
    requires NoneRetired(pace, numSources, next, s, a, b, c, d, es, s', k) && Positive(pace) && next == now + 1
    requires s.head < |s.entries| && Phase(s) == 3 && s.entries[s.head].fetched.Completed?
    ensures s'.head < |s'.entries| && Closer(s', s, now)
  {
    hide Invariant, CompletedTo, ScheduledTo, DispatchMany, StartedFirst, Completing, NewlyTo;
    HeadKnown(s, numSources);
    HeadThrough(pace, numSources, next, s, a, b, c, d, es, s', k, s.head);
    assert s.head !in b.ready;
    FirstCompletes(a, pace.exec, next);
    FirstScheduled(c, next, pace.window);
  }

  /** The oldest entry is scheduled as soon as its time has come. */
  lemma FirstScheduled(c: Core, now: nat, window: nat)
    requires c.head < |c.entries| && window > 0 && Live(c, c.head)
    requires c.entries[c.head].fetched.Completed? && c.entries[c.head].scheduled.Idle?
    ensures c.entries[c.head].eventCycle <= now ==> NewlyTo(c, c.head, c.occupancy, now, window)
    ensures c.entries[c.head].eventCycle > now ==> !NewlyTo(c, c.head, c.occupancy, now, window)
  {
    assert Stops(c, 0, now, window) <==> c.entries[c.head].eventCycle > now;
  }

  /** An entry in the ready queue: it starts, or moves up, or the front comes a cycle closer. */
  lemma {:induction false} ReadyProgress(pace: Pace, numSources: nat, now: nat, next: nat, s: Core, a: Core, b: Core,
                                         c: Core,
                                         d: Core, es: seq<Entry>, s': Core, k: nat)
    requires NoneRetired(pace, numSources, next, s, a, b, c, d, es, s', k) && Positive(pace) && next == now + 1
    requires s.head < |s.entries| && Phase(s) == 2
    ensures s'.head < |s'.entries| && Closer(s', s, now)
  {
    hide Invariant, CompletedTo, ScheduledTo, DispatchMany, StartedFirst, Completing, NewlyTo, IndexOf;
    HeadKnown(s, numSources);
    ReadyIdle(s, numSources);
    ReadyIdle(b, numSources);
    HeadThrough(pace, numSources, next, s, a, b, c, d, es, s', k, s.head);
    IndexIn(s.ready, s.head);
    var p := IndexOf(s.ready, s.head);
    assert b.ready[p] == s.head && b.ready[0] == s.ready[0];
    if p < k {
      assert b.ready[..k][p] == s.head;
    } else {
      var rest := b.ready[k..];
      assert rest[p - k] == s.head;
      NotAmong(b.ready, k, p);
      NotNewly(c, s.head, next, pace.window);
      MovedUp(rest, s'.ready, p - k);
      if k == 0 {
        var f := s.ready[0];
        assert f in b.ready && f in s.ready;
        HeadThrough(pace, numSources, next, s, a, b, c, d, es, s', k, f);
        NotAmong(b.ready, k, 0);
        NotNewly(c, f, next, pace.window);
        assert s'.ready[0] == f;
      }
    }
  }

  lemma NotAmong(q: seq<nat>, k: nat, p: nat)
    requires Distinct(q) && k <= p < |q|
    ensures q[p] !in q[..k]
  {
  }

  lemma MovedUp(rest: seq<nat>, q: seq<nat>, p: nat)
    requires Distinct(rest) && p < |rest| && Longer(rest, q)
    ensures rest[p] in q && IndexOf(q, rest[p]) == p
  {
    IndexUnique(rest, p);
    assert q[p] == rest[p];
  }

  /** A cycle with entries in use retires one, or brings the oldest one closer. */
  lemma {:induction false} CycleProgress(pace: Pace, numSources: nat, now: nat, next: nat, s: Core, gone: nat,
                                         incoming: seq<Entry>, taken: nat, s': Core)
    requires Cycled(pace, numSources, next, s, gone, incoming, taken, s') && Positive(pace) && next == now + 1
    requires s.head < |s.entries| && s.occupancy > 0 && AllFetched(s)
    ensures gone == 0 ==> s'.head < |s'.entries| && s'.occupancy > 0 && Closer(s', s, now)
  {
    hide Invariant, Stages, Closer, NoneRetired, Phase;
    var a, b, c, d :| && Stages(pace, next, s, gone, a, b, c, d, incoming, taken, s')
      && Invariant(s, numSources) && Invariant(a, numSources) && Invariant(b, numSources)
      && Invariant(c, numSources) && Invariant(d, numSources) && Invariant(s', numSources);
    if gone == 0 {
      StagesProgress(pace, numSources, now, next, s, a, b, c, d, incoming, taken, s');
    }
  }

  lemma {:induction false} StagesProgress(pace: Pace, numSources: nat, now: nat, next: nat, s: Core, a: Core, b: Core,
                                          c: Core,
                                          d: Core, incoming: seq<Entry>, taken: nat, s': Core)
    requires Stages(pace, next, s, 0, a, b, c, d, incoming, taken, s') && Positive(pace) && next == now + 1
    requires Invariant(s, numSources) && Invariant(b, numSources)
    requires s.head < |s.entries| && s.occupancy > 0 && AllFetched(s)
    ensures s'.head < |s'.entries| && s'.occupancy > 0 && Closer(s', s, now)
  {
    hide Invariant, Closer, NoneRetired, Phase, Retires, CompletedTo, ScheduledTo, StartMany, DispatchMany;
    var es := incoming[..taken];
    var k := StagesStart(pace, numSources, next, s, a, b, c, d, incoming, taken, s');
    StaysOccupied(pace, numSources, next, s, a, b, c, d, es, s', k);
    HeadKnown(s, numSources);
    PhaseBound(s);
    hide Stages;
    if Phase(s) < 2 {
      StartedProgress(pace, numSources, now, next, s, a, b, c, d, es, s', k);
    } else if Phase(s) == 2 {
      ReadyProgress(pace, numSources, now, next, s, a, b, c, d, es, s', k);
    } else {
      UnscheduledProgress(pace, numSources, now, next, s, a, b, c, d, es, s', k);
    }
  }

  lemma PhaseBound(s: Core)
    requires s.head < |s.entries|
    ensures Phase(s) <= 3
  {
  }

  lemma StaysOccupied(pace: Pace, numSources: nat, now: nat, s: Core, a: Core, b: Core, c: Core, d: Core,
                      es: seq<Entry>, s': Core, k: nat)
    requires NoneRetired(pace, numSources, now, s, a, b, c, d, es, s', k)
    ensures s.occupancy > 0 && s'.occupancy >= s.occupancy
  {
    hide Invariant, CompletedTo, ScheduledTo, DispatchMany, StartedFirst, Completing, NewlyTo;
    HeadKnown(s, numSources);
    HeadThrough(pace, numSources, now, s, a, b, c, d, es, s', k, s.head);
  }

  /** The stages of a cycle that retires nothing, with the number of entries they start. */
  lemma {:induction false} StagesStart(pace: Pace, numSources: nat, now: nat, s: Core, a: Core, b: Core, c: Core,
                                       d: Core,
                                       incoming: seq<Entry>, taken: nat, s': Core) returns (k: nat)
    requires Stages(pace, now, s, 0, a, b, c, d, incoming, taken, s') && pace.exec > 0 && s.occupancy > 0
    requires Invariant(s, numSources) && Invariant(b, numSources)
    ensures NoneRetired(pace, numSources, now, s, a, b, c, d, incoming[..taken], s', k)
  {
    hide Invariant, CompletedTo, ScheduledTo, StartMany, DispatchMany, StartedFirst, Retires;
    ReadyIdle(b, numSources);
    k := StartsPrefix(b, Min(pace.exec, |b.entries| - 1), now, pace.warm, pace.execution);
  }

  /** What a cycle retires and takes adds up, and what it takes has been fetched. */
  lemma {:induction false} CycleCounts(pace: Pace, numSources: nat, now: nat, s: Core, gone: nat, incoming: seq<Entry>,
                                       taken: nat, s': Core)
    requires Cycled(pace, numSources, now, s, gone, incoming, taken, s')
    requires s.head < |s.entries| && AllFetched(s) && forall j | 0 <= j < |incoming| :: incoming[j].fetched.Completed?
    ensures s'.head < |s'.entries| && AllFetched(s') && gone + s'.occupancy >= s.occupancy
  {
    hide Invariant, Stages, AllFetched;
    var a, b, c, d :| && Stages(pace, now, s, gone, a, b, c, d, incoming, taken, s')
      && Invariant(s, numSources) && Invariant(a, numSources) && Invariant(b, numSources)
      && Invariant(c, numSources) && Invariant(d, numSources) && Invariant(s', numSources);
    StagesCount(pace, numSources, now, s, gone, a, b, c, d, incoming, taken, s');
  }

  lemma {:induction false} StagesCount(pace: Pace, numSources: nat, now: nat, s: Core, gone: nat, a: Core, b: Core,
                                       c: Core,
                                       d: Core, incoming: seq<Entry>, taken: nat, s': Core)
    requires Stages(pace, now, s, gone, a, b, c, d, incoming, taken, s') && Invariant(b, numSources)
    requires s.head < |s.entries| && AllFetched(s) && forall j | 0 <= j < |incoming| :: incoming[j].fetched.Completed?
    ensures s'.head < |s'.entries| && AllFetched(s') && gone + s'.occupancy >= s.occupancy
  {
    hide Invariant, CompletedTo, ScheduledTo, StartMany, DispatchMany, StartedFirst, ReadySane;
    ReadyIdle(b, numSources);
    assert AllFetched(a) by {
      RetiredFetched(s, gone, a);
    }
    CompletedFetched(a, pace.exec, now, b);
    var k := StartsPrefix(b, Min(pace.exec, |b.entries| - 1), now, pace.warm, pace.execution);
    StartedFetched(b, k, c);
    ScheduledFetched(c, now, pace.window, pace.warm, pace.scheduling, d);
    DispatchLeaves(d, incoming[..taken], now);
  }

  lemma RetiredFetched(s: Core, gone: nat, a: Core)
    requires s.head < |s.entries| && AfterRetiring(s, gone, a) && a.head < |a.entries| && AllFetched(s)
    ensures AllFetched(a) && gone + a.occupancy == s.occupancy
  {
    forall i: nat | Live(a, i) ensures a.entries[i].fetched.Completed? {
      assert Live(s, i) && Age(s, i) >= gone;
    }
  }

  lemma CompletedFetched(a: Core, width: nat, now: nat, b: Core)
    requires a.head < |a.entries| && CompletedTo(a, a.occupancy, width, now, b) && AllFetched(a)
    ensures b.head < |b.entries| && AllFetched(b) && b.occupancy == a.occupancy
  {
    hide Completing, SameNames;
  }

  lemma StartedFetched(b: Core, k: nat, c: Core)
    requires b.head < |b.entries| && StartedFirst(b, k, c) && AllFetched(b)
    ensures c.head < |c.entries| && AllFetched(c) && c.occupancy == b.occupancy
  {
  }

  lemma ScheduledFetched(c: Core, now: nat, window: nat, warm: bool, latency: nat, d: Core)
    requires c.head < |c.entries| && ScheduledTo(c, c.occupancy, now, window, warm, latency, d) && AllFetched(c)
    ensures d.head < |d.entries| && AllFetched(d) && d.occupancy == c.occupancy
  {
    hide NewlyTo, NamesTo;
  }

  // ---------------------------------------------------------------- whole runs

  /** A run: the core, what it retires and what it is offered, cycle by cycle. */
  datatype History = History(core: nat -> Core, gone: nat -> nat, incoming: nat -> seq<Entry>, taken: nat -> nat)

  /** Every step of the run is a cycle, one time unit after the other, on instructions that have been fetched. */
  ghost predicate Runs(pace: Pace, numSources: nat, start: nat, h: History) {
    && h.core(0).head < |h.core(0).entries| && AllFetched(h.core(0))
    && (forall i: nat, next: nat | next == i + 1 :: StepOk(pace, numSources, start, h, i, next))
  }

  ghost predicate StepOk(pace: Pace, numSources: nat, start: nat, h: History, i: nat, next: nat) {
    && (forall j | 0 <= j < |h.incoming(i)| :: h.incoming(i)[j].fetched.Completed?)
    && Cycled(pace, numSources, start + next, h.core(i), h.gone(i), h.incoming(i), h.taken(i), h.core(next))
  }

  /** Instructions retired in the first `k` cycles. */
  function Retired(h: History, k: nat): nat {
    if k == 0 then 0 else Retired(h, k - 1) + h.gone(k - 1)
  }

  lemma {:induction false} RunFetched(pace: Pace, numSources: nat, start: nat, h: History, i: nat)
    requires Runs(pace, numSources, start, h)
    ensures h.core(i).head < |h.core(i).entries| && AllFetched(h.core(i))
  {
    hide Cycled, AllFetched;
    if i == 0 {
    } else {
      RunFetched(pace, numSources, start, h, i - 1);
      assert StepOk(pace, numSources, start, h, i - 1, i);
      CycleCounts(pace, numSources, start + i, h.core(i - 1), h.gone(i - 1), h.incoming(i - 1), h.taken(i - 1),
                  h.core(i));
    }
  }

  /** The oldest entry leaves after finitely many cycles. */
  lemma {:induction false} HeadLeaves(pace: Pace, numSources: nat, start: nat, h: History, i: nat) returns (k: nat)
    requires Runs(pace, numSources, start, h) && Positive(pace) && h.core(i).occupancy > 0
    ensures h.core(i).head < |h.core(i).entries|
    ensures i <= k && h.gone(k) > 0 && forall j: nat | i <= j < k :: h.gone(j) == 0
    decreases if h.core(i).head < |h.core(i).entries| then Phase(h.core(i)) else 0,
              if h.core(i).head < |h.core(i).entries| then Place(h.core(i)) else 0,
              if h.core(i).head < |h.core(i).entries| then Wait(h.core(i), start + i) else 0
  {
    hide Cycled, AllFetched, Phase, Place, Wait;
    RunFetched(pace, numSources, start, h, i);
    if h.gone(i) > 0 {
      k := i;
    } else {
      var next := i + 1;
      assert StepOk(pace, numSources, start, h, i, i + 1);
      CycleProgress(pace, numSources, start + i, start + next, h.core(i), h.gone(i), h.incoming(i), h.taken(i),
                    h.core(next));
      k := HeadLeaves(pace, numSources, start, h, next);
    }
  }

  /** Until the next retirement nothing leaves. */
  lemma {:induction false} RetiredUntil(pace: Pace, numSources: nat, start: nat, h: History, i: nat, k: nat)
    requires Runs(pace, numSources, start, h) && i <= k && forall j: nat | i <= j < k :: h.gone(j) == 0
    ensures Retired(h, k + 1) == Retired(h, i) + h.gone(k)
    ensures Retired(h, k + 1) + h.core(k + 1).occupancy >= Retired(h, i) + h.core(i).occupancy
    decreases k
  {
    hide Cycled, AllFetched;
    RunFetched(pace, numSources, start, h, k);
    assert StepOk(pace, numSources, start, h, k, k + 1);
    CycleCounts(pace, numSources, start + k + 1, h.core(k), h.gone(k), h.incoming(k), h.taken(k), h.core(k + 1));
    if i == k {
    } else {
      RetiredUntil(pace, numSources, start, h, i, k - 1);
    }
  }

  /** With at least one entry per cycle in each stage, an instruction that is in the buffer in cycle `i`, with
      `n` instructions retired or in the buffer before it, is retired after finitely many cycles. */
  lemma {:induction false} EveryInstructionRetires(pace: Pace, numSources: nat, start: nat, h: History, i: nat, n: nat)
    returns (k: nat)
    requires Runs(pace, numSources, start, h) && Positive(pace)
    requires n < Retired(h, i) + h.core(i).occupancy
    ensures Retired(h, k) > n
    decreases n + 1 - Retired(h, i)
  {
    hide Runs, Retired;
    if Retired(h, i) > n {
      k := i;
    } else {
      var j := HeadLeaves(pace, numSources, start, h, i);
      RetiredUntil(pace, numSources, start, h, i, j);
      k := EveryInstructionRetires(pace, numSources, start, h, j + 1, n);
    }
  }
}
