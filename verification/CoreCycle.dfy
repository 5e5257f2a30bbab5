/** What the per-cycle loops of the out-of-order core do as a whole (src/ooo_cpu.cc): which entries they
    schedule, start, complete and retire, independent of how they walk the buffer.
 */
module CoreCycle {
  import opened RegisterWakeup

  /** The slot in use for the entry of this age. */
  function SlotAt(s: Core, a: nat): (i: nat)
    requires s.head < |s.entries| && a < |s.entries|
    ensures i < |s.entries| && Age(s, i) == a
  {
    if s.head + a < |s.entries| then s.head + a else s.head + a - |s.entries|
  }

  lemma SlotOf(s: Core, i: nat)
    requires s.head < |s.entries| && i < |s.entries|
    ensures SlotAt(s, Age(s, i)) == i
  {
  }

  /** Event cycles after a latency; nothing is added during warm-up. */
  function AfterLatency(warm: bool, eventCycle: nat, now: nat, latency: nat): nat {
    if warm
    then (if eventCycle < now then now + latency else eventCycle + latency)
    else (if eventCycle < now then now else eventCycle)
  }

  ghost predicate SameNames(s: Core, m: Core) {
    forall p: nat, x: nat, j: nat :: Names(m, p, x, j) <==> Names(s, p, x, j)
  }

  ghost predicate Longer(q: seq<nat>, q': seq<nat>) {
    |q| <= |q'| && q'[..|q|] == q
  }

  // ---------------------------------------------------------------- completion

  predicate Due(e: Entry, now: nat) {
    e.executed.Inflight? && e.eventCycle <= now
  }

  /** Due entries below age `a`. */
  function DueBefore(s: Core, a: nat, now: nat): nat
    requires s.head < |s.entries| && a <= |s.entries|
  {
    if a == 0 then 0 else DueBefore(s, a - 1, now) + (if Due(s.entries[SlotAt(s, a - 1)], now) then 1 else 0)
  }

  lemma {:induction false} DueGrows(s: Core, a: nat, b: nat, now: nat)
    requires s.head < |s.entries| && a <= b <= |s.entries|
    ensures DueBefore(s, a, now) <= DueBefore(s, b, now)
  {
    if a >= b {
    } else {
      DueGrows(s, a, b - 1, now);
    }
  }

  /** Slot `i` is due, and fewer than `width` older entries are. */
  ghost predicate Completing(s: Core, i: nat, width: nat, now: nat)
    requires s.head < |s.entries|
  {
    Live(s, i) && Due(s.entries[i], now) && DueBefore(s, Age(s, i), now) < width
  }

  /** Of the entries below age `count`, the oldest `width` due ones are complete; nothing else about stages,
      times and dependence sets has changed. */
  ghost predicate CompletedTo(s: Core, count: nat, width: nat, now: nat, m: Core)
    requires s.head < |s.entries|
  {
    && SameProgram(s, m) && SameNames(s, m) && Longer(s.ready, m.ready)
    && (forall i: nat | i < |s.entries| :: m.entries[i].executed
          == if Completing(s, i, width, now) && Age(s, i) < count then Completed else s.entries[i].executed)
    && (forall i: nat | i < |s.entries| :: m.entries[i].eventCycle == s.entries[i].eventCycle)
    && (forall i: nat | i < |s.entries| ::
          m.entries[i].scheduled == s.entries[i].scheduled && m.entries[i].fetched == s.entries[i].fetched)
  }

  lemma CompletedNone(s: Core, width: nat, now: nat)
    requires s.head < |s.entries|
    ensures CompletedTo(s, 0, width, now, s)
  {
  }

  /** One more slot of the walk. */
  lemma {:induction false} CompletedNext(s: Core, count: nat, next: nat, width: nat, now: nat, m: Core, p: nat,
                                         m': Core)
    requires s.head < |s.entries| && count < s.occupancy <= |s.entries| && next == count + 1
    requires CompletedTo(s, count, width, now, m) && p == SlotAt(s, count) && DueBefore(s, count, now) < width
    requires if Due(m.entries[p], now) then Completes(m, p, m') else m' == m
    ensures CompletedTo(s, next, width, now, m')
    ensures Due(m.entries[p], now) == Due(s.entries[p], now)
  {
    hide Woken, Pending;
    forall i: nat | i < |s.entries| && i != p ensures Age(s, i) != count {
      SlotOf(s, i);
    }
    assert m.entries[p].executed == s.entries[p].executed;
    if Due(m.entries[p], now) {
      CompletesLonger(m, p, m');
      assert SameNames(m, m');
    }
  }

  lemma CompletesLonger(m: Core, p: nat, m': Core)
    requires m.head < |m.entries| && p < |m.entries| && Completes(m, p, m')
    ensures Longer(m.ready, m'.ready)
  {
  }

  lemma {:induction false} NoneDue(s: Core, a: nat, now: nat)
    requires s.head < |s.entries| && a <= |s.entries| && Executing(s) == {}
    ensures DueBefore(s, a, now) == 0
  {
    if a == 0 {
    } else {
      NoneDue(s, a - 1, now);
      assert SlotAt(s, a - 1) !in Executing(s);
    }
  }

  /** Past the last completion, or without executing entries, the rest of the walk does nothing. */
  lemma {:induction false} CompletedRest(s: Core, count: nat, width: nat, now: nat, m: Core)
    requires s.head < |s.entries| && count <= s.occupancy <= |s.entries|
    requires CompletedTo(s, count, width, now, m)
    requires count == s.occupancy || DueBefore(s, count, now) >= width || Executing(s) == {}
    ensures CompletedTo(s, s.occupancy, width, now, m)
    ensures DueBefore(s, s.occupancy, now) == DueBefore(s, count, now)
         || (DueBefore(s, s.occupancy, now) >= width && DueBefore(s, count, now) >= width)
  {
    hide SameNames, SameProgram, Longer;
    DueGrows(s, count, s.occupancy, now);
    if Executing(s) == {} {
      NoneDue(s, count, now);
      NoneDue(s, s.occupancy, now);
    }
    forall i: nat | i < |s.entries| && Completing(s, i, width, now) ensures Age(s, i) < count {
      assert i !in Executing(s) ==> !s.entries[i].executed.Inflight?;
      if Age(s, i) >= count {
        DueGrows(s, count, Age(s, i), now);
      }
    }
  }

  // ---------------------------------------------------------------- scheduling

  /** Entries below age `a` that have not started. */
  function IdleBefore(s: Core, a: nat): nat
    requires s.head < |s.entries| && a <= |s.entries|
  {
    if a == 0 then 0 else IdleBefore(s, a - 1) + (if s.entries[SlotAt(s, a - 1)].executed.Idle? then 1 else 0)
  }

  /** The walk ends at age `a`: the entry is not there yet, or the window is full. */
  predicate Stops(s: Core, a: nat, now: nat, window: nat)
    requires s.head < |s.entries| && a < |s.entries|
  {
    var e := s.entries[SlotAt(s, a)];
    !e.fetched.Completed? || e.eventCycle > now || IdleBefore(s, a) >= window
  }

  /** Slot `i` is unscheduled, and the walk does not end at it or before it. */
  ghost predicate Scheduling(s: Core, i: nat, now: nat, window: nat)
    requires s.head < |s.entries|
  {
    Live(s, i) && s.entries[i].scheduled.Idle? && forall a: nat | a <= Age(s, i) :: !Stops(s, a, now, window)
  }

  ghost predicate NewlyTo(s: Core, i: nat, count: nat, now: nat, window: nat)
    requires s.head < |s.entries|
  {
    Scheduling(s, i, now, window) && Age(s, i) < count
  }

  /** The entries that the walk reaches below age `count` are scheduled, and recorded with exactly the youngest
      uncompleted older writer of each of their sources. */
  ghost predicate ScheduledTo(s: Core, count: nat, now: nat, window: nat, warm: bool, latency: nat, m: Core)
    requires s.head < |s.entries|
  {
    && SameProgram(s, m) && Longer(s.ready, m.ready) && StagesTo(s, count, now, window, warm, latency, m)
    && NamesTo(s, count, now, window, m)
  }

  ghost predicate StagesTo(s: Core, count: nat, now: nat, window: nat, warm: bool, latency: nat, m: Core)
    requires s.head < |s.entries|
  {
    && |m.entries| == |s.entries|
    && (forall i: nat | i < |s.entries| ::
          m.entries[i].executed == s.entries[i].executed && m.entries[i].fetched == s.entries[i].fetched)
    && (forall i: nat | i < |s.entries| :: m.entries[i].scheduled
          == if NewlyTo(s, i, count, now, window) then Completed else s.entries[i].scheduled)
    && (forall i: nat | i < |s.entries| :: m.entries[i].eventCycle
          == if NewlyTo(s, i, count, now, window) then AfterLatency(warm, s.entries[i].eventCycle, now, latency)
             else s.entries[i].eventCycle)
  }

  ghost predicate NamesTo(s: Core, count: nat, now: nat, window: nat, m: Core)
    requires s.head < |s.entries|
  {
    forall p: nat, x: nat, j: nat :: Names(m, p, x, j)
      <==> Names(s, p, x, j) || (NewlyTo(s, x, count, now, window) && Produces(s, p, x, j))
  }

  lemma ScheduledNone(s: Core, now: nat, window: nat, warm: bool, latency: nat)
    requires s.head < |s.entries|
    ensures ScheduledTo(s, 0, now, window, warm, latency, s)
  {
  }

  /** What one do_scheduling changes. */
  lemma {:induction false} SchedulesSeen(m: Core, c: nat, eventCycle: nat, m': Core)
    requires m.head < |m.entries| && Live(m, c) && Schedules(m, c, eventCycle, m')
    ensures SameProgram(m, m') && Longer(m.ready, m'.ready)
    ensures forall i: nat | i < |m.entries| ::
              m'.entries[i].executed == m.entries[i].executed && m'.entries[i].fetched == m.entries[i].fetched
    ensures forall i: nat | i < |m.entries| ::
              && m'.entries[i].scheduled == (if i == c then Completed else m.entries[i].scheduled)
              && m'.entries[i].eventCycle == (if i == c then eventCycle else m.entries[i].eventCycle)
    ensures forall p: nat, x: nat, j: nat ::
              Names(m', p, x, j) <==> Names(m, p, x, j) || (x == c && Produces(m, p, c, j))
  {
    hide Produces, SetsAgree, CheckedExact, Pending;
    var k: Core :| Searching(m, c, -1, 0, k) && m' == FinishScheduling(k, c, eventCycle);
    forall p: nat, x: nat, j: nat
      ensures Names(m', p, x, j) <==> Names(m, p, x, j) || (x == c && Produces(m, p, c, j))
    {
      assert Names(m', p, x, j) == Names(k, p, x, j);
      ProducerFound(m, c, p, j);
    }
  }

  lemma ProducerFound(s: Core, c: nat, p: nat, j: nat)
    requires s.head < |s.entries|
    ensures Found(s, c, -1, 0, p, j) == Produces(s, p, c, j)
  {
  }

  /** Producers depend on the program and on what is complete only. */
  lemma {:induction false} SameProducers(s: Core, m: Core, p: nat, c: nat, j: nat)
    requires s.head < |s.entries| && SameProgram(s, m)
    requires forall i: nat | i < |s.entries| :: m.entries[i].executed == s.entries[i].executed
    ensures Produces(m, p, c, j) == Produces(s, p, c, j)
  {
    assert forall q: nat :: Older(m, q, c) == Older(s, q, c);
  }

  /** One more slot of the walk, which is scheduled if it was not. */
  lemma {:induction false} ScheduledNext(s: Core, count: nat, next: nat, now: nat, window: nat, warm: bool,
                                         latency: nat,
                                         m: Core, c: nat, m': Core)
    requires s.head < |s.entries| && count < s.occupancy <= |s.entries| && next == count + 1
    requires ScheduledTo(s, count, now, window, warm, latency, m) && c == SlotAt(s, count)
    requires forall a: nat | a <= count :: !Stops(s, a, now, window)
    requires if s.entries[c].scheduled.Idle?
             then Live(m, c) && Schedules(m, c, AfterLatency(warm, s.entries[c].eventCycle, now, latency), m')
             else m' == m
    ensures ScheduledTo(s, next, now, window, warm, latency, m')
  {
    hide Produces, Names, Stops, Schedules, AfterLatency, Age;
    NewlyNext(s, count, next, now, window, c);
    hide NewlyTo, Scheduling;
    if s.entries[c].scheduled.Idle? {
      SchedulesSeen(m, c, AfterLatency(warm, s.entries[c].eventCycle, now, latency), m');
      forall p: nat, j: nat ensures Produces(m, p, c, j) == Produces(s, p, c, j) {
        SameProducers(s, m, p, c, j);
      }
    }
  }

  lemma {:induction false} NewlyNext(s: Core, count: nat, next: nat, now: nat, window: nat, c: nat)
    requires s.head < |s.entries| && count < s.occupancy <= |s.entries| && next == count + 1 && c == SlotAt(s, count)
    requires forall a: nat | a <= count :: !Stops(s, a, now, window)
    ensures forall i: nat :: NewlyTo(s, i, next, now, window)
              <==> NewlyTo(s, i, count, now, window) || (i == c && s.entries[c].scheduled.Idle?)
    ensures !NewlyTo(s, c, count, now, window)
  {
    hide Stops;
    forall i: nat | i < |s.entries| && Age(s, i) == count ensures i == c {
      SlotOf(s, i);
    }
  }

  /** At the end of the walk there is no more to do. */
  lemma {:induction false} ScheduledRest(s: Core, count: nat, now: nat, window: nat, warm: bool, latency: nat, m: Core)
    requires s.head < |s.entries| && count <= s.occupancy <= |s.entries|
    requires ScheduledTo(s, count, now, window, warm, latency, m)
    requires count < s.occupancy ==> Stops(s, count, now, window)
    ensures ScheduledTo(s, s.occupancy, now, window, warm, latency, m)
  {
    hide Names, Produces, Stops, AfterLatency;
    forall i: nat ensures NewlyTo(s, i, s.occupancy, now, window) == NewlyTo(s, i, count, now, window) {
    }
    hide NewlyTo;
  }

  // ---------------------------------------------------------------- execution and dispatch

  /** The front of the ready queue starts, if its time has come. */
  function StartOne(s: Core, now: nat, warm: bool, latency: nat): Core {
    if s.ready != [] && s.ready[0] < |s.entries| && s.entries[s.ready[0]].eventCycle <= now
    then Start(s, AfterLatency(warm, s.entries[s.ready[0]].eventCycle, now, latency))
    else s
  }

  function StartMany(s: Core, n: nat, now: nat, warm: bool, latency: nat): Core {
    if n == 0 then s else StartOne(StartMany(s, n - 1, now, warm, latency), now, warm, latency)
  }

  /** An entry that may not start yet holds back all behind it. */
  lemma {:induction false} StartStuck(s: Core, k: nat, n: nat, now: nat, warm: bool, latency: nat)
    requires k <= n
    requires var m := StartMany(s, k, now, warm, latency); StartOne(m, now, warm, latency) == m
    ensures StartMany(s, n, now, warm, latency) == StartMany(s, k, now, warm, latency)
    decreases n
  {
    if k >= n {
    } else {
      StartStuck(s, k, n - 1, now, warm, latency);
    }
  }

  /** The instructions of `es` enter in order. */
  function DispatchMany(s: Core, es: seq<Entry>, now: nat): Core
    requires s.head < |s.entries|
    decreases |es|
  {
    if es == [] then s else
    var n := |es| - 1;
    var m := DispatchMany(s, es[..n], now);
    if m.head < |m.entries| && m.occupancy < |m.entries| then Dispatch(m, es[n], now) else m
  }

  // ---------------------------------------------------------------- retirement and the cycle

  /** The `count` oldest entries, all completed, are gone; the others are as before. */
  ghost predicate AfterRetiring(s: Core, count: nat, m: Core)
    requires s.head < |s.entries|
  {
    && |m.entries| == |s.entries| && m.ready == s.ready && m.inflight == s.inflight
    && count <= s.occupancy <= |s.entries| && m.occupancy == s.occupancy - count
    && m.head == (if s.head + count < |s.entries| then s.head + count else s.head + count - |s.entries|)
    && (forall i: nat | Live(s, i) && Age(s, i) >= count :: m.entries[i] == s.entries[i])
    && (forall i: nat | Live(s, i) && Age(s, i) < count :: s.entries[i].executed.Completed?)
  }

  lemma NothingRetired(s: Core)
    requires s.head < |s.entries| && s.occupancy <= |s.entries|
    ensures AfterRetiring(s, 0, s)
  {
  }

  /** Retirement stops at the width or at an entry that is not done, and does not begin before its time. */
  ghost predicate Retires(s: Core, count: nat, width: nat, now: nat, m: Core)
    requires s.head < |s.entries|
  {
    && AfterRetiring(s, count, m) && count <= width && m.head < |m.entries|
    && (count > 0 ==> s.entries[s.head].eventCycle <= now)
    && (count < width && m.entries[m.head].executed.Completed? ==> count == 0 && s.entries[s.head].eventCycle > now)
  }

  // ---------------------------------------------------------------- the cycle

  /** Widths per cycle, the scheduler window, and latencies, which count after warm-up. */
  datatype Pace = Pace(dispatch: nat, window: nat, exec: nat, retire: nat, scheduling: nat, execution: nat, warm: bool)

  /** One cycle through its stages: retire, complete, execute, schedule, dispatch. */
  ghost predicate Stages(pace: Pace, now: nat, s: Core, gone: nat, a: Core, b: Core, c: Core, d: Core,
                         incoming: seq<Entry>, taken: nat, s': Core)
  {
    && s.head < |s.entries| && Retires(s, gone, pace.retire, now, a)
    && a.head < |a.entries| && CompletedTo(a, a.occupancy, pace.exec, now, b)
    && |b.entries| >= 2 && c == StartMany(b, Min(pace.exec, |b.entries| - 1), now, pace.warm, pace.execution)
    && c.head < |c.entries| && ScheduledTo(c, c.occupancy, now, pace.window, pace.warm, pace.scheduling, d)
    && d.head < |d.entries| && d.occupancy <= |d.entries|
    && taken == Min(Min(pace.dispatch, |incoming|), |d.entries| - d.occupancy)
    && s' == DispatchMany(d, incoming[..taken], now)
  }

  /** One cycle at time `now`, which retires `gone` entries; the invariant holds between its stages. */
  ghost predicate Cycled(pace: Pace, numSources: nat, now: nat, s: Core, gone: nat, incoming: seq<Entry>, taken: nat,
                         s': Core)
  {
    exists a: Core, b: Core, c: Core, d: Core ::
      && Stages(pace, now, s, gone, a, b, c, d, incoming, taken, s')
      && Invariant(s, numSources) && Invariant(a, numSources) && Invariant(b, numSources)
      && Invariant(c, numSources) && Invariant(d, numSources) && Invariant(s', numSources)
  }

  function Min(a: int, b: int): int {
    if a <= b then a else b
  }
}
