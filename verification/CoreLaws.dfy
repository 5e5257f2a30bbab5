/** Which entries of the reorder buffer the loops of one cycle act on (src/ooo_cpu.cc), said by counting older
    entries: the scheduler window, the execution width, and latencies.
 */
module CoreLaws {
  import opened RegisterWakeup
  import opened CoreCycle
  import opened CoreProgress
  import opened Recency

  // ---------------------------------------------------------------- the scheduler window

  /** The older entries that have not started. */
  ghost function OlderIdle(s: Core, c: nat): set<nat>
    requires s.head < |s.entries|
  {
    set i: nat | i < |s.entries| && Older(s, i, c) && s.entries[i].executed.Idle?
  }

  /** The entry and all older ones are fetched and their time has come, and the older ones that have not started
      do not fill the window. */
  ghost predicate InWindow(s: Core, c: nat, now: nat, window: nat)
    requires s.head < |s.entries|
  {
    && (forall i: nat | Live(s, i) && (i == c || Older(s, i, c)) ::
          s.entries[i].fetched.Completed? && s.entries[i].eventCycle <= now)
    && |OlderIdle(s, c)| < window
  }

  lemma {:induction false} IdleCount(s: Core, a: nat)
    requires s.head < |s.entries| && a <= |s.entries|
    ensures IdleBefore(s, a) == |set i: nat | i < |s.entries| && Age(s, i) < a && s.entries[i].executed.Idle?|
  {
    var below := set i: nat | i < |s.entries| && Age(s, i) < a && s.entries[i].executed.Idle?;
    if a == 0 {
      assert below == {};
    } else {
      IdleCount(s, a - 1);
      var fewer := set i: nat | i < |s.entries| && Age(s, i) < a - 1 && s.entries[i].executed.Idle?;
      var last := SlotAt(s, a - 1);
      forall i: nat | i < |s.entries| && Age(s, i) == a - 1 ensures i == last {
        SlotOf(s, i);
      }
      assert below == fewer + (if s.entries[last].executed.Idle? then {last} else {});
    }
  }

  lemma {:induction false} IdleIsOlder(s: Core, c: nat)
    requires s.head < |s.entries| && Live(s, c)
    ensures IdleBefore(s, Age(s, c)) == |OlderIdle(s, c)|
  {
    IdleCount(s, Age(s, c));
    assert OlderIdle(s, c)
        == set i: nat | i < |s.entries| && Age(s, i) < Age(s, c) && s.entries[i].executed.Idle?;
  }

  lemma {:induction false} IdleGrows(s: Core, a: nat, b: nat)
    requires s.head < |s.entries| && a <= b <= |s.entries|
    ensures IdleBefore(s, a) <= IdleBefore(s, b)
  {
    if a == b {
    } else {
      IdleGrows(s, a, b - 1);
    }
  }

  /** The walk reaches an unscheduled entry exactly when the entry is in the window. */
  lemma {:induction false} WindowExactly(s: Core, c: nat, now: nat, window: nat)
    requires s.head < |s.entries| && Live(s, c) && s.occupancy <= |s.entries|
    ensures Scheduling(s, c, now, window) <==> s.entries[c].scheduled.Idle? && InWindow(s, c, now, window)
  {
    hide IdleBefore, OlderIdle;
    IdleIsOlder(s, c);
    SlotOf(s, c);
    if InWindow(s, c, now, window) {
      forall a: nat | a <= Age(s, c) ensures !Stops(s, a, now, window) {
        IdleGrows(s, a, Age(s, c));
        var i := SlotAt(s, a);
        assert Live(s, i) && (a == Age(s, c) ==> i == c) && (a < Age(s, c) ==> Older(s, i, c));
      }
    }
    if Scheduling(s, c, now, window) {
      forall i: nat | Live(s, i) && (i == c || Older(s, i, c))
        ensures s.entries[i].fetched.Completed? && s.entries[i].eventCycle <= now
      {
        SlotOf(s, i);
        assert !Stops(s, Age(s, i), now, window);
      }
      assert !Stops(s, Age(s, c), now, window);
    }
  }

  /** `p` is uncompleted and writes source `j` of `c`, a real register, and no entry between them does. */
  ghost predicate LastWriter(s: Core, p: nat, c: nat, j: nat)
    requires s.head < |s.entries|
  {
    && Older(s, p, c) && j < |s.entries[c].sources| && s.entries[c].sources[j] != 0
    && s.entries[c].sources[j] in s.entries[p].destinations && !s.entries[p].executed.Completed?
    && forall q: nat | Older(s, q, c) && Older(s, p, q) && !s.entries[q].executed.Completed? ::
         s.entries[c].sources[j] !in s.entries[q].destinations
  }

  lemma {:induction false} ProducerIsLastWriter(s: Core, p: nat, c: nat, j: nat)
    requires s.head < |s.entries|
    ensures Produces(s, p, c, j) <==> LastWriter(s, p, c, j)
  {
    if LastWriter(s, p, c, j) {
      forall q: nat | Older(s, q, c) && Age(s, p) < Age(s, q) && !s.entries[q].executed.Completed?
        ensures !Writes(s.entries[q], s.entries[c].sources[j])
      {
        assert Older(s, p, q);
      }
    }
    if Produces(s, p, c, j) {
      forall q: nat | Older(s, q, c) && Older(s, p, q) && !s.entries[q].executed.Completed?
        ensures s.entries[c].sources[j] !in s.entries[q].destinations
      {
        assert !Writes(s.entries[q], s.entries[c].sources[j]);
      }
    }
  }

  /** What one walk of the scheduler does: exactly the unscheduled entries in the window are scheduled, the latency
      after now, and exactly those are recorded, with the last uncompleted writer of each of their sources. */
  ghost predicate WindowScheduled(s: Core, now: nat, window: nat, warm: bool, latency: nat, m: Core)
    requires s.head < |s.entries|
  {
    && |m.entries| == |s.entries|
    && (forall c: nat | Live(s, c) && s.entries[c].scheduled.Idle? ::
          m.entries[c].scheduled.Completed? <==> InWindow(s, c, now, window))
    && (forall c: nat | Live(s, c) && s.entries[c].scheduled.Idle? && InWindow(s, c, now, window) ::
          m.entries[c].eventCycle == now + (if warm then latency else 0))
    && (forall p: nat, c: nat, j: nat :: Names(m, p, c, j) <==>
          Names(s, p, c, j)
          || (Live(s, c) && s.entries[c].scheduled.Idle? && InWindow(s, c, now, window) && LastWriter(s, p, c, j)))
  }

  lemma {:induction false} SchedulesWindow(s: Core, now: nat, window: nat, warm: bool, latency: nat, m: Core)
    requires s.head < |s.entries| && s.occupancy <= |s.entries|
    requires ScheduledTo(s, s.occupancy, now, window, warm, latency, m)
    ensures WindowScheduled(s, now, window, warm, latency, m)
  {
    hide InWindow, LastWriter, Scheduling, Names, Produces;
    forall c: nat | Live(s, c) && s.entries[c].scheduled.Idle?
      ensures m.entries[c].scheduled.Completed? <==> InWindow(s, c, now, window)
      ensures InWindow(s, c, now, window) ==> m.entries[c].eventCycle == now + (if warm then latency else 0)
    {
      WindowExactly(s, c, now, window);
      if InWindow(s, c, now, window) {
        WindowDue(s, c, now, window);
      }
      assert NewlyTo(s, c, s.occupancy, now, window) <==> Scheduling(s, c, now, window);
    }
    forall p: nat, c: nat, j: nat
      ensures Names(m, p, c, j) <==>
                Names(s, p, c, j)
                || (Live(s, c) && s.entries[c].scheduled.Idle? && InWindow(s, c, now, window) && LastWriter(s, p, c, j))
    {
      ProducerIsLastWriter(s, p, c, j);
      OnlyLive(s, c, now, window);
      if Live(s, c) {
        WindowExactly(s, c, now, window);
      }
    }
  }

  lemma WindowDue(s: Core, c: nat, now: nat, window: nat)
    requires s.head < |s.entries| && Live(s, c) && InWindow(s, c, now, window)
    ensures s.entries[c].eventCycle <= now
  {
  }

  lemma OnlyLive(s: Core, c: nat, now: nat, window: nat)
    requires s.head < |s.entries|
    ensures NewlyTo(s, c, s.occupancy, now, window) <==> Scheduling(s, c, now, window)
    ensures Scheduling(s, c, now, window) ==> Live(s, c)
  {
    hide Stops;
  }

  // ---------------------------------------------------------------- completion

  ghost function OlderDue(s: Core, c: nat, now: nat): set<nat>
    requires s.head < |s.entries|
  {
    set i: nat | i < |s.entries| && Older(s, i, c) && s.entries[i].executed.Inflight? && s.entries[i].eventCycle <= now
  }

  lemma {:induction false} DueCount(s: Core, a: nat, now: nat)
    requires s.head < |s.entries| && a <= |s.entries|
    ensures DueBefore(s, a, now) == |set i: nat | i < |s.entries| && Age(s, i) < a && Due(s.entries[i], now)|
  {
    var below := set i: nat | i < |s.entries| && Age(s, i) < a && Due(s.entries[i], now);
    if a == 0 {
      assert below == {};
    } else {
      DueCount(s, a - 1, now);
      var fewer := set i: nat | i < |s.entries| && Age(s, i) < a - 1 && Due(s.entries[i], now);
      var last := SlotAt(s, a - 1);
      forall i: nat | i < |s.entries| && Age(s, i) == a - 1 ensures i == last {
        SlotOf(s, i);
      }
      assert below == fewer + (if Due(s.entries[last], now) then {last} else {});
    }
  }

  /** An entry completes exactly when it executes, its time has come, and fewer older entries than the width are in
      the same case; no other entry changes its stage. */
  ghost predicate DueCompleted(s: Core, width: nat, now: nat, m: Core)
    requires s.head < |s.entries|
  {
    && |m.entries| == |s.entries|
    && forall c: nat | Live(s, c) :: m.entries[c].executed
         == if s.entries[c].executed.Inflight? && s.entries[c].eventCycle <= now && |OlderDue(s, c, now)| < width
            then Completed else s.entries[c].executed
  }

  lemma {:induction false} CompletesExactly(s: Core, width: nat, now: nat, m: Core)
    requires s.head < |s.entries| && s.occupancy <= |s.entries| && CompletedTo(s, s.occupancy, width, now, m)
    ensures DueCompleted(s, width, now, m)
  {
    hide SameNames, DueBefore, OlderDue;
    forall c: nat | Live(s, c) ensures DueBefore(s, Age(s, c), now) == |OlderDue(s, c, now)| {
      DueIsOlder(s, c, now);
    }
  }

  lemma {:induction false} DueIsOlder(s: Core, c: nat, now: nat)
    requires s.head < |s.entries| && Live(s, c)
    ensures DueBefore(s, Age(s, c), now) == |OlderDue(s, c, now)|
  {
    DueCount(s, Age(s, c), now);
    assert OlderDue(s, c, now)
        == set i: nat | i < |s.entries| && Age(s, i) < Age(s, c) && Due(s.entries[i], now);
  }

  // ---------------------------------------------------------------- execution and latencies

  /** A stage that begins now ends a latency later, counted from now or from a later event; before warm-up it takes
      no time. */
  lemma LatencyCounts(warm: bool, eventCycle: nat, now: nat, latency: nat)
    ensures var start := if eventCycle < now then now else eventCycle;
            AfterLatency(warm, eventCycle, now, latency) == start + (if warm then latency else 0)
    ensures warm ==> AfterLatency(warm, eventCycle, now, latency) >= now + latency
  {
  }

  /** Which entries start: the first `k` of the ready queue, which ends at the width or at an entry whose time has
      not come; each ends its latency after now. */
  ghost predicate FrontStarted(s: Core, k: nat, n: nat, now: nat, warm: bool, latency: nat, m: Core) {
    && ReadySane(s) && StartedFirst(s, k, m) && k <= n
    && (forall j | 0 <= j < k ::
          && s.entries[s.ready[j]].eventCycle <= now
          && m.entries[s.ready[j]].executed.Inflight?
          && m.entries[s.ready[j]].eventCycle == now + (if warm then latency else 0))
    && (k < n && k < |s.ready| ==> s.entries[s.ready[k]].eventCycle > now)
  }

  lemma {:induction false} StartsExactly(s: Core, n: nat, now: nat, warm: bool, latency: nat) returns (k: nat)
    requires ReadySane(s)
    ensures FrontStarted(s, k, n, now, warm, latency, StartMany(s, n, now, warm, latency))
  {
    if n == 0 {
      k := 0;
      assert s.ready[0..] == s.ready;
    } else {
      k := StartsExactly(s, n - 1, now, warm, latency);
      var m := StartMany(s, n - 1, now, warm, latency);
      StartOneMore(s, k, k + 1, m, now, warm, latency);
      if k < |s.ready| && s.entries[s.ready[k]].eventCycle <= now {
        StartStamps(s, k, m, now, warm, latency);
        k := k + 1;
      }
    }
  }

  /** Starting one more entry gives it its time, and leaves the times of those before it. */
  lemma {:induction false} StartStamps(s: Core, k: nat, m: Core, now: nat, warm: bool, latency: nat)
    requires ReadySane(s) && StartedFirst(s, k, m) && k < |s.ready| && s.entries[s.ready[k]].eventCycle <= now
    ensures var m' := StartOne(m, now, warm, latency);
            && |m'.entries| == |s.entries|
            && m'.entries[s.ready[k]].eventCycle == now + (if warm then latency else 0)
            && forall j | 0 <= j < k :: m'.entries[s.ready[j]].eventCycle == m.entries[s.ready[j]].eventCycle
  {
    assert m.ready[0] == s.ready[k];
    NotAmong(s.ready, k, k);
    assert m.entries[s.ready[k]] == s.entries[s.ready[k]];
    forall j | 0 <= j < k ensures s.ready[j] != s.ready[k] {
      assert s.ready[j] in s.ready[..k];
    }
  }

  // ---------------------------------------------------------------- retirement

  /** An entry leaves exactly when it and all older ones are completed, fewer older ones than the width are there,
      and the time of the oldest one has come. */
  ghost predicate DoneRetired(s: Core, count: nat, width: nat, now: nat)
    requires s.head < |s.entries|
  {
    && count <= s.occupancy
    && forall i: nat | Live(s, i) ::
         Age(s, i) < count <==>
           && Age(s, i) < width && s.entries[s.head].eventCycle <= now
           && forall k: nat | Live(s, k) && (k == i || Older(s, k, i)) :: s.entries[k].executed.Completed?
  }

  lemma {:induction false} RetiresExactly(s: Core, count: nat, width: nat, now: nat, m: Core)
    requires s.head < |s.entries| && Retires(s, count, width, now, m)
    ensures DoneRetired(s, count, width, now)
  {
    forall i: nat | Live(s, i) && Age(s, i) >= count && Age(s, i) < width && s.entries[s.head].eventCycle <= now
      ensures exists k: nat :: Live(s, k) && (k == i || Older(s, k, i)) && !s.entries[k].executed.Completed?
    {
      assert Age(s, m.head) == count && Live(s, m.head);
      assert m.entries[m.head] == s.entries[m.head];
      if m.head != i {
        SlotOf(s, i);
        SlotOf(s, m.head);
        assert Older(s, m.head, i);
      }
    }
  }

  // ---------------------------------------------------------------- dispatch

  /** The instructions that enter stand behind the others in order, with the current time. */
  ghost predicate InOrderBehind(s: Core, es: seq<Entry>, now: nat, m: Core)
    requires s.head < |s.entries|
  {
    && m.head == s.head && m.occupancy == s.occupancy + |es| && |m.entries| == |s.entries|
    && forall i: nat | i < |s.entries| && Age(s, i) < s.occupancy + |es| ::
         m.entries[i] == if Age(s, i) < s.occupancy then s.entries[i]
                         else es[Age(s, i) - s.occupancy].(eventCycle := now)
  }

  lemma {:induction false} DispatchesInOrder(s: Core, es: seq<Entry>, now: nat)
    requires s.head < |s.entries| && s.occupancy + |es| <= |s.entries|
    ensures InOrderBehind(s, es, now, DispatchMany(s, es, now))
    decreases |es|
  {
    hide Dispatch;
    if es == [] {
    } else {
      var n := |es| - 1;
      DispatchesInOrder(s, es[..n], now);
      OneBehind(s, es, n, now, DispatchMany(s, es[..n], now));
    }
  }

  lemma OneBehind(s: Core, es: seq<Entry>, n: nat, now: nat, m: Core)
    requires s.head < |s.entries| && s.occupancy + |es| <= |s.entries| && n == |es| - 1
    requires InOrderBehind(s, es[..n], now, m)
    ensures m.head < |m.entries| && m.occupancy < |m.entries| && InOrderBehind(s, es, now, Dispatch(m, es[n], now))
  {
    DispatchAges(m, es[n], now);
    var m' := Dispatch(m, es[n], now);
    forall i: nat | i < |s.entries| && Age(s, i) < s.occupancy + |es|
      ensures m'.entries[i] == if Age(s, i) < s.occupancy then s.entries[i]
                               else es[Age(s, i) - s.occupancy].(eventCycle := now)
    {
      assert Age(m, i) == Age(s, i);
    }
  }

  // ---------------------------------------------------------------- the order of the stages

  /** No entry takes two steps in one cycle: what leaves was completed before it, what completes had started, what
      starts had been scheduled, and what enters stays as it came. */
  ghost predicate OneStepEach(s: Core, gone: nat, incoming: seq<Entry>, taken: nat, now: nat, s': Core)
    requires s.head < |s.entries|
  {
    && s'.head < |s'.entries| == |s.entries| && gone <= s.occupancy && taken <= |incoming|
    && s'.occupancy == s.occupancy - gone + taken
    && (forall i: nat | Live(s, i) && Age(s, i) < gone :: s.entries[i].executed.Completed?)
    && (forall i: nat | Live(s, i) && Age(s, i) >= gone ::
          && Live(s', i) && Age(s', i) == Age(s, i) - gone
          && (s'.entries[i].executed.Completed? ==> !s.entries[i].executed.Idle?)
          && (!s'.entries[i].executed.Idle? ==> s.entries[i].scheduled.Completed?))
    && (forall i: nat | Live(s', i) && Age(s', i) >= s.occupancy - gone ::
          s'.entries[i] == incoming[Age(s', i) - (s.occupancy - gone)].(eventCycle := now))
  }

  lemma {:induction false} OneStepACycle(pace: Pace, numSources: nat, now: nat, s: Core, gone: nat,
                                         incoming: seq<Entry>, taken: nat, s': Core)
    requires Cycled(pace, numSources, now, s, gone, incoming, taken, s')
    ensures s.head < |s.entries| && OneStepEach(s, gone, incoming, taken, now, s')
  {
    hide Invariant, OneStepEach;
    var a: Core, b: Core, c: Core, d: Core :|
      && Stages(pace, now, s, gone, a, b, c, d, incoming, taken, s')
      && Invariant(s, numSources) && Invariant(a, numSources) && Invariant(b, numSources)
      && Invariant(c, numSources) && Invariant(d, numSources) && Invariant(s', numSources);
    OneStepStages(pace, numSources, now, s, gone, a, b, c, d, incoming, taken, s');
  }

  lemma {:induction false} OneStepStages(pace: Pace, numSources: nat, now: nat, s: Core, gone: nat, a: Core, b: Core,
                                         c: Core, d: Core, incoming: seq<Entry>, taken: nat, s': Core)
    requires Stages(pace, now, s, gone, a, b, c, d, incoming, taken, s')
    requires Invariant(s, numSources) && Invariant(b, numSources)
    ensures s.head < |s.entries| && OneStepEach(s, gone, incoming, taken, now, s')
  {
    hide Invariant, CompletedTo, ScheduledTo, StartMany, DispatchMany, AfterRetiring, FrontStarted, InOrderBehind;
    hide StartedFirst;
    ReadyIdle(b, numSources);
    hide ReadySane;
    var k := StartsExactly(b, Min(pace.exec, |b.entries| - 1), now, pace.warm, pace.execution);
    FrontIsPrefix(b, k, Min(pace.exec, |b.entries| - 1), now, pace.warm, pace.execution, c);
    SameSize(a, pace, now, b, c, d, k);
    DispatchesInOrder(d, incoming[..taken], now);
    RetireLeaves(s, gone, a);
    EnteredBehind(d, incoming, taken, now, s', s, gone);
    forall i: nat | Live(s, i) && Age(s, i) >= gone
      ensures s'.entries[i].executed.Completed? ==> !s.entries[i].executed.Idle?
      ensures !s'.entries[i].executed.Idle? ==> s.entries[i].scheduled.Completed?
    {
      StartedAreScheduled(s, numSources, i);
      EntryThrough(pace, numSources, now, a, b, c, d, incoming[..taken], s', k, i);
    }
  }

  lemma EntryThrough(pace: Pace, numSources: nat, now: nat, a: Core, b: Core, c: Core, d: Core, es: seq<Entry>,
                     s': Core, k: nat, i: nat)
    requires a.head < |a.entries| && CompletedTo(a, a.occupancy, pace.exec, now, b) && Invariant(b, numSources)
    requires a.occupancy <= |a.entries| && StartedFirst(b, k, c) && k <= |b.ready| && c.head < |c.entries|
    requires ScheduledTo(c, c.occupancy, now, pace.window, pace.warm, pace.scheduling, d)
    requires d.head < |d.entries| && d.occupancy <= |d.entries| && s' == DispatchMany(d, es, now) && Live(a, i)
    ensures |s'.entries| == |a.entries|
    ensures s'.entries[i].executed.Completed? ==> !a.entries[i].executed.Idle?
    ensures !s'.entries[i].executed.Idle? ==> !a.entries[i].executed.Idle? || a.entries[i].scheduled.Completed?
  {
    hide Invariant, CompletedTo, ScheduledTo, DispatchMany, AfterRetiring, StartedFirst, ReadySane, DueBefore;
    ReadyIdle(b, numSources);
    NothingRetired(a);
    CompletedSeen(a, pace.exec, now, b, i);
    ThroughCycle(pace, now, a, a, b, c, d, es, s', k, i);
  }

  lemma EnteredBehind(d: Core, incoming: seq<Entry>, taken: nat, now: nat, s': Core, s: Core, gone: nat)
    requires d.head < |d.entries| && taken <= |incoming| && InOrderBehind(d, incoming[..taken], now, s')
    requires gone <= s.occupancy && d.occupancy == s.occupancy - gone
    ensures s'.head < |s'.entries| == |d.entries| && s'.occupancy == d.occupancy + taken
    ensures forall i: nat :: Live(d, i) ==> Live(s', i)
    ensures forall i: nat | i < |d.entries| :: Age(s', i) == Age(d, i)
    ensures forall i: nat | Live(s', i) && Age(s', i) >= s.occupancy - gone ::
              s'.entries[i] == incoming[Age(s', i) - (s.occupancy - gone)].(eventCycle := now)
  {
  }

  lemma FrontIsPrefix(s: Core, k: nat, n: nat, now: nat, warm: bool, latency: nat, m: Core)
    requires FrontStarted(s, k, n, now, warm, latency, m)
    ensures StartedFirst(s, k, m) && k <= |s.ready|
  {
  }

  lemma StartedAreScheduled(s: Core, numSources: nat, i: nat)
    requires Invariant(s, numSources) && s.head < |s.entries| && Live(s, i)
    ensures !s.entries[i].executed.Idle? ==> s.entries[i].scheduled.Completed?
  {
  }

  /** What stays behind when the oldest entries leave. */
  lemma RetireLeaves(s: Core, gone: nat, a: Core)
    requires s.head < |s.entries| && AfterRetiring(s, gone, a)
    ensures gone <= s.occupancy && a.head < |a.entries| == |s.entries| && a.occupancy == s.occupancy - gone
    ensures forall i: nat | Live(s, i) && Age(s, i) < gone :: s.entries[i].executed.Completed?
    ensures forall i: nat | Live(s, i) && Age(s, i) >= gone ::
              Live(a, i) && Age(a, i) == Age(s, i) - gone && a.entries[i] == s.entries[i]
  {
  }

  lemma SameSize(a: Core, pace: Pace, now: nat, b: Core, c: Core, d: Core, k: nat)
    requires a.head < |a.entries| && CompletedTo(a, a.occupancy, pace.exec, now, b) && StartedFirst(b, k, c)
    requires c.head < |c.entries| && ScheduledTo(c, c.occupancy, now, pace.window, pace.warm, pace.scheduling, d)
    ensures d.head == a.head && d.occupancy == a.occupancy && |d.entries| == |a.entries|
  {
    hide Completing, SameNames, NewlyTo, NamesTo, StagesTo;
  }
}
