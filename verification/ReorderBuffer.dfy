/** The loops of the out-of-order core's register path (src/ooo_cpu.cc) over the circular reorder
    buffer and the ready-to-execute ring, proved against the steps of RegisterWakeup.
 */
module ReorderBuffer {
  import Recency
  import opened RegisterWakeup
  import opened CoreCycle
  import CoreProgress
  import CoreLaws

  /** The index sets of an entry hold at most this many different indices (inc/set.h). */
  const MAX_SIZE: nat := 512

  /** Steps from ring position `from` forward to position `i`. */
  function Offset(from: nat, i: nat, n: nat): (d: nat)
    requires from < n && i < n
    ensures d < n
  {
    if i >= from then i - from else i + n - from
  }

  /** The ring holds the queue from `from` on; every other position holds the marker value `n`. */
  ghost predicate RingHolds(ring: seq<nat>, from: nat, to: nat, queue: seq<nat>) {
    var n := |ring|;
    && from < n && |queue| <= n
    && to == (if from + |queue| < n then from + |queue| else from + |queue| - n)
    && (forall k | 0 <= k < |queue| :: queue[k] < n)
    && (forall i: nat | i < n ::
          ring[i] == if Offset(from, i, n) < |queue| then queue[Offset(from, i, n)] else n)
  }

  /** Instructions leave in the order in which they came: the buffer holds the youngest ones dispatched. */
  ghost predicate InProgramOrder(s: Core, dispatched: seq<nat>, retired: nat)
    requires s.head < |s.entries|
  {
    && |dispatched| == retired + s.occupancy
    && forall i: nat | Live(s, i) :: s.entries[i].instrId == dispatched[retired + Age(s, i)]
  }

  lemma DispatchOrder(s: Core, e: Entry, now: nat, dispatched: seq<nat>, retired: nat)
    requires s.head < |s.entries| && s.occupancy < |s.entries| && InProgramOrder(s, dispatched, retired)
    ensures InProgramOrder(Dispatch(s, e, now), dispatched + [e.instrId], retired)
  {
    DispatchAges(s, e, now);
  }

  lemma RetireOrder(s: Core, empty: Entry, dispatched: seq<nat>, retired: nat)
    requires s.head < |s.entries| && 0 < s.occupancy <= |s.entries| && InProgramOrder(s, dispatched, retired)
    ensures InProgramOrder(Retire(s, empty), dispatched, retired + 1)
  {
    RetireAges(s, empty);
  }

  class RegisterCore {
    const size: nat
    const numSources: nat
    const dispatchWidth: nat
    const schedulerSize: nat
    const execWidth: nat
    const retireWidth: nat
    const schedulingLatency: nat
    const execLatency: nat
    const empty: Entry

    const entry: array<Entry>
    var head: nat
    var tail: nat
    var occupancy: nat
    const ready: array<nat>
    var readyHead: nat
    var readyTail: nat
    var inflight: int
    var now: nat
    var warm: bool

    ghost var queue: seq<nat>
    ghost var dispatched: seq<nat>
    ghost var retired: nat

    ghost function View(): Core
      reads this, entry
    {
      Core(entry[..], head, occupancy, queue, inflight)
    }

    /** The arrays and cursors store the abstract buffer and queue. */
    ghost predicate Stored()
      reads this, entry, ready
    {
      && entry.Length == ready.Length == size && 2 <= size <= MAX_SIZE
      && head < size && occupancy <= size && tail == Tail(View())
      && RingHolds(ready[..], readyHead, readyTail, queue)
      && Blank(empty) && |empty.sources| == |empty.rawChecked| == |empty.indexDependOnMe| == numSources
    }

    ghost predicate Valid()
      reads this, entry, ready
    {
      && Stored()
      && Invariant(View(), numSources)
      && InProgramOrder(View(), dispatched, retired)
    }

    constructor (size: nat, numSources: nat, dispatchWidth: nat, schedulerSize: nat, execWidth: nat,
                 retireWidth: nat, schedulingLatency: nat, execLatency: nat)
      requires 2 <= size <= MAX_SIZE
      ensures Valid() && occupancy == 0 && dispatched == [] && retired == 0
      ensures this.size == size && this.numSources == numSources && fresh(entry) && fresh(ready)
    {
      this.size, this.numSources := size, numSources;
      this.dispatchWidth, this.schedulerSize, this.execWidth := dispatchWidth, schedulerSize, execWidth;
      this.retireWidth, this.schedulingLatency, this.execLatency := retireWidth, schedulingLatency, execLatency;
      var none := Entry(0, 0, Idle, Idle, Idle, 0, seq(numSources, _ => 0), [], seq(numSources, _ => false),
                        false, false, 0, {}, seq(numSources, _ => {}));
      empty := none;
      entry := new Entry[size](_ => none);
      ready := new nat[size](_ => size);
      head, tail, occupancy, readyHead, readyTail, inflight, now, warm := 0, 0, 0, 0, 0, 0, 0, false;
      queue, dispatched, retired := [], [], 0;
      new;
      var s := View();
      assert forall p: nat, c: nat, j: nat :: !Names(s, p, c, j);
      assert Executing(s) == {};
    }

    /** The next position of a cursor. */
    function Wrap(i: nat): nat
      reads this
    {
      if i + 1 == size then 0 else i + 1
    }

    /** Append to the ready-to-execute ring; the position written is free, as the sanity check demands. */
    method PushReady(c: nat)
      requires ready.Length == size && RingHolds(ready[..], readyHead, readyTail, queue)
      requires |queue| < size && c < size
      modifies ready, this`readyTail, this`queue
      ensures RingHolds(ready[..], readyHead, readyTail, queue) && queue == old(queue) + [c]
    {
      assert ready[readyTail] == size;
      ready[readyTail] := c;
      readyTail := Wrap(readyTail);
      queue := queue + [c];
    }

    method PopReady()
      requires ready.Length == size && RingHolds(ready[..], readyHead, readyTail, queue)
      requires queue != []
      modifies ready, this`readyHead, this`queue
      ensures RingHolds(ready[..], readyHead, readyTail, queue) && queue == old(queue)[1..]
    {
      ready[readyHead] := size;
      readyHead := Wrap(readyHead);
      queue := queue[1..];
    }

    // -------------------------------------------------------------- dispatch

    /** One instruction moves from the front end into the buffer. */
    method DispatchOne(e: Entry)
      requires Valid() && occupancy < size && Fresh(e, numSources)
      modifies this`tail, this`occupancy, this`dispatched, entry
      ensures Valid() && View() == Dispatch(old(View()), e, now) && dispatched == old(dispatched) + [e.instrId]
      ensures occupancy == old(occupancy) + 1
    {
      ghost var s := View();
      DispatchKeeps(s, numSources, e, now);
      DispatchOrder(s, e, now, dispatched, retired);
      hide Invariant, InProgramOrder, RingHolds;
      entry[tail] := e.(eventCycle := now);
      tail := if tail + 1 >= size then 0 else tail + 1;
      occupancy := occupancy + 1;
      dispatched := dispatched + [e.instrId];
      assert View() == Dispatch(s, e, now);
    }

    /** dispatch_instruction: as many ready front-end instructions as bandwidth and space allow. */
    method DispatchInstruction(incoming: seq<Entry>) returns (taken: nat)
      requires Valid() && forall k | 0 <= k < |incoming| :: Fresh(incoming[k], numSources)
      modifies this`tail, this`occupancy, this`dispatched, entry
      ensures Valid()
      ensures taken == Min(Min(dispatchWidth, |incoming|), size - old(occupancy))
      ensures occupancy == old(occupancy) + taken && View() == DispatchMany(old(View()), incoming[..taken], now)
      ensures CoreLaws.InOrderBehind(old(View()), incoming[..taken], now, View())
      ensures |dispatched| == |old(dispatched)| + taken && dispatched[..|old(dispatched)|] == old(dispatched)
      ensures forall k | 0 <= k < taken :: dispatched[|old(dispatched)| + k] == incoming[k].instrId
    {
      hide Invariant, InProgramOrder, RingHolds, Fresh, Dispatch;
      ghost var s := View();
      DispatchNone(s, now);
      assert incoming[..0] == [];
      taken := 0;
      while taken < dispatchWidth && taken < |incoming| && occupancy < size
        invariant Valid() && taken <= dispatchWidth && taken <= |incoming|
        invariant occupancy == old(occupancy) + taken && View() == DispatchMany(s, incoming[..taken], now)
        invariant |dispatched| == |old(dispatched)| + taken && dispatched[..|old(dispatched)|] == old(dispatched)
        invariant forall k | 0 <= k < taken :: dispatched[|old(dispatched)| + k] == incoming[k].instrId
      {
        DispatchNext(s, incoming, taken, now);
        DispatchOne(incoming[taken]);
        taken := taken + 1;
      }
      CoreLaws.DispatchesInOrder(s, incoming[..taken], now);
    }

    // -------------------------------------------------------------- schedule

    /** The body of the search loops: the sources of slot `c` against the destinations of slot `i`. */
    method CheckEntry(i: nat, c: nat, ghost s: Core)
      requires Stored() && Shape(s, numSources) && NamesAreYounger(s) && |s.entries| == size
      requires Older(s, i, c) && s.entries[c].scheduled.Idle?
      requires Searching(s, c, Age(s, i), 0, View())
      modifies entry
      ensures Stored() && Searching(s, c, Age(s, i) - 1, 0, View())
    {
      assert View().entries[i].executed == s.entries[i].executed;
      hide NamesAreYounger, RingHolds, Searching;
      if entry[i].executed != Completed {
        for j: nat := 0 to numSources
          invariant Stored()
          invariant Searching(s, c, Age(s, i), j, View())
        {
          RegRawDependency(i, c, j, s);
        }
      }
      EntrySearched(s, numSources, c, i, View());
    }

    /** One source of slot `c`: looked at unless it is unused or already has a producer. */
    method RegRawDependency(i: nat, c: nat, j: nat, ghost s: Core)
      requires Stored() && Shape(s, numSources) && NamesAreYounger(s) && |s.entries| == size
      requires Older(s, i, c) && s.entries[c].scheduled.Idle?
      requires j < numSources && !s.entries[i].executed.Completed?
      requires Searching(s, c, Age(s, i), j, View())
      modifies entry
      ensures Stored() && Searching(s, c, Age(s, i), j + 1, View())
    {
      ghost var m := View();
      ProbeSearches(s, numSources, c, i, j, m);
      assert m.entries[i] == entry[i] && m.entries[c] == entry[c];
      assert |entry[i].indexDependOnMe| == |entry[c].rawChecked| == |entry[c].sources| == numSources;
      hide NamesAreYounger, RingHolds, Searching, Shape, Older, Record;
      if entry[c].sources[j] != 0 && !entry[c].rawChecked[j] {
        var writes := WritesSource(i, entry[c].sources[j]);
        if writes {
          RecordDependency(i, c, j);
        }
      }
      assert View() == Probe(m, i, c, j);
    }

    /** The scan of the older entry's destination registers. */
    method WritesSource(i: nat, source: nat) returns (writes: bool)
      requires i < entry.Length && source != 0
      ensures writes == Writes(entry[i], source)
    {
      var d: nat := 0;
      while d < |entry[i].destinations| && (entry[i].destinations[d] == 0 || entry[i].destinations[d] != source)
        invariant d <= |entry[i].destinations| && source !in entry[i].destinations[..d]
      {
        d := d + 1;
      }
      writes := d < |entry[i].destinations|;
    }

    method RecordDependency(i: nat, c: nat, j: nat)
      requires i < entry.Length && c < entry.Length && i != c
      requires j < |entry[i].indexDependOnMe| && j < |entry[c].rawChecked|
      modifies entry
      ensures View() == Record(old(View()), i, c, j)
    {
      ghost var m := View();
      entry[i] := entry[i].(
        instrsDependOnMe := entry[i].instrsDependOnMe + {c},
        indexDependOnMe := entry[i].indexDependOnMe[j := entry[i].indexDependOnMe[j] + {c}],
        rawProducer := true);
      entry[c] := entry[c].(
        regReady := false,
        numRegDependent := entry[c].numRegDependent + 1,
        rawChecked := entry[c].rawChecked[j := true]);
      assert entry[..] == Record(m, i, c, j).entries;
    }

    /** reg_dependency: walk the older entries from young to old, around the end of the buffer. */
    method RegDependency(c: nat, ghost s: Core)
      requires Stored() && Shape(s, numSources) && NamesAreYounger(s) && |s.entries| == size
      requires head == s.head && occupancy == s.occupancy
      requires Live(s, c) && s.entries[c].scheduled.Idle?
      requires Searching(s, c, Age(s, c) - 1, 0, View())
      modifies entry
      ensures Stored() && Searching(s, c, -1, 0, View())
    {
      hide NamesAreYounger, RingHolds, Searching, Shape;
      var prior: int := c - 1;
      if prior < 0 {
        prior := size - 1;
      }
      if c != head {
        if head <= prior {
          var i := prior;
          while i >= head
            invariant head - 1 <= i <= prior && Stored()
            invariant Searching(s, c, i - head, 0, View())
          {
            CheckEntry(i, c, s);
            i := i - 1;
          }
        } else {
          var i := prior;
          while i >= 0
            invariant -1 <= i <= prior && Stored()
            invariant Searching(s, c, i + size - head, 0, View())
          {
            CheckEntry(i, c, s);
            i := i - 1;
          }
          i := size - 1;
          while i >= head
            invariant head - 1 <= i < size && Stored()
            invariant Searching(s, c, i - head, 0, View())
          {
            CheckEntry(i, c, s);
            i := i - 1;
          }
        }
      }
    }

    /** do_scheduling: find the producers of slot `c`, then queue it when it waits for none. */
    method DoScheduling(c: nat)
      requires Valid() && Live(View(), c) && entry[c].scheduled.Idle?
      modifies entry, ready, this`readyTail, this`queue
      ensures Valid()
      ensures Schedules(old(View()), c, AfterLatency(warm, old(entry[c].eventCycle), now, schedulingLatency), View())
    {
      ghost var s := View();
      ghost var cycle := AfterLatency(warm, entry[c].eventCycle, now, schedulingLatency);
      hide Invariant, RingHolds, InProgramOrder, Searching, Schedules, FinishScheduling;
      SearchProducers(c);
      ghost var m := View();
      ScheduleStep(s, numSources, c, m, cycle, dispatched, retired);
      FinishDoScheduling(c);
    }

    /** The first half of do_scheduling. */
    method SearchProducers(c: nat)
      requires Valid() && Live(View(), c) && entry[c].scheduled.Idle?
      modifies entry
      ensures Stored() && Searching(old(View()), c, -1, 0, View())
    {
      ghost var s := View();
      SearchStarts(s, numSources, c);
      hide RingHolds, InProgramOrder, Searching, ReadyExact, CountsExact, YoungestRecorded, DeadAreBlank;
      entry[c] := entry[c].(regReady := true);
      assert View() == s.(entries := s.entries[c := s.entries[c].(regReady := true)]);
      RegDependency(c, s);
    }

    /** The end of do_scheduling: stage, latency, and the ready ring. */
    method FinishDoScheduling(c: nat)
      requires Stored() && c < size && |queue| < size
      modifies entry, ready, this`readyTail, this`queue
      ensures Stored()
      ensures View() == FinishScheduling(old(View()), c,
                          AfterLatency(warm, old(entry[c].eventCycle), now, schedulingLatency))
    {
      hide RingHolds;
      entry[c] := entry[c].(scheduled := Completed);
      entry[c] := entry[c].(eventCycle := AfterLatency(warm, entry[c].eventCycle, now, schedulingLatency));
      if entry[c].regReady {
        PushReady(c);
      }
      assert View().entries == old(entry[..])[c := entry[c]];
    }

    /** schedule_instruction: in program order from the head, until an entry that is not there yet or the
        scheduler window is full. */
    method ScheduleInstruction()
      requires Valid()
      modifies entry, ready, this`readyTail, this`queue
      ensures Valid() && ScheduledTo(old(View()), old(occupancy), now, schedulerSize, warm, schedulingLatency, View())
      ensures CoreLaws.WindowScheduled(old(View()), now, schedulerSize, warm, schedulingLatency, View())
    {
      hide Invariant, RingHolds, InProgramOrder, Schedules, ScheduledTo, Stops, AfterLatency;
      ghost var s := View();
      ScheduledNone(s, now, schedulerSize, warm, schedulingLatency);
      var searched: nat := 0;
      var i := head;
      var count: nat := 0;
      while count < occupancy
        invariant Valid() && ScheduledTo(s, count, now, schedulerSize, warm, schedulingLatency, View())
        invariant head == s.head && occupancy == s.occupancy
        invariant count <= occupancy && 0 <= i < size && (count < occupancy ==> i == SlotAt(s, count))
        invariant searched == IdleBefore(s, count)
        invariant forall a: nat | a < count :: !Stops(s, a, now, schedulerSize)
      {
        ScheduledHere(s, count, now, schedulerSize, warm, schedulingLatency, View());
        StopsHere(s, count, now, schedulerSize);
        if entry[i].fetched != Completed || entry[i].eventCycle > now || searched >= schedulerSize {
          ScheduledRest(s, count, now, schedulerSize, warm, schedulingLatency, View());
          CoreLaws.SchedulesWindow(s, now, schedulerSize, warm, schedulingLatency, View());
          return;
        }
        ScheduleSlot(i, s, count);
        if entry[i].executed == Idle {
          searched := searched + 1;
        }
        i := Wrap(i);
        count := count + 1;
      }
      ScheduledRest(s, count, now, schedulerSize, warm, schedulingLatency, View());
      CoreLaws.SchedulesWindow(s, now, schedulerSize, warm, schedulingLatency, View());
    }

    /** One slot that the walk reaches. */
    method ScheduleSlot(i: nat, ghost s: Core, ghost count: nat)
      requires Valid() && s.head < |s.entries| == size && count < s.occupancy <= size && i == SlotAt(s, count)
      requires head == s.head && occupancy == s.occupancy
      requires ScheduledTo(s, count, now, schedulerSize, warm, schedulingLatency, View())
      requires forall a: nat | a <= count :: !Stops(s, a, now, schedulerSize)
      modifies entry, ready, this`readyTail, this`queue
      ensures Valid() && ScheduledTo(s, count + 1, now, schedulerSize, warm, schedulingLatency, View())
      ensures entry[i].executed == s.entries[i].executed
    {
      hide Invariant, RingHolds, InProgramOrder, Schedules, ScheduledTo, Stops, AfterLatency;
      ghost var next := count + 1;
      ghost var m := View();
      ScheduledHere(s, count, now, schedulerSize, warm, schedulingLatency, m);
      if entry[i].scheduled == Idle {
        DoScheduling(i);
      }
      ScheduledNext(s, count, next, now, schedulerSize, warm, schedulingLatency, m, i, View());
      ScheduledProgram(s, next, now, schedulerSize, warm, schedulingLatency, View());
    }

    // -------------------------------------------------------------- execute

    /** do_execution of the entry at the head of the ready ring. */
    method DoExecution()
      requires Valid() && queue != []
      modifies entry, ready, this`readyHead, this`queue, this`inflight
      ensures Valid() && old(queue[0]) < size
      ensures View() == Start(old(View()), AfterLatency(warm, old(entry[queue[0]].eventCycle), now, execLatency))
      ensures SameProgram(old(View()), View()) && queue == old(queue)[1..]
    {
      ghost var s := View();
      RingFront(ready[..], readyHead, readyTail, queue);
      var c := ready[readyHead];
      ghost var cycle := AfterLatency(warm, entry[c].eventCycle, now, execLatency);
      StartKeeps(s, numSources, cycle);
      StartOrder(s, cycle, dispatched, retired);
      hide Invariant, RingHolds, InProgramOrder;
      entry[c] := entry[c].(executed := Inflight);
      entry[c] := entry[c].(eventCycle := AfterLatency(warm, entry[c].eventCycle, now, execLatency));
      inflight := inflight + 1;
      PopReady();
      assert View() == Start(s, cycle);
    }

    /** execute_instruction: start entries from the front of the ready queue, until one may not start yet. */
    method ExecuteInstruction() returns (issued: nat)
      requires Valid()
      modifies entry, ready, this`readyHead, this`queue, this`inflight
      ensures Valid() && issued <= execWidth && issued <= |old(queue)| && queue == old(queue)[issued..]
      ensures View() == StartMany(old(View()), Min(execWidth, size - 1), now, warm, execLatency)
      ensures CoreLaws.FrontStarted(old(View()), issued, Min(execWidth, size - 1), now, warm, execLatency, View())
    {
      hide Invariant, InProgramOrder, RingHolds, StartOne, Start, AfterLatency, CoreLaws.FrontStarted;
      ghost var s := View();
      issued := 0;
      if head == tail && occupancy == 0 {
        NothingReady(s, numSources);
        StartNext(s, 0, now, warm, execLatency);
        StartStuck(s, 0, Min(execWidth, size - 1), now, warm, execLatency);
        StartedAre(s, numSources, Min(execWidth, size - 1), now, warm, execLatency, 0);
        return;
      }
      var numIteration: nat := 0;
      ghost var stuck := false;
      hide Stored;
      while issued < execWidth
        invariant Valid() && issued <= execWidth && issued <= |old(queue)| && queue == old(queue)[issued..]
        invariant View() == StartMany(s, issued, now, warm, execLatency)
        invariant issued <= numIteration < size - 1 && (stuck || issued == numIteration)
        invariant stuck ==> StartOne(View(), now, warm, execLatency) == View()
        decreases size - numIteration
      {
        StartNext(s, issued, now, warm, execLatency);
        var started, none := StartFront();
        if none {
          stuck := true;
          break;
        }
        if started {
          issued := issued + 1;
        } else {
          stuck := true;
        }
        numIteration := numIteration + 1;
        if numIteration == size - 1 {
          break;
        }
      }
      if issued != Min(execWidth, size - 1) {
        StartStuck(s, issued, Min(execWidth, size - 1), now, warm, execLatency);
      }
      StartedAre(s, numSources, Min(execWidth, size - 1), now, warm, execLatency, issued);
    }

    /** The front of the ready queue: it starts if its time has come; `none` if there is none. */
    method StartFront() returns (started: bool, none: bool)
      requires Valid()
      modifies entry, ready, this`readyHead, this`queue, this`inflight
      ensures Valid() && View() == StartOne(old(View()), now, warm, execLatency)
      ensures if started then !none && old(queue) != [] && queue == old(queue)[1..] else View() == old(View())
    {
      hide Invariant, InProgramOrder, RingHolds, Start, AfterLatency;
      RingFront(ready[..], readyHead, readyTail, queue);
      if ready[readyHead] >= size {
        return false, true;
      }
      var c := ready[readyHead];
      if entry[c].eventCycle <= now {
        DoExecution();
        return true, false;
      }
      return false, false;
    }

    // -------------------------------------------------------------- complete

    /** reg_RAW_release: the set of waiters is listed, as expand() of inc/set.h does (FastSet), and every waiter
        is released from each source. */
    method RegRawRelease(p: nat, ghost s: Core)
      requires Stored() && Invariant(s, numSources) && Live(s, p) && s.entries[p].executed.Inflight?
      requires |s.entries| == size && Releasing(s, p, numSources, 0, 0, View())
      modifies entry, ready, this`readyTail, this`queue
      ensures Stored() && Completes(s, p, View())
    {
      hide Invariant, RingHolds, Releasing, Completes, Blank, Shape, ReleaseFrame, Recency.InOrder;
      ReleasingSets(s, p, numSources, 0, 0, View());
      ShapeOf(s, numSources);
      var waiters := Recency.InOrder(entry[p].instrsDependOnMe, size);
      ghost var from: nat := 0;
      for t: nat := 0 to |waiters|
        invariant Stored() && Releasing(s, p, numSources, from, 0, View())
        invariant from == if t == 0 then 0 else waiters[t - 1] + 1
        invariant waiters == Recency.InOrder(s.entries[p].instrsDependOnMe, size)
      {
        var i := waiters[t];
        WaiterNext(s, p, size, waiters, t, from);
        ReleaseSkips(s, numSources, p, from, i, View());
        for j: nat := 0 to numSources
          invariant Stored() && Releasing(s, p, numSources, i, j, View())
        {
          ReleaseSource(p, i, j, s);
        }
        ReleaseMovesOn(s, numSources, p, i, View());
        from := i + 1;
      }
      WaiterNext(s, p, size, waiters, |waiters|, from);
      ReleaseSkips(s, numSources, p, from, size, View());
      ReleaseEnds(s, numSources, p, size, View());
    }

    /** The innermost body: one source of one waiter. */
    method ReleaseSource(p: nat, i: nat, j: nat, ghost s: Core)
      requires Stored() && Invariant(s, numSources) && Live(s, p) && s.entries[p].executed.Inflight?
      requires |s.entries| == size && i < size && i in s.entries[p].instrsDependOnMe && j < numSources
      requires Releasing(s, p, numSources, i, j, View())
      modifies entry, ready, this`readyTail, this`queue
      ensures Stored() && Releasing(s, p, numSources, i, j + 1, View())
      ensures entry[p].instrsDependOnMe == old(entry[p].instrsDependOnMe)
    {
      ghost var m := View();
      WaitersPending(s, numSources, p);
      ReleaseStep(s, numSources, p, i, j, m);
      assert m.entries[p] == entry[p] && entry[p].indexDependOnMe == s.entries[p].indexDependOnMe;
      if i in entry[p].indexDependOnMe[j] {
        RoomToWake(s, numSources, p, i, j, m);
        hide Invariant, RingHolds, Releasing, Pending;
        ReleaseWaiter(i);
      }
    }

    method ReleaseWaiter(i: nat)
      requires Stored() && i < size && |queue| < size
      modifies entry, ready, this`readyTail, this`queue
      ensures Stored() && View() == Release(old(View()), i)
      ensures forall k | 0 <= k < size :: entry[k].instrsDependOnMe == old(entry[k].instrsDependOnMe)
    {
      hide RingHolds;
      entry[i] := entry[i].(numRegDependent := entry[i].numRegDependent - 1);
      if entry[i].numRegDependent == 0 {
        entry[i] := entry[i].(regReady := true);
        entry[i] := entry[i].(scheduled := Completed);
        PushReady(i);
      }
      assert View().entries == old(entry[..])[i := entry[i]];
    }

    /** complete_execution of a slot whose latency has passed. */
    method CompleteExecution(p: nat) returns (done: nat)
      requires Valid() && Live(View(), p)
      modifies entry, ready, this`readyTail, this`queue, this`inflight
      ensures Valid()
      ensures if old(entry[p].executed.Inflight? && entry[p].eventCycle <= now)
              then done == 1 && Completes(old(View()), p, View())
              else done == 0 && View() == old(View())
    {
      ghost var s := View();
      done := 0;
      if entry[p].executed == Inflight && entry[p].eventCycle <= now {
        ReleaseStarts(s, numSources, p);
        SetsOf(s, numSources, p);
        ShapeOf(s, numSources);
        entry[p] := entry[p].(executed := Completed);
        inflight := inflight - 1;
        assert View() == Finish(s, p);
        hide Invariant, RingHolds, Releasing, InProgramOrder;
        if entry[p].rawProducer {
          RegRawRelease(p, s);
        } else {
          ReleaseEnds(s, numSources, p, 0, View());
        }
        CompleteKeeps(s, numSources, p, View());
        CompleteOrder(s, p, View(), dispatched, retired);
        done := 1;
      }
    }

    /** complete_inflight_instruction: from the head on, up to `execWidth` completions. */
    method CompleteInflightInstruction() returns (done: nat)
      requires Valid()
      modifies entry, ready, this`readyTail, this`queue, this`inflight
      ensures Valid() && inflight == old(inflight) - done
      ensures CompletedTo(old(View()), old(occupancy), execWidth, now, View())
      ensures CoreLaws.DueCompleted(old(View()), execWidth, now, View())
      ensures done == Min(execWidth, DueBefore(old(View()), old(occupancy), now))
    {
      hide Invariant, RingHolds, InProgramOrder, Completes, CompletedTo;
      ghost var s := View();
      CompletedNone(s, execWidth, now);
      DueAt(s, 0, now);
      done := 0;
      var count: nat := 0;
      if inflight > 0 {
        var i := head;
        while count < occupancy
          invariant Valid() && done <= execWidth && inflight == old(inflight) - done
          invariant head == s.head < |s.entries| == size && count <= occupancy == s.occupancy <= size
          invariant CompletedTo(s, count, execWidth, now, View()) && done == DueBefore(s, count, now)
          invariant 0 <= i < size && (count < occupancy ==> i == SlotAt(s, count))
        {
          if done >= execWidth {
            break;
          }
          var one := CompleteSlot(i, s, count);
          done := done + one;
          i := Wrap(i);
          count := count + 1;
        }
      } else {
        NoneExecuting(s, numSources);
      }
      CompletedRest(s, count, execWidth, now, View());
      CoreLaws.CompletesExactly(s, execWidth, now, View());
    }

    /** One slot of the walk. */
    method CompleteSlot(i: nat, ghost s: Core, ghost count: nat) returns (one: nat)
      requires Valid() && s.head < |s.entries| == size && count < s.occupancy <= size && i == SlotAt(s, count)
      requires head == s.head && occupancy == s.occupancy && DueBefore(s, count, now) < execWidth
      requires CompletedTo(s, count, execWidth, now, View())
      modifies entry, ready, this`readyTail, this`queue, this`inflight
      ensures Valid() && inflight == old(inflight) - one && CompletedTo(s, count + 1, execWidth, now, View())
      ensures DueBefore(s, count + 1, now) == DueBefore(s, count, now) + one && one <= 1
    {
      hide Invariant, RingHolds, InProgramOrder, Completes, CompletedTo;
      ghost var next := count + 1;
      ghost var m := View();
      HereLive(s, i, m);
      one := CompleteExecution(i);
      if one == 1 {
        CompletesFrame(m, i, View());
      }
      CompletedNext(s, count, next, execWidth, now, m, i, View());
    }

    // -------------------------------------------------------------- retire

    method RetireOne()
      requires Valid() && occupancy > 0 && entry[head].executed.Completed?
      modifies entry, this`head, this`occupancy, this`retired
      ensures Valid() && View() == Retire(old(View()), empty) && retired == old(retired) + 1
    {
      hide Invariant, RingHolds, InProgramOrder, Blank;
      ghost var s := View();
      RetireKeeps(s, numSources, empty);
      RetireOrder(s, empty, dispatched, retired);
      entry[head] := empty;
      head := Wrap(head);
      occupancy := occupancy - 1;
      retired := retired + 1;
      assert View() == Retire(s, empty);
    }

    /** retire_rob: the next instructions of the program, in order, as long as they are completed. */
    method RetireRob() returns (count: nat)
      requires Valid()
      modifies entry, this`head, this`occupancy, this`retired
      ensures Valid() && Retires(old(View()), count, retireWidth, now, View())
      ensures CoreLaws.DoneRetired(old(View()), count, retireWidth, now)
      ensures retired == old(retired) + count
    {
      ghost var s := View();
      hide Invariant, RingHolds, InProgramOrder, AfterRetiring, CoreLaws.DoneRetired;
      count := 0;
      HeadStage(s, numSources);
      NothingRetired(s);
      if entry[head].executed != Completed || entry[head].eventCycle > now {
        CoreLaws.RetiresExactly(s, count, retireWidth, now, View());
        return;
      }
      while count < retireWidth
        invariant Valid() && count <= retireWidth && AfterRetiring(s, count, View())
        invariant s.entries[s.head].eventCycle <= now
        invariant retired == old(retired) + count
      {
        HeadStage(View(), numSources);
        if entry[head].ip == 0 {
          CoreLaws.RetiresExactly(s, count, retireWidth, now, View());
          return;
        }
        if entry[head].executed != Completed {
          CoreLaws.RetiresExactly(s, count, retireWidth, now, View());
          return;
        }
        OneMoreRetired(s, count, View(), empty);
        RetireOne();
        count := count + 1;
      }
      CoreLaws.RetiresExactly(s, count, retireWidth, now, View());
    }

    // -------------------------------------------------------------- one cycle

    function Pace(): Pace
      reads this
    {
      CoreCycle.Pace(dispatchWidth, schedulerSize, execWidth, retireWidth, schedulingLatency, execLatency, warm)
    }

    /** The first half of a cycle: retire, complete, execute. */
    method FinishStages() returns (gone: nat, ghost a: Core, ghost b: Core)
      requires Valid()
      modifies entry, ready, this`head, this`occupancy, this`retired, this`readyHead, this`readyTail, this`queue,
               this`inflight
      ensures Valid() && retired == old(retired) + gone
      ensures Retires(old(View()), gone, retireWidth, now, a) && Invariant(a, numSources)
      ensures a.head < |a.entries| && CompletedTo(a, a.occupancy, execWidth, now, b) && Invariant(b, numSources)
      ensures |b.entries| == size >= 2 && View() == StartMany(b, Min(execWidth, size - 1), now, warm, execLatency)
    {
      hide Invariant, RingHolds, InProgramOrder, Retires, CompletedTo, StartMany, Tail;
      gone := RetireRob();
      a := View();
      var done := CompleteInflightInstruction();
      b := View();
      var issued := ExecuteInstruction();
    }

    /** One cycle, in the order of the simulation loop: retire, complete, execute, schedule, dispatch. */
    method Cycle(incoming: seq<Entry>) returns (gone: nat, taken: nat)
      requires Valid() && forall k | 0 <= k < |incoming| :: Fresh(incoming[k], numSources)
      modifies this, entry, ready
      ensures Valid() && now == old(now) + 1 && Pace() == old(Pace()) && taken <= |incoming|
      ensures Cycled(Pace(), numSources, now, old(View()), gone, incoming, taken, View())
      ensures CoreLaws.OneStepEach(old(View()), gone, incoming, taken, now, View())
      ensures retired == old(retired) + gone
      ensures |dispatched| == |old(dispatched)| + taken && dispatched[..|old(dispatched)|] == old(dispatched)
      ensures forall k | 0 <= k < taken :: dispatched[|old(dispatched)| + k] == incoming[k].instrId
    {
      hide Invariant, RingHolds, InProgramOrder, Fresh, Retires;
      hide CompletedTo, ScheduledTo, StartMany, DispatchMany, Cycled, Tail, CoreLaws.OneStepEach;
      ghost var s := View();
      now := now + 1;
      ghost var a, b;
      gone, a, b := FinishStages();
      ghost var c := View();
      ScheduleInstruction();
      ghost var d := View();
      taken := DispatchInstruction(incoming);
      OneCycle(Pace(), numSources, now, s, gone, a, b, c, d, incoming, taken, View());
      CoreLaws.OneStepACycle(Pace(), numSources, now, s, gone, incoming, taken, View());
    }

    /** What holds between any two steps of any run. */
    lemma Safety()
      requires Valid()
      ensures forall p: nat, c: nat, j: nat ::
                YoungestWriter(View(), p, c, j) && !entry[c].executed.Idle? ==> entry[p].executed.Completed?
      ensures occupancy > 0 ==> entry[head].numRegDependent == 0
      ensures inflight == |Executing(View())|
      ensures forall c: nat | Live(View(), c) :: entry[c].numRegDependent == |Pending(View(), c)|
    {
      var s := View();
      forall p: nat, c: nat, j: nat | YoungestWriter(s, p, c, j) && !s.entries[c].executed.Idle?
        ensures s.entries[p].executed.Completed?
      {
        DependencesRespected(s, numSources, p, c, j);
      }
      if occupancy > 0 {
        HeadNeverWaits(s, numSources);
      }
    }
  }

  lemma OneCycle(pace: Pace, numSources: nat, now: nat, s: Core, gone: nat, a: Core, b: Core, c: Core, d: Core,
                 incoming: seq<Entry>, taken: nat, s': Core)
    requires Stages(pace, now, s, gone, a, b, c, d, incoming, taken, s')
    requires Invariant(s, numSources) && Invariant(a, numSources) && Invariant(b, numSources)
    requires Invariant(c, numSources) && Invariant(d, numSources) && Invariant(s', numSources)
    ensures Cycled(pace, numSources, now, s, gone, incoming, taken, s')
  {
    hide Invariant, Stages;
  }

  lemma NothingReady(s: Core, numSources: nat)
    requires Invariant(s, numSources) && s.occupancy == 0
    ensures s.ready == []
  {
    SomebodyIn(s.ready);
    ReadyLive(s, numSources);
  }

  lemma ReadyLive(s: Core, numSources: nat)
    requires Invariant(s, numSources)
    ensures forall c: nat | c in s.ready :: s.occupancy > 0
  {
    assert forall c: nat | c in s.ready :: Live(s, c);
  }

  lemma SomebodyIn(q: seq<nat>)
    ensures q == [] || exists c: nat :: c in q
  {
    if q != [] {
      assert q[0] in q;
    }
  }

  lemma DispatchNone(s: Core, now: nat)
    requires s.head < |s.entries|
    ensures DispatchMany(s, [], now) == s
  {
  }

  lemma DispatchNext(s: Core, es: seq<Entry>, k: nat, now: nat)
    requires s.head < |s.entries| && k < |es|
    requires var m := DispatchMany(s, es[..k], now); m.head < |m.entries| && m.occupancy < |m.entries|
    ensures DispatchMany(s, es[..k + 1], now) == Dispatch(DispatchMany(s, es[..k], now), es[k], now)
  {
    assert es[..k + 1][..k] == es[..k];
  }

  lemma StartNext(s: Core, n: nat, now: nat, warm: bool, latency: nat)
    ensures var m := StartMany(s, n, now, warm, latency);
            && StartMany(s, n + 1, now, warm, latency) == StartOne(m, now, warm, latency)
            && StartOne(m, now, warm, latency)
               == if m.ready != [] && m.ready[0] < |m.entries| && m.entries[m.ready[0]].eventCycle <= now
                  then Start(m, AfterLatency(warm, m.entries[m.ready[0]].eventCycle, now, latency)) else m
  {
  }

  /** The started entries are the ones that left the front of the queue. */
  lemma StartedAre(s: Core, numSources: nat, n: nat, now: nat, warm: bool, latency: nat, issued: nat)
    requires Invariant(s, numSources) && issued <= |s.ready|
    requires StartMany(s, n, now, warm, latency).ready == s.ready[issued..]
    ensures CoreLaws.FrontStarted(s, issued, n, now, warm, latency, StartMany(s, n, now, warm, latency))
  {
    CoreProgress.ReadyIdle(s, numSources);
    var k := CoreLaws.StartsExactly(s, n, now, warm, latency);
    hide Invariant, StartMany;
    assert |s.ready[k..]| == |s.ready[issued..]|;
  }

  lemma DueAt(s: Core, a: nat, now: nat)
    requires s.head < |s.entries| && a <= |s.entries|
    ensures DueBefore(s, a, now)
         == if a == 0 then 0 else DueBefore(s, a - 1, now) + (if Due(s.entries[SlotAt(s, a - 1)], now) then 1 else 0)
  {
  }

  lemma HereLive(s: Core, i: nat, m: Core)
    requires s.head < |s.entries| && i < |s.entries| && Age(s, i) < s.occupancy
    requires m.head == s.head && m.occupancy == s.occupancy && |m.entries| == |s.entries|
    ensures Live(m, i)
  {
  }

  lemma NoneExecuting(s: Core, numSources: nat)
    requires Invariant(s, numSources) && s.inflight <= 0
    ensures Executing(s) == {}
  {
  }

  /** The entry that a walk is about to look at is as it was. */
  lemma ScheduledHere(s: Core, count: nat, now: nat, window: nat, warm: bool, latency: nat, m: Core)
    requires s.head < |s.entries| && count < s.occupancy <= |s.entries|
    requires ScheduledTo(s, count, now, window, warm, latency, m)
    ensures var i := SlotAt(s, count);
            && |m.entries| == |s.entries| && m.head == s.head && m.occupancy == s.occupancy
            && m.entries[i].fetched == s.entries[i].fetched && m.entries[i].executed == s.entries[i].executed
            && m.entries[i].scheduled == s.entries[i].scheduled && m.entries[i].eventCycle == s.entries[i].eventCycle
            && Live(m, i)
  {
    hide NamesTo, Scheduling;
  }

  lemma ScheduledProgram(s: Core, count: nat, now: nat, window: nat, warm: bool, latency: nat, m: Core)
    requires s.head < |s.entries| && ScheduledTo(s, count, now, window, warm, latency, m)
    ensures SameProgram(s, m)
    ensures forall i: nat | i < |s.entries| :: m.entries[i].executed == s.entries[i].executed
  {
    hide NamesTo, Scheduling;
  }

  lemma StopsHere(s: Core, a: nat, now: nat, window: nat)
    requires s.head < |s.entries| && a < |s.entries|
    ensures var e := s.entries[SlotAt(s, a)];
            Stops(s, a, now, window) <==> !e.fetched.Completed? || e.eventCycle > now || IdleBefore(s, a) >= window
  {
  }

  lemma OneMoreRetired(s: Core, count: nat, m: Core, empty: Entry)
    requires s.head < |s.entries| && AfterRetiring(s, count, m) && m.head < |m.entries|
    requires m.occupancy > 0 && m.entries[m.head].executed.Completed?
    ensures AfterRetiring(s, count + 1, Retire(m, empty))
  {
    assert Live(s, m.head) && Age(s, m.head) == count;
  }

  /** The slots from the last waiter up to the next one, or to the end, do not wait. */
  lemma WaiterNext(s: Core, p: nat, size: nat, waiters: seq<nat>, t: nat, from: nat)
    requires p < |s.entries| && waiters == Recency.InOrder(s.entries[p].instrsDependOnMe, size) && t <= |waiters|
    requires from == if t == 0 then 0 else waiters[t - 1] + 1
    ensures var to := if t < |waiters| then waiters[t] else size;
            && from <= to <= size && (t < |waiters| ==> to < size && to in s.entries[p].instrsDependOnMe)
            && forall x: nat | from <= x < to :: x !in s.entries[p].instrsDependOnMe
  {
    var members := s.entries[p].instrsDependOnMe;
    Recency.OrderIsRising(members, size);
    hide Recency.InOrder;
    var to := if t < |waiters| then waiters[t] else size;
    forall x: nat | from <= x < to ensures x !in members {
      Recency.OrderGaps(members, size, t, x);
    }
  }

  lemma ReleasingSets(s: Core, p: nat, numSources: nat, i: nat, j: nat, m: Core)
    requires p < |s.entries| && Releasing(s, p, numSources, i, j, m)
    ensures |m.entries| == |s.entries| && m.entries[p].instrsDependOnMe == s.entries[p].instrsDependOnMe
    ensures m.entries[p].indexDependOnMe == s.entries[p].indexDependOnMe
  {
  }

  lemma ShapeOf(s: Core, numSources: nat)
    requires Invariant(s, numSources)
    ensures Shape(s, numSources)
  {
  }

  lemma SetsOf(s: Core, numSources: nat, p: nat)
    requires Invariant(s, numSources) && p < |s.entries|
    ensures s.entries[p].rawProducer == (s.entries[p].instrsDependOnMe != {})
  {
  }

  lemma HeadStage(s: Core, numSources: nat)
    requires Invariant(s, numSources)
    ensures s.head < |s.entries|
    ensures s.entries[s.head].executed.Completed? ==> s.occupancy > 0 && s.entries[s.head].ip != 0
  {
    assert !Live(s, s.head) ==> Blank(s.entries[s.head]);
  }

  lemma CompleteOrder(s: Core, p: nat, s': Core, dispatched: seq<nat>, retired: nat)
    requires s.head < |s.entries| && p < |s.entries| && Completes(s, p, s') && InProgramOrder(s, dispatched, retired)
    ensures InProgramOrder(s', dispatched, retired)
  {
    SameProgramSameWriters(s, s');
  }

  lemma CompletesFrame(s: Core, p: nat, s': Core)
    requires s.head < |s.entries| && p < |s.entries| && Completes(s, p, s')
    ensures SameProgram(s, s') && s'.inflight == s.inflight - 1
  {
  }

  lemma RingFront(ring: seq<nat>, from: nat, to: nat, queue: seq<nat>)
    requires RingHolds(ring, from, to, queue)
    ensures from < |ring| && (ring[from] < |ring| <==> queue != []) && (queue != [] ==> ring[from] == queue[0])
  {
  }

  lemma NotQueued(s: Core, numSources: nat, c: nat)
    requires Invariant(s, numSources) && Live(s, c) && s.entries[c].scheduled.Idle?
    ensures |s.ready| < |s.entries|
  {
    assert c !in s.ready;
    ReadyHasRoom(s, numSources, c);
  }

  lemma ScheduleStep(s: Core, numSources: nat, c: nat, m: Core, cycle: nat, dispatched: seq<nat>, retired: nat)
    requires Invariant(s, numSources) && Live(s, c) && s.entries[c].scheduled.Idle?
    requires Searching(s, c, -1, 0, m) && InProgramOrder(s, dispatched, retired)
    ensures var s' := FinishScheduling(m, c, cycle);
            && Invariant(s', numSources) && InProgramOrder(s', dispatched, retired) && Schedules(s, c, cycle, s')
    ensures |m.ready| < |m.entries| && m.entries[c].eventCycle == s.entries[c].eventCycle
  {
    NotQueued(s, numSources, c);
    ScheduleKeeps(s, numSources, c, m, cycle);
    FinishOrder(s, c, m, cycle, dispatched, retired);
    hide Invariant, InProgramOrder, SetsAgree, CheckedExact;
  }

  lemma FinishOrder(s: Core, c: nat, m: Core, cycle: nat, dispatched: seq<nat>, retired: nat)
    requires s.head < |s.entries| && Live(s, c) && Searching(s, c, -1, 0, m)
    requires InProgramOrder(s, dispatched, retired)
    ensures InProgramOrder(FinishScheduling(m, c, cycle), dispatched, retired)
  {
    SameProgramSameWriters(s, m);
  }

  lemma StartOrder(s: Core, cycle: nat, dispatched: seq<nat>, retired: nat)
    requires s.head < |s.entries| && s.ready != [] && s.ready[0] < |s.entries| && InProgramOrder(s, dispatched, retired)
    ensures InProgramOrder(Start(s, cycle), dispatched, retired) && SameProgram(s, Start(s, cycle))
  {
  }
}
