/** Register wake-up in the out-of-order core (src/ooo_cpu.cc), for instructions without memory
    operands: dispatch into the circular reorder buffer, RAW dependence detection, the
    ready-to-execute ring, completion with wake-up, and in-order retirement.

    This module holds the buffer as a value and what every step keeps; the class that runs the
    loops is in ReorderBuffer.dfy.
 */
module RegisterWakeup {
  import Recency

  /** The values 0, INFLIGHT and COMPLETED of a pipeline stage. */
  datatype Stage = Idle | Inflight | Completed

  /** A reorder buffer entry. The two kinds of dependence sets hold buffer indices. */
  datatype Entry = Entry(
    instrId: nat,
    ip: nat,
    fetched: Stage,
    scheduled: Stage,
    executed: Stage,
    eventCycle: nat,
    sources: seq<nat>,
    destinations: seq<nat>,
    rawChecked: seq<bool>,
    regReady: bool,
    rawProducer: bool,
    numRegDependent: int,
    instrsDependOnMe: set<nat>,
    indexDependOnMe: seq<set<nat>>)

  /** The buffer, the ready-to-execute queue in order, and the count of executing entries. */
  datatype Core = Core(entries: seq<Entry>, head: nat, occupancy: nat, ready: seq<nat>, inflight: int)

  /** How many older entries there are in the buffer when slot `i` is in use. */
  function Age(s: Core, i: nat): (a: nat)
    requires s.head < |s.entries| && i < |s.entries|
    ensures a < |s.entries|
  {
    if i >= s.head then i - s.head else i + |s.entries| - s.head
  }

  ghost predicate Shape(s: Core, numSources: nat) {
    && s.head < |s.entries| && s.occupancy <= |s.entries|
    && forall i | 0 <= i < |s.entries| ::
         |s.entries[i].sources| == |s.entries[i].rawChecked| == |s.entries[i].indexDependOnMe| == numSources
  }

  predicate Live(s: Core, i: nat)
    requires s.head < |s.entries|
  {
    i < |s.entries| && Age(s, i) < s.occupancy
  }

  predicate Older(s: Core, p: nat, c: nat)
    requires s.head < |s.entries|
  {
    Live(s, p) && Live(s, c) && Age(s, p) < Age(s, c)
  }

  /** Entry `p` holds slot `c` back: it is recorded as the producer of source `j` of `c`. */
  predicate Names(s: Core, p: nat, c: nat, j: nat) {
    p < |s.entries| && j < |s.entries[p].indexDependOnMe| && c in s.entries[p].indexDependOnMe[j]
  }

  predicate Writes(e: Entry, reg: nat) {
    reg != 0 && reg in e.destinations
  }

  /** `p` is the youngest entry older than `c` that writes source `j` of `c`. */
  ghost predicate YoungestWriter(s: Core, p: nat, c: nat, j: nat)
    requires s.head < |s.entries|
  {
    && Older(s, p, c) && j < |s.entries[c].sources| && Writes(s.entries[p], s.entries[c].sources[j])
    && forall q: nat | Older(s, q, c) && Age(s, p) < Age(s, q) :: !Writes(s.entries[q], s.entries[c].sources[j])
  }

  /** `p` is the youngest uncompleted entry older than `c` that writes source `j` of `c`. */
  ghost predicate Produces(s: Core, p: nat, c: nat, j: nat)
    requires s.head < |s.entries|
  {
    && Older(s, p, c) && j < |s.entries[c].sources|
    && !s.entries[p].executed.Completed? && Writes(s.entries[p], s.entries[c].sources[j])
    && forall q: nat | Older(s, q, c) && Age(s, p) < Age(s, q) && !s.entries[q].executed.Completed? ::
         !Writes(s.entries[q], s.entries[c].sources[j])
  }

  /** The (uncompleted producer, source) pairs that name `c`. */
  ghost function Pending(s: Core, c: nat): set<(nat, nat)> {
    set p: nat, j: nat | p < |s.entries| && j < |s.entries[p].indexDependOnMe|
      && !s.entries[p].executed.Completed? && c in s.entries[p].indexDependOnMe[j] :: (p, j)
  }

  ghost predicate Blank(e: Entry) {
    && e.ip == 0 && e.scheduled.Idle? && e.executed.Idle?
    && e.instrsDependOnMe == {} && !e.rawProducer && e.numRegDependent == 0
    && (forall j | 0 <= j < |e.indexDependOnMe| :: e.indexDependOnMe[j] == {})
    && (forall j | 0 <= j < |e.rawChecked| :: !e.rawChecked[j])
  }

  /** An instruction as the front end hands it over: not yet looked at by the core. */
  ghost predicate Fresh(e: Entry, numSources: nat) {
    && e.ip != 0 && Blank(e.(ip := 0))
    && |e.sources| == |e.rawChecked| == |e.indexDependOnMe| == numSources
  }

  // ---------------------------------------------------------------- what every step keeps

  ghost predicate DeadAreBlank(s: Core)
    requires s.head < |s.entries|
  {
    && (forall i: nat | i < |s.entries| && !Live(s, i) :: Blank(s.entries[i]))
    && (forall i: nat | Live(s, i) :: s.entries[i].ip != 0)
  }

  /** The two kinds of dependence sets name the same slots. */
  ghost predicate SetsAgree(m: Core) {
    && (forall p: nat, x: nat, j: nat | Names(m, p, x, j) :: x in m.entries[p].instrsDependOnMe)
    && (forall p | 0 <= p < |m.entries| :: m.entries[p].rawProducer == (m.entries[p].instrsDependOnMe != {}))
    && (forall p: nat, x: nat | p < |m.entries| && x in m.entries[p].instrsDependOnMe ::
          exists j: nat :: Names(m, p, x, j))
  }

  /** Recorded indices never go stale: they name live, scheduled, strictly younger entries. */
  ghost predicate NamesAreYounger(s: Core)
    requires s.head < |s.entries|
  {
    && (forall p: nat, c: nat, j: nat | Names(s, p, c, j) :: Older(s, p, c) && s.entries[c].scheduled.Completed?)
    && SetsAgree(s)
  }

  ghost predicate CountsExact(s: Core)
    requires s.head < |s.entries|
  {
    forall c: nat | Live(s, c) ::
      && s.entries[c].numRegDependent == |Pending(s, c)|
      && (s.entries[c].scheduled.Completed? ==> s.entries[c].regReady == (s.entries[c].numRegDependent == 0))
  }

  /** Only entries that wait for nothing are executing or done. */
  ghost predicate StartedWaitForNothing(s: Core)
    requires s.head < |s.entries|
  {
    forall c: nat | Live(s, c) ::
      && (s.entries[c].scheduled.Completed? || s.entries[c].scheduled.Idle?)
      && (!s.entries[c].executed.Idle? ==> s.entries[c].scheduled.Completed? && s.entries[c].numRegDependent == 0)
      && (s.entries[c].scheduled.Idle? ==> forall j | 0 <= j < |s.entries[c].rawChecked| :: !s.entries[c].rawChecked[j])
  }

  predicate ShouldBeReady(e: Entry) {
    e.scheduled.Completed? && e.executed.Idle? && e.numRegDependent == 0
  }

  /** The ready queue holds each entry that may start exactly once. */
  ghost predicate ReadyExact(s: Core)
    requires s.head < |s.entries|
  {
    && Recency.Distinct(s.ready)
    && (forall c: nat | c in s.ready :: Live(s, c) && ShouldBeReady(s.entries[c]))
    && (forall c: nat | Live(s, c) && ShouldBeReady(s.entries[c]) :: c in s.ready)
  }

  ghost function Executing(s: Core): set<nat> {
    set c: nat | c < |s.entries| && s.entries[c].executed.Inflight?
  }

  /** A scheduled entry has recorded itself with the youngest older writer of each source,
      unless that writer had completed. */
  ghost predicate YoungestRecorded(s: Core)
    requires s.head < |s.entries|
  {
    forall p: nat, c: nat, j: nat | YoungestWriter(s, p, c, j) && s.entries[c].scheduled.Completed? ::
      s.entries[p].executed.Completed? || Names(s, p, c, j)
  }

  ghost predicate Invariant(s: Core, numSources: nat) {
    && Shape(s, numSources)
    && DeadAreBlank(s)
    && NamesAreYounger(s)
    && CountsExact(s)
    && StartedWaitForNothing(s)
    && ReadyExact(s)
    && s.inflight == |Executing(s)|
    && YoungestRecorded(s)
  }

  // ---------------------------------------------------------------- what the invariant means

  /** No instruction starts before the youngest older writer of each of its sources is done. */
  lemma DependencesRespected(s: Core, numSources: nat, p: nat, c: nat, j: nat)
    requires Invariant(s, numSources) && YoungestWriter(s, p, c, j)
    requires !s.entries[c].executed.Idle?
    ensures s.entries[p].executed.Completed?
  {
    assert Names(s, p, c, j) && !s.entries[p].executed.Completed? ==> (p, j) in Pending(s, c);
  }

  /** The oldest entry waits for nothing. */
  lemma HeadNeverWaits(s: Core, numSources: nat)
    requires Invariant(s, numSources) && s.occupancy > 0
    ensures s.entries[s.head].numRegDependent == 0
    ensures s.entries[s.head].scheduled.Completed? && s.entries[s.head].executed.Idle? ==> s.head in s.ready
  {
    assert Live(s, s.head);
    assert Pending(s, s.head) == {} by {
      assert forall pj | pj in Pending(s, s.head) :: Names(s, pj.0, s.head, pj.1);
    }
  }

  /** The ready queue never outgrows the ring that stores it: an entry about to be added finds room. */
  lemma ReadyHasRoom(s: Core, numSources: nat, c: nat)
    requires Invariant(s, numSources) && c < |s.entries| && c !in s.ready
    ensures |s.ready| < |s.entries|
  {
    assert forall k | 0 <= k < |s.ready| :: s.ready[k] in s.ready;
    Pigeonhole(s.ready + [c], |s.entries|);
  }

  lemma {:induction false} Pigeonhole(q: seq<nat>, n: nat)
    requires Recency.Distinct(q) && forall k | 0 <= k < |q| :: q[k] < n
    ensures |q| <= n
  {
    if n == 0 {
    } else if exists k :: 0 <= k < |q| && q[k] == n - 1 {
      var k :| 0 <= k < |q| && q[k] == n - 1;
      var rest := q[..k] + q[k + 1..];
      assert forall a | 0 <= a < |rest| :: rest[a] == if a < k then q[a] else q[a + 1];
      Pigeonhole(rest, n - 1);
    } else {
      Pigeonhole(q, n - 1);
    }
  }

  // ---------------------------------------------------------------- the steps

  function Tail(s: Core): (t: nat)
    requires s.head < |s.entries| && s.occupancy <= |s.entries|
  {
    if s.head + s.occupancy < |s.entries| then s.head + s.occupancy else s.head + s.occupancy - |s.entries|
  }

  /** dispatch_instruction: the next instruction goes to the tail. */
  function Dispatch(s: Core, e: Entry, now: nat): Core
    requires s.head < |s.entries| && s.occupancy < |s.entries|
  {
    s.(entries := s.entries[Tail(s) := e.(eventCycle := now)], occupancy := s.occupancy + 1)
  }

  /** do_execution of the entry at the front of the ready queue. */
  function Start(s: Core, eventCycle: nat): Core
    requires s.ready != [] && s.ready[0] < |s.entries|
  {
    var c := s.ready[0];
    s.(entries := s.entries[c := s.entries[c].(executed := Inflight, eventCycle := eventCycle)],
       ready := s.ready[1..], inflight := s.inflight + 1)
  }

  /** retire_rob of one entry: its slot becomes an empty entry. */
  function Retire(s: Core, empty: Entry): Core
    requires s.head < |s.entries| && s.occupancy > 0
  {
    s.(entries := s.entries[s.head := empty],
       head := if s.head + 1 == |s.entries| then 0 else s.head + 1,
       occupancy := s.occupancy - 1)
  }

  lemma {:induction false} DispatchAges(s: Core, e: Entry, now: nat)
    requires s.head < |s.entries| && s.occupancy < |s.entries|
    ensures forall i: nat :: Live(Dispatch(s, e, now), i) <==> Live(s, i) || i == Tail(s)
    ensures !Live(s, Tail(s)) && Age(s, Tail(s)) == s.occupancy
    ensures forall p: nat, c: nat | Older(Dispatch(s, e, now), p, c) :: Live(s, p) && (Older(s, p, c) || c == Tail(s))
  {
  }

  lemma {:induction false} DispatchNames(s: Core, numSources: nat, e: Entry, now: nat)
    requires Shape(s, numSources) && s.occupancy < |s.entries| && Fresh(e, numSources)
    requires DeadAreBlank(s) && NamesAreYounger(s)
    ensures NamesAreYounger(Dispatch(s, e, now))
    ensures forall c: nat :: Pending(Dispatch(s, e, now), c) == Pending(s, c)
    ensures Pending(s, Tail(s)) == {}
  {
    var s', t := Dispatch(s, e, now), Tail(s);
    DispatchAges(s, e, now);
    assert forall p: nat, c: nat, j: nat :: Names(s', p, c, j) <==> Names(s, p, c, j);
    assert SetsAgree(s');
    DispatchPending(s, e, now);
    hide Pending, SetsAgree, DeadAreBlank;
    assert Pending(s, t) == {} by {
      NobodyNames(s, t);
    }
  }

  lemma {:induction false} NobodyNames(s: Core, c: nat)
    requires forall p: nat, j: nat :: !Names(s, p, c, j)
    ensures Pending(s, c) == {}
  {
    assert forall pj | pj in Pending(s, c) :: Names(s, pj.0, c, pj.1);
  }

  lemma {:induction false} DispatchPending(s: Core, e: Entry, now: nat)
    requires s.head < |s.entries| && s.occupancy < |s.entries|
    requires forall j | 0 <= j < |e.indexDependOnMe| :: e.indexDependOnMe[j] == {}
    requires forall p: nat, c: nat, j: nat :: Names(Dispatch(s, e, now), p, c, j) <==> Names(s, p, c, j)
    ensures forall c: nat :: Pending(Dispatch(s, e, now), c) == Pending(s, c)
  {
    var s' := Dispatch(s, e, now);
    forall c: nat ensures Pending(s', c) == Pending(s, c) {
      assert forall pj | pj in Pending(s, c) :: Names(s', pj.0, c, pj.1) && !Names(s, Tail(s), c, pj.1);
      assert forall pj | pj in Pending(s', c) :: Names(s, pj.0, c, pj.1) && !Names(s', Tail(s), c, pj.1);
    }
  }

  lemma {:induction false} DispatchQueues(s: Core, numSources: nat, e: Entry, now: nat)
    requires Shape(s, numSources) && s.occupancy < |s.entries| && Fresh(e, numSources)
    requires DeadAreBlank(s) && ReadyExact(s) && StartedWaitForNothing(s)
    ensures var s' := Dispatch(s, e, now);
            Shape(s', numSources) && DeadAreBlank(s') && ReadyExact(s') && StartedWaitForNothing(s')
    ensures Executing(Dispatch(s, e, now)) == Executing(s)
  {
    DispatchAges(s, e, now);
  }

  /** A fresh entry in place of a blank one names nobody either. */
  lemma {:induction false} DispatchSameNames(s: Core, e: Entry, now: nat)
    requires s.head < |s.entries| && s.occupancy < |s.entries| && Blank(s.entries[Tail(s)]) && Blank(e.(ip := 0))
    ensures forall p: nat, c: nat, j: nat :: Names(Dispatch(s, e, now), p, c, j) <==> Names(s, p, c, j)
  {
  }

  lemma {:induction false} DispatchYoungest(s: Core, numSources: nat, e: Entry, now: nat)
    requires Shape(s, numSources) && s.occupancy < |s.entries| && Fresh(e, numSources)
    requires DeadAreBlank(s) && YoungestRecorded(s)
    ensures YoungestRecorded(Dispatch(s, e, now))
  {
    var s' := Dispatch(s, e, now);
    DispatchAges(s, e, now);
    DispatchSameNames(s, e, now);
    forall p: nat, c: nat, j: nat | YoungestWriter(s', p, c, j) && s'.entries[c].scheduled.Completed?
      ensures YoungestWriter(s, p, c, j)
    {
      hide Names, DeadAreBlank;
      assert c != Tail(s);
      assert forall q: nat | Older(s, q, c) :: Older(s', q, c) && q != Tail(s);
    }
  }

  lemma {:induction false} DispatchKeeps(s: Core, numSources: nat, e: Entry, now: nat)
    requires Invariant(s, numSources) && s.occupancy < |s.entries| && Fresh(e, numSources)
    ensures Invariant(Dispatch(s, e, now), numSources)
  {
    DispatchNames(s, numSources, e, now);
    DispatchQueues(s, numSources, e, now);
    DispatchYoungest(s, numSources, e, now);
    hide NamesAreYounger, StartedWaitForNothing, ReadyExact, Executing, YoungestRecorded, Pending, DeadAreBlank;
    DispatchAges(s, e, now);
  }

  /** Neither starting nor completing an entry changes who writes what before whom. */
  ghost predicate SameProgram(s: Core, s': Core) {
    && s'.head == s.head && s'.occupancy == s.occupancy && |s'.entries| == |s.entries|
    && forall i | 0 <= i < |s.entries| ::
         && s'.entries[i].sources == s.entries[i].sources && s'.entries[i].destinations == s.entries[i].destinations
         && s'.entries[i].ip == s.entries[i].ip
  }

  lemma {:induction false} SameProgramSameWriters(s: Core, s': Core)
    requires s.head < |s.entries| && SameProgram(s, s')
    ensures forall i: nat :: Live(s', i) == Live(s, i)
    ensures forall p: nat, c: nat :: Older(s', p, c) == Older(s, p, c)
    ensures forall p: nat, c: nat, j: nat :: YoungestWriter(s', p, c, j) == YoungestWriter(s, p, c, j)
  {
    forall p: nat, c: nat, j: nat ensures YoungestWriter(s', p, c, j) == YoungestWriter(s, p, c, j) {
      if Older(s, p, c) {
        assert forall q: nat | Older(s, q, c) :: Older(s', q, c);
        assert forall q: nat | Older(s', q, c) :: Older(s, q, c);
      }
    }
  }

  lemma {:induction false} StartKeeps(s: Core, numSources: nat, eventCycle: nat)
    requires Invariant(s, numSources) && s.ready != []
    ensures s.ready[0] < |s.entries| && Invariant(Start(s, eventCycle), numSources)
  {
    assert s.ready[0] in s.ready;
    var s', c := Start(s, eventCycle), s.ready[0];
    SameProgramSameWriters(s, s');
    StartLinks(s, numSources, eventCycle);
    StartQueues(s, numSources, eventCycle);
    hide NamesAreYounger, StartedWaitForNothing, ReadyExact, Pending, YoungestWriter;
    assert YoungestRecorded(s');
  }

  lemma {:induction false} StartLinks(s: Core, numSources: nat, eventCycle: nat)
    requires Shape(s, numSources) && NamesAreYounger(s)
    requires s.ready != [] && Live(s, s.ready[0]) && s.entries[s.ready[0]].executed.Idle?
    ensures NamesAreYounger(Start(s, eventCycle))
    ensures forall c: nat :: Pending(Start(s, eventCycle), c) == Pending(s, c)
    ensures forall p: nat, x: nat, j: nat :: Names(Start(s, eventCycle), p, x, j) <==> Names(s, p, x, j)
  {
    var s' := Start(s, eventCycle);
    assert forall p: nat, x: nat, j: nat :: Names(s', p, x, j) <==> Names(s, p, x, j);
    assert forall i: nat :: Live(s', i) == Live(s, i);
  }

  lemma {:induction false} StartQueues(s: Core, numSources: nat, eventCycle: nat)
    requires Shape(s, numSources) && DeadAreBlank(s) && ReadyExact(s) && StartedWaitForNothing(s)
    requires s.ready != [] && Live(s, s.ready[0]) && s.inflight == |Executing(s)|
    ensures var s' := Start(s, eventCycle);
            && Shape(s', numSources) && DeadAreBlank(s') && ReadyExact(s') && StartedWaitForNothing(s')
            && s'.inflight == |Executing(s')|
  {
    var s', c := Start(s, eventCycle), s.ready[0];
    StartReady(s, eventCycle);
    assert c in s.ready;
    assert ShouldBeReady(s.entries[c]);
    StartExecuting(s, eventCycle);
    hide Executing, ReadyExact;
    assert forall i: nat :: Live(s', i) == Live(s, i);
  }

  lemma {:induction false} StartExecuting(s: Core, eventCycle: nat)
    requires s.ready != [] && s.ready[0] < |s.entries| && s.entries[s.ready[0]].executed.Idle?
    ensures |Executing(Start(s, eventCycle))| == |Executing(s)| + 1
  {
    assert Executing(Start(s, eventCycle)) == Executing(s) + {s.ready[0]};
  }

  lemma {:induction false} StartReady(s: Core, eventCycle: nat)
    requires s.head < |s.entries| && ReadyExact(s) && s.ready != [] && Live(s, s.ready[0])
    ensures ReadyExact(Start(s, eventCycle))
  {
    var s', c := Start(s, eventCycle), s.ready[0];
    assert forall i: nat :: Live(s', i) == Live(s, i);
    assert forall x: nat | x in s'.ready :: x in s.ready && x != c;
    assert forall x: nat | x in s.ready && x != c :: x in s'.ready;
  }

  lemma {:induction false} RetireAges(s: Core, empty: Entry)
    requires s.head < |s.entries| && 0 < s.occupancy <= |s.entries|
    ensures var s' := Retire(s, empty);
            && (forall i: nat :: Live(s', i) <==> Live(s, i) && i != s.head)
            && (forall p: nat, c: nat :: Older(s', p, c) <==> Older(s, p, c) && p != s.head)
            && (forall i: nat | Live(s', i) :: Age(s', i) == Age(s, i) - 1)
  {
  }

  lemma {:induction false} RetireLinks(s: Core, numSources: nat, empty: Entry)
    requires Shape(s, numSources) && s.occupancy > 0 && NamesAreYounger(s)
    requires s.entries[s.head].executed.Completed? && Blank(empty) && |empty.indexDependOnMe| == numSources
    ensures NamesAreYounger(Retire(s, empty))
    ensures forall c: nat :: Pending(Retire(s, empty), c) == Pending(s, c)
    ensures forall p: nat, c: nat, j: nat :: Names(Retire(s, empty), p, c, j) <==> Names(s, p, c, j) && p != s.head
  {
    var s' := Retire(s, empty);
    RetireAges(s, empty);
    assert forall p: nat, c: nat, j: nat :: Names(s', p, c, j) <==> Names(s, p, c, j) && p != s.head;
    assert forall p: nat, c: nat, j: nat | Names(s, p, c, j) :: c != s.head;
  }

  lemma {:induction false} RetireQueues(s: Core, numSources: nat, empty: Entry)
    requires Shape(s, numSources) && s.occupancy > 0
    requires DeadAreBlank(s) && ReadyExact(s) && StartedWaitForNothing(s) && s.entries[s.head].executed.Completed?
    requires Blank(empty) && |empty.sources| == |empty.rawChecked| == |empty.indexDependOnMe| == numSources
    ensures var s' := Retire(s, empty);
            && Shape(s', numSources) && DeadAreBlank(s') && ReadyExact(s') && StartedWaitForNothing(s')
            && Executing(s') == Executing(s)
  {
    RetireAges(s, empty);
  }

  lemma {:induction false} RetireKeeps(s: Core, numSources: nat, empty: Entry)
    requires Invariant(s, numSources) && s.occupancy > 0 && s.entries[s.head].executed.Completed?
    requires Blank(empty) && |empty.sources| == |empty.rawChecked| == |empty.indexDependOnMe| == numSources
    ensures Invariant(Retire(s, empty), numSources)
  {
    var s' := Retire(s, empty);
    RetireAges(s, empty);
    RetireLinks(s, numSources, empty);
    RetireQueues(s, numSources, empty);
    RetireYoungest(s, empty);
    hide Shape, DeadAreBlank, NamesAreYounger, StartedWaitForNothing, ReadyExact, Executing, Pending, YoungestWriter;
    hide YoungestRecorded, Names, Older;
  }

  lemma {:induction false} RetireYoungest(s: Core, empty: Entry)
    requires s.head < |s.entries| && 0 < s.occupancy <= |s.entries| && YoungestRecorded(s)
    requires forall p: nat, c: nat, j: nat :: Names(Retire(s, empty), p, c, j) <==> Names(s, p, c, j) && p != s.head
    ensures YoungestRecorded(Retire(s, empty))
  {
    var s' := Retire(s, empty);
    RetireAges(s, empty);
    hide Names;
    forall p: nat, c: nat, j: nat | YoungestWriter(s', p, c, j)
      ensures YoungestWriter(s, p, c, j)
    {
      assert forall q: nat | Older(s, q, c) && Age(s, p) < Age(s, q) :: Older(s', q, c) && Age(s', p) < Age(s', q);
    }
  }

  // ---------------------------------------------------------------- scheduling: finding producers

  /** Has the search, walking from young to old, passed source `j` of the entry of this age? */
  predicate Passed(age: nat, j: nat, atAge: int, atSource: nat) {
    age > atAge || (age == atAge && j < atSource)
  }

  /** The search writes nothing but dependence sets, and the counters of slot `c`. */
  ghost predicate SearchFrame(s: Core, c: nat, m: Core) {
    && SameProgram(s, m) && m.inflight == s.inflight && m.ready == s.ready
    && (forall i | 0 <= i < |s.entries| ::
          && m.entries[i].executed == s.entries[i].executed && m.entries[i].fetched == s.entries[i].fetched
          && m.entries[i].instrId == s.entries[i].instrId && m.entries[i].scheduled == s.entries[i].scheduled
          && m.entries[i].eventCycle == s.entries[i].eventCycle
          && |m.entries[i].indexDependOnMe| == |s.entries[i].indexDependOnMe|
          && |m.entries[i].rawChecked| == |s.entries[i].rawChecked|)
    && (forall i | 0 <= i < |s.entries| && i != c ::
          && m.entries[i].regReady == s.entries[i].regReady
          && m.entries[i].numRegDependent == s.entries[i].numRegDependent
          && m.entries[i].rawChecked == s.entries[i].rawChecked)
  }

  ghost predicate Found(s: Core, c: nat, atAge: int, atSource: nat, p: nat, j: nat)
    requires s.head < |s.entries|
  {
    Produces(s, p, c, j) && Passed(Age(s, p), j, atAge, atSource)
  }

  /** A source of `c` is marked as checked exactly when a producer was found for it. */
  ghost predicate CheckedExact(s: Core, c: nat, atAge: int, atSource: nat, m: Core)
    requires s.head < |s.entries| && c < |m.entries|
  {
    forall j: nat | j < |m.entries[c].rawChecked| ::
      m.entries[c].rawChecked[j] == exists p: nat :: Found(s, c, atAge, atSource, p, j)
  }

  /** `m` names what `s` names, and `c` with the producers found. */
  ghost predicate NamesFound(s: Core, c: nat, atAge: int, atSource: nat, m: Core)
    requires s.head < |s.entries|
  {
    forall p: nat, x: nat, j: nat :: Names(m, p, x, j)
      <==> Names(s, p, x, j) || (x == c && Found(s, c, atAge, atSource, p, j))
  }

  /** The buffer `m` reached from `s` while the producers of slot `c` are searched: `c` is recorded with
      exactly the youngest uncompleted older writers that were passed. */
  ghost predicate Searching(s: Core, c: nat, atAge: int, atSource: nat, m: Core)
    requires s.head < |s.entries| && Live(s, c)
  {
    && SearchFrame(s, c, m)
    && SetsAgree(m)
    && NamesFound(s, c, atAge, atSource, m)
    && CheckedExact(s, c, atAge, atSource, m)
    && m.entries[c].numRegDependent == |Pending(m, c)|
    && m.entries[c].regReady == (m.entries[c].numRegDependent == 0)
  }

  /** do_scheduling of slot `c` as a whole: `c` is recorded with exactly the youngest uncompleted older
      writer of each of its sources, and is ready when there is none. */
  ghost predicate Schedules(s: Core, c: nat, eventCycle: nat, s': Core)
    requires s.head < |s.entries| && Live(s, c)
  {
    exists m: Core :: Searching(s, c, -1, 0, m) && s' == FinishScheduling(m, c, eventCycle)
  }

  function FinishScheduling(m: Core, c: nat, eventCycle: nat): Core
    requires c < |m.entries|
  {
    m.(entries := m.entries[c := m.entries[c].(scheduled := Completed, eventCycle := eventCycle)],
       ready := if m.entries[c].regReady then m.ready + [c] else m.ready)
  }

  /** reg_RAW_dependency: `p` becomes the recorded producer of source `j` of `c`. */
  function Record(m: Core, p: nat, c: nat, j: nat): Core
    requires p < |m.entries| && c < |m.entries| && p != c
    requires j < |m.entries[p].indexDependOnMe| && j < |m.entries[c].rawChecked|
  {
    var producer := m.entries[p].(
        instrsDependOnMe := m.entries[p].instrsDependOnMe + {c},
        indexDependOnMe := m.entries[p].indexDependOnMe[j := m.entries[p].indexDependOnMe[j] + {c}],
        rawProducer := true);
    var consumer := m.entries[c].(
        regReady := false,
        numRegDependent := m.entries[c].numRegDependent + 1,
        rawChecked := m.entries[c].rawChecked[j := true]);
    m.(entries := m.entries[p := producer][c := consumer])
  }

  /** Some uncompleted older entry writes the source: then one of them is the youngest. */
  lemma {:induction false} YoungestExists(s: Core, q: nat, c: nat, j: nat) returns (p: nat)
    requires s.head < |s.entries| && Older(s, q, c) && j < |s.entries[c].sources|
    requires !s.entries[q].executed.Completed? && Writes(s.entries[q], s.entries[c].sources[j])
    ensures Produces(s, p, c, j) && Age(s, q) <= Age(s, p)
    decreases Age(s, c) - Age(s, q)
  {
    if Produces(s, q, c, j) {
      p := q;
    } else {
      var r: nat :| Older(s, r, c) && Age(s, q) < Age(s, r) && !s.entries[r].executed.Completed?
                    && Writes(s.entries[r], s.entries[c].sources[j]);
      p := YoungestExists(s, r, c, j);
    }
  }

  /** Before the search, nothing is recorded for `c`. */
  lemma {:induction false} SearchStarts(s: Core, numSources: nat, c: nat)
    requires Invariant(s, numSources) && Live(s, c) && s.entries[c].scheduled.Idle?
    ensures Searching(s, c, Age(s, c) - 1, 0, s.(entries := s.entries[c := s.entries[c].(regReady := true)]))
  {
    var m := s.(entries := s.entries[c := s.entries[c].(regReady := true)]);
    hide YoungestRecorded, ReadyExact, Executing, DeadAreBlank, Pending, Produces, Found;
    var a := Age(s, c) - 1;
    assert forall p: nat, x: nat, j: nat :: Names(m, p, x, j) <==> Names(s, p, x, j);
    assert forall p: nat, j: nat :: !Names(s, p, c, j);
    NobodyNames(s, c);
    NobodyNames(m, c);
    NothingFound(s, c, a);
    assert NamesFound(s, c, a, 0, m) && CheckedExact(s, c, a, 0, m);
    hide NamesFound, CheckedExact, Names;
    assert SetsAgree(m) by { SetsCarryOver(s, m); }
  }

  lemma {:induction false} SetsCarryOver(s: Core, m: Core)
    requires |m.entries| == |s.entries| && SetsAgree(s)
    requires forall i | 0 <= i < |s.entries| ::
               && m.entries[i].instrsDependOnMe == s.entries[i].instrsDependOnMe
               && m.entries[i].indexDependOnMe == s.entries[i].indexDependOnMe
               && m.entries[i].rawProducer == s.entries[i].rawProducer
    ensures SetsAgree(m)
  {
    assert forall p: nat, x: nat, j: nat :: Names(m, p, x, j) <==> Names(s, p, x, j);
  }

  lemma {:induction false} NothingFound(s: Core, c: nat, a: int)
    requires s.head < |s.entries| && Live(s, c) && a >= Age(s, c) - 1
    ensures forall p: nat, j: nat :: !Found(s, c, a, 0, p, j)
  {
  }

  /** One source of one older entry is looked at, as in the innermost loop. */
  function Probe(m: Core, i: nat, c: nat, j: nat): Core
    requires i < |m.entries| && c < |m.entries| && i != c
    requires j < |m.entries[i].indexDependOnMe| && j < |m.entries[c].rawChecked| && j < |m.entries[c].sources|
  {
    if m.entries[c].sources[j] != 0 && !m.entries[c].rawChecked[j]
       && Writes(m.entries[i], m.entries[c].sources[j])
    then Record(m, i, c, j) else m
  }

  /** The probe records exactly when the entry is the producer of that source. */
  lemma {:induction false} ProbeDecides(s: Core, numSources: nat, c: nat, i: nat, j: nat, m: Core)
    requires Shape(s, numSources) && Older(s, i, c) && j < numSources
    requires Searching(s, c, Age(s, i), j, m) && !s.entries[i].executed.Completed?
    ensures m.entries[c].sources[j] != 0 && !m.entries[c].rawChecked[j] && Writes(m.entries[i], m.entries[c].sources[j])
       <==> Produces(s, i, c, j)
  {
    hide Pending;
    if Writes(s.entries[i], s.entries[c].sources[j]) {
      var p := YoungestExists(s, i, c, j);
      if p != i {
        assert Found(s, c, Age(s, i), j, p, j);
      } else {
        assert forall q: nat :: !Found(s, c, Age(s, i), j, q, j);
      }
    }
  }

  lemma {:induction false} RecordLinks(m: Core, p: nat, c: nat, j: nat)
    requires p < |m.entries| && c < |m.entries| && p != c
    requires j < |m.entries[p].indexDependOnMe| && j < |m.entries[c].rawChecked|
    ensures var r := Record(m, p, c, j);
            && (forall q: nat, x: nat, k: nat ::
                  Names(r, q, x, k) <==> Names(m, q, x, k) || (q == p && x == c && k == j))
            && (!m.entries[p].executed.Completed? ==> Pending(r, c) == Pending(m, c) + {(p, j)})
  {
    var r := Record(m, p, c, j);
    assert forall q: nat, x: nat, k: nat :: Names(r, q, x, k) <==> Names(m, q, x, k) || (q == p && x == c && k == j);
    if !m.entries[p].executed.Completed? {
      assert forall qk | qk in Pending(r, c) :: Names(r, qk.0, c, qk.1);
      assert forall qk | qk in Pending(m, c) :: Names(m, qk.0, c, qk.1);
      assert Names(r, p, c, j);
    }
  }

  lemma {:induction false} ProbeSearches(s: Core, numSources: nat, c: nat, i: nat, j: nat, m: Core)
    requires Shape(s, numSources) && NamesAreYounger(s) && Older(s, i, c) && j < numSources
    requires s.entries[c].scheduled.Idle?
    requires Searching(s, c, Age(s, i), j, m) && !s.entries[i].executed.Completed?
    ensures Searching(s, c, Age(s, i), j + 1, Probe(m, i, c, j))
  {
    ProbeDecides(s, numSources, c, i, j, m);
    FoundNext(s, c, i, j, j + 1);
    if Produces(s, i, c, j) {
      RecordSearches(s, numSources, c, i, j, m);
    } else {
      SearchingTransfers(s, c, Age(s, i), j, Age(s, i), j + 1, m);
    }
  }

  lemma {:induction false} RecordSearches(s: Core, numSources: nat, c: nat, i: nat, j: nat, m: Core)
    requires Shape(s, numSources) && NamesAreYounger(s) && Older(s, i, c) && j < numSources
    requires s.entries[c].scheduled.Idle?
    requires Searching(s, c, Age(s, i), j, m) && Produces(s, i, c, j)
    ensures Searching(s, c, Age(s, i), j + 1, Record(m, i, c, j))
  {
    hide Pending, Produces, Found, SetsAgree, NamesAreYounger, CheckedExact, YoungestWriter, Record, Names, NamesFound;
    InReach(s, numSources, c, i, j, m);
    hide SearchFrame, Shape, Live, Older;
    var a, next, r := Age(s, i), j + 1, Record(m, i, c, j);
    FoundNext(s, c, i, j, next);
    RecordLinks(m, i, c, j);
    RecordSets(m, i, c, j);
    RecordChecked(s, c, i, j, next, m);
    RecordFrame(s, c, i, j, m);
    RecordIsNew(s, numSources, c, i, j, m);
    NamesNext(s, c, i, j, a, next, m, r);
  }

  lemma InReach(s: Core, numSources: nat, c: nat, i: nat, j: nat, m: Core)
    requires Shape(s, numSources) && Older(s, i, c) && j < numSources && SearchFrame(s, c, m) && Produces(s, i, c, j)
    ensures i < |m.entries| && c < |m.entries| && i != c && Live(s, i) && Live(s, c)
    ensures j < |m.entries[i].indexDependOnMe| && j < |m.entries[c].rawChecked| && !m.entries[i].executed.Completed?
  {
    hide SetsAgree;
  }

  lemma {:induction false} NamesNext(s: Core, c: nat, i: nat, j: nat, a: int, next: nat, m: Core, r: Core)
    requires s.head < |s.entries| && NamesFound(s, c, a, j, m)
    requires forall p: nat, x: nat, k: nat :: Names(r, p, x, k) <==> Names(m, p, x, k) || (p == i && x == c && k == j)
    requires forall p: nat, k: nat :: Found(s, c, a, next, p, k) <==> Found(s, c, a, j, p, k) || (p == i && k == j)
    ensures NamesFound(s, c, a, next, r)
  {
    hide Names, Found;
  }

  lemma {:induction false} RecordFrame(s: Core, c: nat, i: nat, j: nat, m: Core)
    requires i < |m.entries| && c < |m.entries| && i != c && SearchFrame(s, c, m)
    requires j < |m.entries[i].indexDependOnMe| && j < |m.entries[c].rawChecked|
    ensures var r := Record(m, i, c, j);
            && SearchFrame(s, c, r) && r.entries[i].executed == m.entries[i].executed
            && r.entries[c].numRegDependent == m.entries[c].numRegDependent + 1 && !r.entries[c].regReady
  {
  }

  lemma {:induction false} RecordIsNew(s: Core, numSources: nat, c: nat, i: nat, j: nat, m: Core)
    requires Shape(s, numSources) && NamesAreYounger(s) && Older(s, i, c) && j < numSources
    requires s.entries[c].scheduled.Idle? && Searching(s, c, Age(s, i), j, m)
    ensures !Names(m, i, c, j) && (i, j) !in Pending(m, c)
  {
    hide Produces, YoungestWriter, CheckedExact;
    assert !Names(s, i, c, j);
  }

  lemma {:induction false} RecordChecked(s: Core, c: nat, i: nat, j: nat, next: nat, m: Core)
    requires s.head < |s.entries| && Live(s, c) && Live(s, i) && i != c && i < |m.entries| && c < |m.entries|
    requires j < |m.entries[i].indexDependOnMe| && j < |m.entries[c].rawChecked| && next == j + 1
    requires CheckedExact(s, c, Age(s, i), j, m) && Produces(s, i, c, j)
    ensures CheckedExact(s, c, Age(s, i), next, Record(m, i, c, j))
  {
    FoundNext(s, c, i, j, next);
    hide Produces, Found;
    assert Found(s, c, Age(s, i), next, i, j);
  }

  lemma {:induction false} FoundNext(s: Core, c: nat, i: nat, j: nat, next: nat)
    requires s.head < |s.entries| && Live(s, i) && next == j + 1
    ensures forall p: nat, k: nat :: Found(s, c, Age(s, i), next, p, k)
              <==> Found(s, c, Age(s, i), j, p, k) || (p == i && k == j && Produces(s, i, c, j))
  {
    forall p: nat, k: nat
      ensures Found(s, c, Age(s, i), next, p, k)
         <==> Found(s, c, Age(s, i), j, p, k) || (p == i && k == j && Produces(s, i, c, j))
    {
      if Produces(s, p, c, k) && Age(s, p) == Age(s, i) {
        assert p == i;
      }
    }
  }

  lemma {:induction false} RecordSets(m: Core, p: nat, c: nat, j: nat)
    requires p < |m.entries| && c < |m.entries| && p != c
    requires j < |m.entries[p].indexDependOnMe| && j < |m.entries[c].rawChecked|
    requires SetsAgree(m)
    ensures SetsAgree(Record(m, p, c, j))
  {
    var r := Record(m, p, c, j);
    RecordLinks(m, p, c, j);
    hide Pending;
    forall q: nat, x: nat | q < |r.entries| && x in r.entries[q].instrsDependOnMe
      ensures exists k: nat :: Names(r, q, x, k)
    {
      if q == p && x == c {
        assert Names(r, q, x, j);
      } else {
        assert x in m.entries[q].instrsDependOnMe;
        var k: nat :| Names(m, q, x, k);
        assert Names(r, q, x, k);
      }
    }
  }

  /** Only what was found matters for how far the search is. */
  lemma {:induction false} SearchingTransfers(s: Core, c: nat, a: int, j: nat, a': int, j': nat, m: Core)
    requires s.head < |s.entries| && Live(s, c) && Searching(s, c, a, j, m)
    requires forall p: nat, k: nat :: Found(s, c, a, j, p, k) <==> Found(s, c, a', j', p, k)
    ensures Searching(s, c, a', j', m)
  {
    hide Found, Pending, SetsAgree, SearchFrame, Names;
  }

  lemma {:induction false} EntrySearched(s: Core, numSources: nat, c: nat, i: nat, m: Core)
    requires Shape(s, numSources) && Older(s, i, c)
    requires if s.entries[i].executed.Completed? then Searching(s, c, Age(s, i), 0, m)
             else Searching(s, c, Age(s, i), numSources, m)
    ensures Searching(s, c, Age(s, i) - 1, 0, m)
  {
    var k := if s.entries[i].executed.Completed? then 0 else numSources;
    forall p: nat, j: nat
      ensures Found(s, c, Age(s, i), k, p, j) <==> Found(s, c, Age(s, i) - 1, 0, p, j)
    {
      if Produces(s, p, c, j) && Age(s, p) == Age(s, i) {
        assert p == i;
      }
    }
    SearchingTransfers(s, c, Age(s, i), k, Age(s, i) - 1, 0, m);
  }

  lemma {:induction false} ScheduleKeeps(s: Core, numSources: nat, c: nat, m: Core, eventCycle: nat)
    requires Invariant(s, numSources) && Live(s, c) && s.entries[c].scheduled.Idle?
    requires Searching(s, c, -1, 0, m)
    ensures Invariant(FinishScheduling(m, c, eventCycle), numSources)
  {
    var s' := FinishScheduling(m, c, eventCycle);
    ScheduleLinks(s, numSources, c, m, eventCycle);
    ScheduleBlank(s, numSources, c, m, eventCycle);
    ScheduleQueues(s, numSources, c, m, eventCycle);
    ScheduleYoungest(s, numSources, c, m, eventCycle);
  }

  lemma {:induction false} ScheduleLinks(s: Core, numSources: nat, c: nat, m: Core, eventCycle: nat)
    requires Shape(s, numSources) && NamesAreYounger(s) && CountsExact(s)
    requires Live(s, c) && s.entries[c].scheduled.Idle? && Searching(s, c, -1, 0, m)
    ensures var s' := FinishScheduling(m, c, eventCycle);
            NamesAreYounger(s') && CountsExact(s')
  {
    var s' := FinishScheduling(m, c, eventCycle);
    SchedulePending(s, c, m, eventCycle);
    ScheduleNames(s, numSources, c, m, eventCycle);
    hide YoungestWriter, Pending, SetsAgree, NamesAreYounger, Names, Found, CheckedExact;
  }

  lemma {:induction false} ScheduleNames(s: Core, numSources: nat, c: nat, m: Core, eventCycle: nat)
    requires s.head < |s.entries| && NamesAreYounger(s) && Live(s, c) && Searching(s, c, -1, 0, m)
    requires forall p: nat, x: nat, j: nat :: Names(FinishScheduling(m, c, eventCycle), p, x, j) <==> Names(m, p, x, j)
    ensures NamesAreYounger(FinishScheduling(m, c, eventCycle))
  {
    hide Pending, CheckedExact, Names, SetsAgree;
    var s' := FinishScheduling(m, c, eventCycle);
    SetsCarryOver(m, s');
    assert forall i: nat | i < |s.entries| && s.entries[i].scheduled.Completed? :: s'.entries[i].scheduled.Completed?;
    assert forall p: nat, j: nat | Found(s, c, -1, 0, p, j) :: Older(s, p, c);
    hide Found;
    forall p: nat, x: nat, j: nat | Names(s', p, x, j)
      ensures Older(s', p, x) && s'.entries[x].scheduled.Completed?
    {
      assert Names(m, p, x, j);
      assert Older(s, p, x);
    }
  }

  lemma {:induction false} SchedulePending(s: Core, c: nat, m: Core, eventCycle: nat)
    requires s.head < |s.entries| && Live(s, c) && Searching(s, c, -1, 0, m)
    ensures var s' := FinishScheduling(m, c, eventCycle);
            && (forall p: nat, x: nat, j: nat :: Names(s', p, x, j) <==> Names(m, p, x, j))
            && Pending(s', c) == Pending(m, c)
            && (forall x: nat | x != c :: Pending(s', x) == Pending(s, x))
  {
    var s' := FinishScheduling(m, c, eventCycle);
    assert forall p: nat, x: nat, j: nat :: Names(s', p, x, j) <==> Names(m, p, x, j);
    hide SetsAgree, Found, CheckedExact;
    SamePending(s', m, c);
    forall x: nat | x != c ensures Pending(s', x) == Pending(s, x) {
      SamePending(s', s, x);
    }
  }

  lemma {:induction false} SamePending(s: Core, s': Core, c: nat)
    requires |s.entries| == |s'.entries|
    requires forall p: nat, j: nat :: Names(s, p, c, j) <==> Names(s', p, c, j)
    requires forall p | 0 <= p < |s.entries| :: s.entries[p].executed == s'.entries[p].executed
    ensures Pending(s, c) == Pending(s', c)
  {
    assert forall pj | pj in Pending(s, c) :: Names(s, pj.0, c, pj.1);
    assert forall pj | pj in Pending(s', c) :: Names(s', pj.0, c, pj.1);
  }

  lemma {:induction false} ScheduleBlank(s: Core, numSources: nat, c: nat, m: Core, eventCycle: nat)
    requires Shape(s, numSources) && DeadAreBlank(s) && Live(s, c) && Searching(s, c, -1, 0, m)
    ensures Shape(FinishScheduling(m, c, eventCycle), numSources) && DeadAreBlank(FinishScheduling(m, c, eventCycle))
  {
    var s' := FinishScheduling(m, c, eventCycle);
    SameProgramSameWriters(s, s');
    hide Pending, YoungestWriter;
    forall i: nat | i < |s.entries| && !Live(s, i)
      ensures Blank(s'.entries[i])
    {
      assert s'.entries[i] == m.entries[i];
      assert forall x: nat, j: nat :: !Names(m, i, x, j);
      forall j | 0 <= j < |m.entries[i].indexDependOnMe| ensures m.entries[i].indexDependOnMe[j] == {} {
        assert forall x: nat | x in m.entries[i].indexDependOnMe[j] :: Names(m, i, x, j);
      }
      assert m.entries[i].instrsDependOnMe == {};
    }
  }

  lemma {:induction false} ScheduleQueues(s: Core, numSources: nat, c: nat, m: Core, eventCycle: nat)
    requires Shape(s, numSources) && StartedWaitForNothing(s) && ReadyExact(s) && s.inflight == |Executing(s)|
    requires Live(s, c) && s.entries[c].scheduled.Idle? && Searching(s, c, -1, 0, m)
    ensures var s' := FinishScheduling(m, c, eventCycle);
            && StartedWaitForNothing(s') && ReadyExact(s') && s'.inflight == |Executing(s')|
  {
    hide Pending, YoungestWriter, Found, SetsAgree, CheckedExact, NamesFound;
    var s' := FinishScheduling(m, c, eventCycle);
    SameProgramSameWriters(s, s');
    ScheduleExecuting(s, c, m, eventCycle);
    hide Executing;
    assert c !in s.ready;
  }

  lemma {:induction false} ScheduleExecuting(s: Core, c: nat, m: Core, eventCycle: nat)
    requires s.head < |s.entries| && Live(s, c) && Searching(s, c, -1, 0, m)
    ensures Executing(FinishScheduling(m, c, eventCycle)) == Executing(s)
  {
    hide Pending, Found, SetsAgree, CheckedExact, NamesFound;
  }

  lemma {:induction false} ScheduleYoungest(s: Core, numSources: nat, c: nat, m: Core, eventCycle: nat)
    requires Shape(s, numSources) && YoungestRecorded(s)
    requires Live(s, c) && Searching(s, c, -1, 0, m)
    ensures YoungestRecorded(FinishScheduling(m, c, eventCycle))
  {
    var s' := FinishScheduling(m, c, eventCycle);
    SameProgramSameWriters(s, s');
    hide Pending;
    forall p: nat, x: nat, j: nat | YoungestWriter(s', p, x, j) && s'.entries[x].scheduled.Completed?
      ensures s'.entries[p].executed.Completed? || Names(s', p, x, j)
    {
      assert YoungestWriter(s, p, x, j);
      if x == c && !s.entries[p].executed.Completed? {
        assert Found(s, c, -1, 0, p, j);
        assert Names(m, p, c, j);
      } else if !s.entries[p].executed.Completed? {
        assert Names(s, p, x, j);
        assert Names(m, p, x, j);
      }
    }
  }

  // ---------------------------------------------------------------- completion and wake-up

  /** Entry `p` is done; the entries that wait for it are not released yet. */
  function Finish(s: Core, p: nat): Core
    requires p < |s.entries|
  {
    s.(entries := s.entries[p := s.entries[p].(executed := Completed)], inflight := s.inflight - 1)
  }

  /** The sources through which `p` still holds `c` back, from source `j` on. */
  ghost function Unreleased(s: Core, p: nat, c: nat, j: nat): set<nat>
    requires p < |s.entries|
  {
    SourcesFrom(s.entries[p].indexDependOnMe, c, j)
  }

  ghost function SourcesFrom(deps: seq<set<nat>>, c: nat, j: nat): set<nat> {
    set k: nat | j <= k < |deps| && c in deps[k]
  }

  /** The first source of `c` not yet released, when the release has come to source `j` of slot `i`. */
  function FirstUnreleased(numSources: nat, i: nat, j: nat, c: nat): nat {
    if c < i then numSources else if c == i then j else 0
  }

  /** Completion touches the stage of `p`, and the counters and ready flags of the slots that wait for `p`. */
  ghost predicate ReleaseFrame(s: Core, p: nat, m: Core)
    requires p < |s.entries|
  {
    && SameProgram(s, m) && m.inflight == s.inflight - 1
    && (forall i | 0 <= i < |s.entries| ::
          && m.entries[i].executed == (if i == p then Completed else s.entries[i].executed)
          && m.entries[i].instrId == s.entries[i].instrId && m.entries[i].fetched == s.entries[i].fetched
          && m.entries[i].scheduled == s.entries[i].scheduled && m.entries[i].eventCycle == s.entries[i].eventCycle
          && m.entries[i].rawChecked == s.entries[i].rawChecked && m.entries[i].rawProducer == s.entries[i].rawProducer
          && m.entries[i].instrsDependOnMe == s.entries[i].instrsDependOnMe
          && m.entries[i].indexDependOnMe == s.entries[i].indexDependOnMe
          && (i !in s.entries[p].instrsDependOnMe ==>
                && m.entries[i].numRegDependent == s.entries[i].numRegDependent
                && m.entries[i].regReady == s.entries[i].regReady))
  }

  /** The waiters that no longer wait for anything have joined the ready queue, in index order. */
  ghost predicate Woken(s: Core, p: nat, m: Core)
    requires p < |s.entries| && |m.entries| == |s.entries|
  {
    && |s.ready| <= |m.ready| && m.ready[..|s.ready|] == s.ready && Recency.Rising(m.ready[|s.ready|..])
    && (forall c: nat :: c in m.ready[|s.ready|..]
          <==> c < |s.entries| && c in s.entries[p].instrsDependOnMe && m.entries[c].numRegDependent == 0)
  }

  /** The buffer `m` reached from `s` while the waiters of `p` are released, up to source `j` of slot `i`. */
  ghost predicate Releasing(s: Core, p: nat, numSources: nat, i: nat, j: nat, m: Core)
    requires p < |s.entries|
  {
    && ReleaseFrame(s, p, m)
    && (forall c: nat | c < |s.entries| && c in s.entries[p].instrsDependOnMe ::
          && m.entries[c].numRegDependent
             == |Pending(m, c)| + |Unreleased(s, p, c, FirstUnreleased(numSources, i, j, c))|
          && m.entries[c].regReady == (m.entries[c].numRegDependent == 0))
    && Woken(s, p, m)
  }

  /** complete_execution of slot `p` as a whole: every waiter is released from `p`, and those that wait
      for nothing else join the ready queue, in the order of their buffer index. */
  ghost predicate Completes(s: Core, p: nat, s': Core)
    requires s.head < |s.entries| && p < |s.entries|
  {
    && ReleaseFrame(s, p, s')
    && (forall c: nat | c < |s.entries| && c in s.entries[p].instrsDependOnMe ::
          && s'.entries[c].numRegDependent == |Pending(s', c)|
          && s'.entries[c].regReady == (s'.entries[c].numRegDependent == 0))
    && Woken(s, p, s')
  }

  lemma {:induction false} CompleteKeeps(s: Core, numSources: nat, p: nat, s': Core)
    requires Invariant(s, numSources) && Live(s, p) && s.entries[p].executed.Inflight? && Completes(s, p, s')
    ensures Invariant(s', numSources)
  {
    SameProgramSameWriters(s, s');
    CompleteLinks(s, numSources, p, s');
    CompleteQueues(s, numSources, p, s');
    hide Pending, SetsAgree, ReadyExact, Executing;
    assert YoungestRecorded(s');
  }

  lemma {:induction false} CompleteLinks(s: Core, numSources: nat, p: nat, s': Core)
    requires Shape(s, numSources) && NamesAreYounger(s) && CountsExact(s)
    requires Live(s, p) && Completes(s, p, s')
    ensures Shape(s', numSources) && NamesAreYounger(s') && CountsExact(s')
    ensures forall q: nat, c: nat, j: nat :: Names(s', q, c, j) <==> Names(s, q, c, j)
  {
    SameProgramSameWriters(s, s');
    CompletePending(s, numSources, p, s');
    hide YoungestWriter, Pending;
    assert forall q: nat, c: nat, j: nat :: Names(s', q, c, j) <==> Names(s, q, c, j);
  }

  lemma {:induction false} CompletePending(s: Core, numSources: nat, p: nat, s': Core)
    requires Shape(s, numSources) && NamesAreYounger(s) && Live(s, p) && Completes(s, p, s')
    ensures forall c: nat | c !in s.entries[p].instrsDependOnMe :: Pending(s', c) == Pending(s, c)
  {
    forall c: nat | c !in s.entries[p].instrsDependOnMe
      ensures Pending(s', c) == Pending(s, c)
    {
      assert forall qk | qk in Pending(s, c) :: Names(s, qk.0, c, qk.1);
      assert forall qk | qk in Pending(s', c) :: Names(s', qk.0, c, qk.1);
      assert forall j: nat :: !Names(s, p, c, j);
    }
  }

  lemma {:induction false} CompleteQueues(s: Core, numSources: nat, p: nat, s': Core)
    requires Invariant(s, numSources)
    requires Live(s, p) && s.entries[p].executed.Inflight? && Completes(s, p, s')
    ensures DeadAreBlank(s') && StartedWaitForNothing(s') && ReadyExact(s') && s'.inflight == |Executing(s')|
  {
    CompleteReady(s, numSources, p, s');
    CompleteStages(s, numSources, p, s');
    CompleteExecuting(s, p, s');
    hide ReadyExact, DeadAreBlank, StartedWaitForNothing, NamesAreYounger;
    hide CountsExact, YoungestRecorded, Woken, Pending;
    hide Shape, Executing;
  }

  lemma {:induction false} CompleteExecuting(s: Core, p: nat, s': Core)
    requires s.head < |s.entries| && Live(s, p) && s.entries[p].executed.Inflight? && Completes(s, p, s')
    ensures |Executing(s)| == |Executing(s')| + 1
  {
    hide Woken, Pending;
    assert Executing(s) == Executing(s') + {p};
  }

  lemma {:induction false} CompleteStages(s: Core, numSources: nat, p: nat, s': Core)
    requires Invariant(s, numSources)
    requires Live(s, p) && s.entries[p].executed.Inflight? && Completes(s, p, s')
    ensures DeadAreBlank(s') && StartedWaitForNothing(s')
  {
    WaitersPending(s, numSources, p);
    hide YoungestRecorded, Pending, NamesAreYounger, CountsExact, Executing, ReadyExact;
    assert forall i: nat :: Live(s', i) == Live(s, i);
  }

  lemma {:induction false} CompleteReady(s: Core, numSources: nat, p: nat, s': Core)
    requires Invariant(s, numSources)
    requires Live(s, p) && s.entries[p].executed.Inflight? && Completes(s, p, s')
    ensures ReadyExact(s')
  {
    WaitersPending(s, numSources, p);
    hide YoungestWriter, YoungestRecorded, Pending, NamesAreYounger;
    hide CountsExact, Executing, DeadAreBlank, StartedWaitForNothing;
    assert forall i: nat :: Live(s', i) == Live(s, i);
    var woken := s'.ready[|s.ready|..];
    WokenJoin(s.ready, woken);
    assert s'.ready == s.ready + woken;
  }

  lemma {:induction false} WokenJoin(q: seq<nat>, woken: seq<nat>)
    requires Recency.Distinct(q) && Recency.Rising(woken)
    requires forall c: nat | c in woken :: c !in q
    ensures Recency.Distinct(q + woken)
    ensures forall c: nat :: c in q + woken <==> c in q || c in woken
  {
    assert forall k | 0 <= k < |woken| :: woken[k] in woken;
  }

  /** A waiter of an executing entry is scheduled, idle, and not ready. */
  lemma {:induction false} WaitersPending(s: Core, numSources: nat, p: nat)
    requires Invariant(s, numSources) && Live(s, p) && s.entries[p].executed.Inflight?
    ensures forall c: nat | c in s.entries[p].instrsDependOnMe ::
              Older(s, p, c) && s.entries[c].scheduled.Completed? && s.entries[c].executed.Idle?
              && s.entries[c].numRegDependent > 0
  {
    forall c: nat | c in s.entries[p].instrsDependOnMe
      ensures Older(s, p, c) && s.entries[c].scheduled.Completed? && s.entries[c].numRegDependent > 0
    {
      var j: nat :| Names(s, p, c, j);
      assert (p, j) in Pending(s, c);
    }
  }

  /** One (producer, source) pair is gone; the last one makes the waiter ready. */
  function Release(m: Core, i: nat): Core
    requires i < |m.entries|
  {
    var left := m.entries[i].numRegDependent - 1;
    var e := m.entries[i].(numRegDependent := left);
    if left == 0
    then m.(entries := m.entries[i := e.(regReady := true, scheduled := Completed)], ready := m.ready + [i])
    else m.(entries := m.entries[i := e])
  }

  lemma {:induction false} ReleaseStarts(s: Core, numSources: nat, p: nat)
    requires Invariant(s, numSources) && Live(s, p) && s.entries[p].executed.Inflight?
    ensures Releasing(s, p, numSources, 0, 0, Finish(s, p))
  {
    hide Pending, Unreleased, YoungestRecorded, ReadyExact;
    hide DeadAreBlank, NamesAreYounger, StartedWaitForNothing, Executing;
    var m := Finish(s, p);
    WaitersPending(s, numSources, p);
    assert m.ready[|s.ready|..] == [];
    forall c: nat | c < |s.entries| && c in s.entries[p].instrsDependOnMe
      ensures m.entries[c].numRegDependent == |Pending(m, c)| + |Unreleased(s, p, c, 0)|
      ensures m.entries[c].numRegDependent > 0 && !m.entries[c].regReady
    {
      FinishSplits(s, p, c);
    }
  }

  lemma {:induction false} FinishSplits(s: Core, p: nat, c: nat)
    requires p < |s.entries| && !s.entries[p].executed.Completed?
    ensures |Pending(s, c)| == |Pending(Finish(s, p), c)| + |Unreleased(s, p, c, 0)|
  {
    var own := set pj | pj in Pending(s, c) && pj.0 == p;
    assert Pending(s, c) == Pending(Finish(s, p), c) + own;
    var sources := Unreleased(s, p, c, 0);
    assert own == Paired(p, sources);
    PairedCount(p, sources);
  }

  ghost function Paired(p: nat, ks: set<nat>): set<(nat, nat)> {
    set k | k in ks :: (p, k)
  }

  lemma {:induction false} PairedCount(p: nat, ks: set<nat>)
    ensures |Paired(p, ks)| == |ks|
  {
    if ks == {} {
      assert Paired(p, ks) == {};
    } else {
      var k :| k in ks;
      PairedCount(p, ks - {k});
      assert Paired(p, ks) == Paired(p, ks - {k}) + {(p, k)};
    }
  }

  lemma {:induction false} UnreleasedStep(s: Core, p: nat, c: nat, j: nat, next: nat)
    requires p < |s.entries| && j < |s.entries[p].indexDependOnMe| && next == j + 1
    ensures |Unreleased(s, p, c, j)|
         == |Unreleased(s, p, c, next)| + (if c in s.entries[p].indexDependOnMe[j] then 1 else 0)
  {
    SourcesStep(s.entries[p].indexDependOnMe, c, j, next);
  }

  lemma {:induction false} SourcesStep(deps: seq<set<nat>>, c: nat, j: nat, next: nat)
    requires j < |deps| && next == j + 1
    ensures |SourcesFrom(deps, c, j)| == |SourcesFrom(deps, c, next)| + (if c in deps[j] then 1 else 0)
  {
    assert SourcesFrom(deps, c, j) == SourcesFrom(deps, c, next) + (if c in deps[j] then {j} else {});
  }

  lemma {:induction false} ReleaseStep(s: Core, numSources: nat, p: nat, i: nat, j: nat, m: Core)
    requires Shape(s, numSources) && NamesAreYounger(s) && p < |s.entries| && i < |s.entries|
    requires i in s.entries[p].instrsDependOnMe && j < numSources && Releasing(s, p, numSources, i, j, m)
    requires s.entries[i].scheduled.Completed?
    ensures Releasing(s, p, numSources, i, j + 1, if i in m.entries[p].indexDependOnMe[j] then Release(m, i) else m)
  {
    hide Pending, Unreleased, Woken, NamesAreYounger, Release;
    UnreleasedStep(s, p, i, j, j + 1);
    assert m.entries[p].indexDependOnMe == s.entries[p].indexDependOnMe && |m.entries| == |s.entries|;
    if i in m.entries[p].indexDependOnMe[j] {
      ReleaseLinks(s, p, i, m);
      ReleaseWakes(s, numSources, p, i, j, m);
    }
    hide ReleaseFrame, Shape;
  }

  lemma {:induction false} ReleaseLinks(s: Core, p: nat, i: nat, m: Core)
    requires p < |s.entries| && i < |s.entries| && ReleaseFrame(s, p, m)
    requires i in s.entries[p].instrsDependOnMe && s.entries[i].scheduled.Completed?
    ensures ReleaseFrame(s, p, Release(m, i))
    ensures forall c: nat :: Pending(Release(m, i), c) == Pending(m, c)
    ensures forall c | 0 <= c < |s.entries| && c != i :: Release(m, i).entries[c] == m.entries[c]
    ensures var e := Release(m, i).entries[i];
            && e.numRegDependent == m.entries[i].numRegDependent - 1
            && (!m.entries[i].regReady ==> e.regReady == (e.numRegDependent == 0))
  {
    var r := Release(m, i);
    forall c: nat ensures Pending(r, c) == Pending(m, c) {
      SamePending(r, m, c);
    }
  }

  /** Slots the release has not come to still wait. */
  lemma {:induction false} NotReleasedStillWait(s: Core, numSources: nat, p: nat, i: nat, j: nat, m: Core, c: nat)
    requires Shape(s, numSources) && NamesAreYounger(s) && p < |s.entries| && i < |s.entries| && j < numSources
    requires i in s.entries[p].indexDependOnMe[j] && Releasing(s, p, numSources, i, j, m)
    requires i <= c < |s.entries| && c in s.entries[p].instrsDependOnMe
    ensures m.entries[c].numRegDependent > 0
  {
    if c > i {
      var k: nat :| Names(s, p, c, k);
      assert k in Unreleased(s, p, c, 0);
    } else {
      assert j in Unreleased(s, p, i, j);
    }
  }

  lemma {:induction false} ReleaseWakes(s: Core, numSources: nat, p: nat, i: nat, j: nat, m: Core)
    requires Shape(s, numSources) && NamesAreYounger(s) && p < |s.entries| && i < |s.entries|
    requires i in s.entries[p].instrsDependOnMe && j < numSources && Releasing(s, p, numSources, i, j, m)
    requires i in s.entries[p].indexDependOnMe[j]
    ensures m.entries[i].numRegDependent > 0 && Woken(s, p, Release(m, i))
  {
    var r := Release(m, i);
    NotReleasedStillWait(s, numSources, p, i, j, m, i);
    var woken := m.ready[|s.ready|..];
    forall c: nat | c in woken ensures c < i {
      if c >= i {
        NotReleasedStillWait(s, numSources, p, i, j, m, c);
      }
    }
    hide Releasing, NamesAreYounger, Shape, ReleaseFrame;
    assert forall k | 0 <= k < |woken| :: woken[k] in woken;
    if r.entries[i].numRegDependent == 0 {
      assert r.ready[|s.ready|..] == woken + [i];
    } else {
      assert r.ready == m.ready;
    }
  }

  lemma {:induction false} ReleaseMovesOn(s: Core, numSources: nat, p: nat, i: nat, m: Core)
    requires Shape(s, numSources) && p < |s.entries| && i < |s.entries|
    requires if i in s.entries[p].instrsDependOnMe then Releasing(s, p, numSources, i, numSources, m)
             else Releasing(s, p, numSources, i, 0, m)
    ensures Releasing(s, p, numSources, i + 1, 0, m)
  {
    hide Pending, Unreleased;
  }

  /** Slots that do not wait are passed over. */
  lemma {:induction false} ReleaseSkips(s: Core, numSources: nat, p: nat, i: nat, next: nat, m: Core)
    requires Shape(s, numSources) && p < |s.entries| && i <= next <= |s.entries|
    requires forall x: nat | i <= x < next :: x !in s.entries[p].instrsDependOnMe
    requires Releasing(s, p, numSources, i, 0, m)
    ensures Releasing(s, p, numSources, next, 0, m)
    decreases next
  {
    hide Releasing, Shape;
    if i == next {
    } else {
      ReleaseSkips(s, numSources, p, i, next - 1, m);
      ReleaseMovesOn(s, numSources, p, next - 1, m);
    }
  }

  lemma {:induction false} ReleaseEnds(s: Core, numSources: nat, p: nat, i: nat, m: Core)
    requires Shape(s, numSources) && p < |s.entries| && Releasing(s, p, numSources, i, 0, m)
    requires i == |s.entries| || s.entries[p].instrsDependOnMe == {}
    ensures Completes(s, p, m)
  {
    forall c: nat ensures Unreleased(s, p, c, numSources) == {} {
    }
  }

  /** A waiter that is released last finds room in the ready ring. */
  lemma {:induction false} RoomToWake(s: Core, numSources: nat, p: nat, i: nat, j: nat, m: Core)
    requires Invariant(s, numSources) && Live(s, p) && s.entries[p].executed.Inflight?
    requires i < |s.entries| && i in s.entries[p].instrsDependOnMe && j < numSources
    requires Releasing(s, p, numSources, i, j, m) && i in s.entries[p].indexDependOnMe[j]
    ensures |m.ready| < |s.entries|
  {
    WaitersPending(s, numSources, p);
    NotReleasedStillWait(s, numSources, p, i, j, m, i);
    assert forall c: nat | c in s.entries[p].instrsDependOnMe :: c !in s.ready;
    assert forall c: nat | c in s.ready :: c < |s.entries|;
    hide Invariant, NamesAreYounger, CountsExact, Pending, Unreleased, StartedWaitForNothing, YoungestRecorded;
    hide DeadAreBlank, Shape, ReleaseFrame, ReadyExact, Live;
    WokenRoom(s.ready, m.ready, |s.entries|, i);
  }

  lemma {:induction false} WokenRoom(q: seq<nat>, q': seq<nat>, n: nat, i: nat)
    requires |q| <= |q'| && q'[..|q|] == q && Recency.Distinct(q) && Recency.Rising(q'[|q|..])
    requires forall c: nat | c in q :: c < n
    requires forall c: nat | c in q'[|q|..] :: c < n && c !in q
    requires i < n && i !in q && i !in q'[|q|..]
    ensures |q'| < n
  {
    var woken := q'[|q|..];
    WokenJoin(q, woken);
    assert q' == q + woken;
    forall k | 0 <= k < |q'| ensures q'[k] < n && q'[k] != i {
      assert q'[k] in q';
    }
    Pigeonhole(q' + [i], n);
  }
}
