/** Whole runs of a DRAM channel: no request is lost or returned twice, the data bus is spaced, the
    mode does not thrash, and without arrivals both queues drain.
 */
module DramRuns {
  import opened Options
  import opened Dram

  // ---------------------------------------------------------------- conservation

  /** A request as its sender knows it. */
  datatype Request = Request(id: nat, address: nat)

  function RequestOf(p: Packet): Request {
    Request(p.id, p.address)
  }

  ghost function One(p: Packet): multiset<Request> {
    if p.address == 0 then multiset{} else multiset{RequestOf(p)}
  }

  /** The requests in the occupied slots. */
  ghost function Held(entries: seq<Packet>): multiset<Request> {
    if entries == [] then multiset{} else Held(entries[..|entries| - 1]) + One(entries[|entries| - 1])
  }

  lemma {:induction false} HeldSame(a: seq<Packet>, b: seq<Packet>)
    requires |a| == |b| && forall i | 0 <= i < |a| :: RequestOf(a[i]) == RequestOf(b[i])
    ensures Held(a) == Held(b)
  {
    if a == [] {
    } else {
      HeldSame(a[..|a| - 1], b[..|b| - 1]);
    }
  }

  /** Overwriting a slot exchanges one request for another. */
  lemma {:induction false} HeldUpdate(entries: seq<Packet>, k: nat, p: Packet)
    requires k < |entries|
    ensures Held(entries[k := p]) + One(entries[k]) == Held(entries) + One(p)
  {
    hide Held, One, RequestOf;
    var n := |entries| - 1;
    var changed := entries[k := p];
    HeldSplit(entries);
    HeldSplit(changed);
    var h, h', x, y, z := Held(entries[..n]), Held(changed[..n]), One(entries[k]), One(p), One(entries[n]);
    if k == n {
      assert changed[..n] == entries[..n];
      Commute(h, y, x);
    } else {
      assert changed[..n] == entries[..n][k := p];
      HeldUpdate(entries[..n], k, p);
      Exchange(h', x, h, y, z);
    }
  }

  lemma HeldSplit(entries: seq<Packet>)
    requires entries != []
    ensures Held(entries) == Held(entries[..|entries| - 1]) + One(entries[|entries| - 1])
  {
  }

  lemma Commute(h: multiset<Request>, x: multiset<Request>, y: multiset<Request>)
    ensures (h + x) + y == (h + y) + x
  {
    forall r: Request ensures ((h + x) + y)[r] == ((h + y) + x)[r] {
    }
  }

  lemma Exchange(a: multiset<Request>, x: multiset<Request>, b: multiset<Request>, y: multiset<Request>,
                 z: multiset<Request>)
    requires a + x == b + y
    ensures (a + z) + x == (b + z) + y
  {
    Commute(a, z, x);
    Commute(b, z, y);
  }

  ghost function OneIf(done: Option<Packet>, yes: bool): multiset<Request> {
    if done.Some? && yes then One(done.value) else multiset{}
  }

  lemma {:induction false} SwitchConserves(cfg: Config, c: Channel, now: nat)
    ensures Held(Switch(cfg, c, now).rq.entries) == Held(c.rq.entries)
    ensures Held(Switch(cfg, c, now).wq.entries) == Held(c.wq.entries)
  {
    hide ScheduledIn, BankOf, EarliestOf;
    HeldSame(Switch(cfg, c, now).rq.entries, c.rq.entries);
    HeldSame(Switch(cfg, c, now).wq.entries, c.wq.entries);
  }

  lemma {:induction false} ScheduleConserves(cfg: Config, c: Channel, write: bool, now: nat)
    requires |c.banks| == NumBanks(cfg)
    ensures Held(Schedule(cfg, c, write, now).rq.entries) == Held(c.rq.entries)
    ensures Held(Schedule(cfg, c, write, now).wq.entries) == Held(c.wq.entries)
  {
    hide BankOf, EarliestOf, Pick;
    HeldSame(Schedule(cfg, c, write, now).rq.entries, c.rq.entries);
    HeldSame(Schedule(cfg, c, write, now).wq.entries, c.wq.entries);
  }

  lemma {:induction false} ProcessConserves(cfg: Config, c: Channel, write: bool, now: nat)
    requires |c.banks| == NumBanks(cfg) && c.Active(write).processIndex < |c.Active(write).entries|
    ensures var r := Process(cfg, c, write, now);
            && Held(r.0.rq.entries) + OneIf(r.1, !write) == Held(c.rq.entries)
            && Held(r.0.wq.entries) + OneIf(r.1, write) == Held(c.wq.entries)
  {
    hide BankOf, EarliestOf, Held;
    HeldUpdate(c.Active(write).entries, c.Active(write).processIndex, EMPTY);
  }

  /** A cycle hands out at most one request, and keeps all the others, through every mode switch. */
  lemma {:induction false} OperateConserves(cfg: Config, c: Channel, now: nat)
    requires |c.banks| == NumBanks(cfg)
    ensures var (c', done) := Operate(cfg, c, now);
            && Held(c'.rq.entries) + OneIf(done, !c'.writeMode) == Held(c.rq.entries)
            && Held(c'.wq.entries) + OneIf(done, c'.writeMode) == Held(c.wq.entries)
  {
    hide Held, Process, Schedule, Switch;
    var d := Switch(cfg, c, now);
    SwitchConserves(cfg, c, now);
    ScheduleConserves(cfg, d, d.writeMode, now);
    ScheduleMode(cfg, d, now);
    var s := Scheduled(cfg, d, now);
    if s.Active(s.writeMode).processIndex < |s.Active(s.writeMode).entries|
       && Due(s.Active(s.writeMode).processCycle, now) {
      ProcessConserves(cfg, s, s.writeMode, now);
      ProcessMode(cfg, s, s.writeMode, now);
    }
  }

  lemma {:induction false} InsertConserves(q: Queue, p: Packet)
    ensures var (q', a) := Insert(q, p);
            Held(q'.entries) == Held(q.entries) + (if a.Stored? then multiset{RequestOf(p)} else multiset{})
    ensures Insert(q, p).1.Stored? ==> p.address != 0
  {
    hide Held;
    var free := Find(q.entries, 0, |q.entries|);
    if Find(q.entries, p.address, |q.entries|) == |q.entries| && free < |q.entries| {
      HeldUpdate(q.entries, free, p);
    }
  }

  // ---------------------------------------------------------------- runs

  datatype Event = Tick | Read(packet: Packet, warm: bool) | Write(packet: Packet, warm: bool)

  /** A channel with the history of what was stored, what completed, and when. */
  datatype Log = Log(chan: Channel, now: nat,
                     readsIn: multiset<Request>, readsOut: multiset<Request>,
                     writesIn: multiset<Request>, writesOut: multiset<Request>,
                     lastDone: Option<nat>, switchesSince: nat)

  ghost predicate Switching(c: Channel) {
    SwitchesMode(|c.wq.entries|, c.writeMode, c.rq.occupancy, c.wq.occupancy)
  }

  ghost function Step(cfg: Config, log: Log, event: Event): (r: Log)
    requires |log.chan.banks| == NumBanks(cfg)
    ensures |r.chan.banks| == |log.chan.banks|
  {
    match event
    case Tick =>
      var (c, done) := Operate(cfg, log.chan, log.now);
      var switches := log.switchesSince + (if Switching(log.chan) then 1 else 0);
      log.(chan := c, now := log.now + 1,
           readsOut := log.readsOut + OneIf(done, !c.writeMode),
           writesOut := log.writesOut + OneIf(done, c.writeMode),
           lastDone := if done.Some? then Some(log.now) else log.lastDone,
           switchesSince := if done.Some? then 0 else switches)
    case Read(p, warm) =>
      var (c, a) := AddRead(log.chan, p, warm);
      log.(chan := c, readsIn := log.readsIn + (if a.Stored? then multiset{RequestOf(p)} else multiset{}))
    case Write(p, warm) =>
      var (c, a) := AddWrite(log.chan, p, warm);
      log.(chan := c, writesIn := log.writesIn + (if a.Stored? then multiset{RequestOf(p)} else multiset{}))
  }

  /** Packets arrive unscheduled. */
  ghost predicate Arrives(event: Event) {
    event.Tick? || !event.packet.scheduled
  }

  /** The data bus is still taken for the last completion and for every turn-around since. */
  ghost predicate BusSpaced(cfg: Config, log: Log) {
    log.lastDone.Some? ==>
      && log.lastDone.value < log.now
      && log.chan.busFree >= log.lastDone.value + cfg.returnTime + cfg.turnAround * log.switchesSince
  }

  ghost predicate LogOk(cfg: Config, log: Log) {
    && Inv(cfg, log.chan)
    && log.readsIn == log.readsOut + Held(log.chan.rq.entries)
    && log.writesIn == log.writesOut + Held(log.chan.wq.entries)
    && BusSpaced(cfg, log)
  }

  /** What operate() does to the bus: turn-around on a switch, and a completion needs it free. */
  lemma {:induction false} OperateBus(cfg: Config, c: Channel, now: nat)
    requires |c.banks| == NumBanks(cfg)
    ensures var free := c.busFree + (if Switching(c) then cfg.turnAround else 0);
            var (c', done) := Operate(cfg, c, now);
            if done.Some? then free <= now && c'.busFree == now + cfg.returnTime else c'.busFree == free
  {
    hide BankOf, EarliestOf, Pick, ScheduledIn;
  }

  /** Completions are a bus transfer apart, plus one turn-around for every mode switch in between. */
  lemma {:induction false} CompletionsSpaced(cfg: Config, log: Log)
    requires LogOk(cfg, log) && log.lastDone.Some? && Operate(cfg, log.chan, log.now).1.Some?
    ensures log.now >= log.lastDone.value + cfg.returnTime
              + cfg.turnAround * (log.switchesSince + if Switching(log.chan) then 1 else 0)
  {
    hide Operate, Held, Inv;
    BanksExist(cfg, log.chan);
    OperateBus(cfg, log.chan, log.now);
  }

  lemma {:induction false} StepKeeps(cfg: Config, log: Log, event: Event)
    requires LogOk(cfg, log) && Arrives(event)
    ensures LogOk(cfg, Step(cfg, log, event))
  {
    hide Inv, Held, Operate, AddRead, AddWrite;
    BanksExist(cfg, log.chan);
    match event
    case Tick =>
      TickKeeps(cfg, log);
    case Read(p, warm) =>
      ReadKeeps(cfg, log.chan, p, warm);
    case Write(p, warm) =>
      WriteKeeps(cfg, log.chan, p, warm);
  }

  lemma {:induction false} TickKeeps(cfg: Config, log: Log)
    requires LogOk(cfg, log)
    ensures LogOk(cfg, Step(cfg, log, Tick))
  {
    hide Inv, Held, Operate;
    OperateKeeps(cfg, log.chan, log.now);
    BanksExist(cfg, log.chan);
    OperateConserves(cfg, log.chan, log.now);
    OperateBus(cfg, log.chan, log.now);
  }

  lemma {:induction false} ReadKeeps(cfg: Config, c: Channel, p: Packet, warm: bool)
    requires Inv(cfg, c) && !p.scheduled
    ensures Inv(cfg, AddRead(c, p, warm).0) && AddRead(c, p, warm).0.busFree == c.busFree
    ensures var (c', a) := AddRead(c, p, warm);
            && Held(c'.rq.entries) == Held(c.rq.entries) + (if a.Stored? then multiset{RequestOf(p)} else multiset{})
            && c'.wq == c.wq
  {
    hide Inv, Held, Insert;
    ArrivalKeeps(cfg, c, p, false);
    InsertConserves(c.rq, p);
  }

  lemma {:induction false} WriteKeeps(cfg: Config, c: Channel, p: Packet, warm: bool)
    requires Inv(cfg, c) && !p.scheduled
    ensures Inv(cfg, AddWrite(c, p, warm).0) && AddWrite(c, p, warm).0.busFree == c.busFree
    ensures var (c', a) := AddWrite(c, p, warm);
            && Held(c'.wq.entries) == Held(c.wq.entries) + (if a.Stored? then multiset{RequestOf(p)} else multiset{})
            && c'.rq == c.rq
  {
    hide Inv, Held, Insert;
    ArrivalKeeps(cfg, c, p, true);
    InsertConserves(c.wq, p);
  }

  /** From any state that is in order, every run stays in order. */
  ghost function Run(cfg: Config, log: Log, events: seq<Event>): Log
    requires |log.chan.banks| == NumBanks(cfg)
    ensures |Run(cfg, log, events).chan.banks| == NumBanks(cfg)
    decreases |events|
  {
    if events == [] then log else Run(cfg, Step(cfg, log, events[0]), events[1..])
  }

  lemma {:induction false} RunKeeps(cfg: Config, log: Log, events: seq<Event>)
    requires LogOk(cfg, log) && forall k | 0 <= k < |events| :: Arrives(events[k])
    ensures |log.chan.banks| == NumBanks(cfg) && LogOk(cfg, Run(cfg, log, events))
    decreases |events|
  {
    BanksExist(cfg, log.chan);
    hide LogOk, Step;
    if events == [] {
    } else {
      StepKeeps(cfg, log, events[0]);
      RunKeeps(cfg, Step(cfg, log, events[0]), events[1..]);
    }
  }

  /** A controller as built, before any event. */
  function StartLog(cfg: Config, rqSize: nat, wqSize: nat): Log {
    Log(Start(cfg, rqSize, wqSize), 0, multiset{}, multiset{}, multiset{}, multiset{}, None, 0)
  }

  lemma {:induction false} StartInOrder(cfg: Config, rqSize: nat, wqSize: nat)
    ensures LogOk(cfg, StartLog(cfg, rqSize, wqSize))
  {
    var start := StartLog(cfg, rqSize, wqSize);
    InvAtStart(cfg, rqSize, wqSize);
    NothingHeld(start.chan.rq.entries);
    NothingHeld(start.chan.wq.entries);
  }

  lemma {:induction false} NothingHeld(entries: seq<Packet>)
    requires forall i | 0 <= i < |entries| :: entries[i] == EMPTY
    ensures Held(entries) == multiset{}
  {
    if entries == [] {
    } else {
      NothingHeld(entries[..|entries| - 1]);
    }
  }

  /** From start-up, after every run: the invariant holds, and every request ever stored has been handed out
      exactly once or is still held. */
  lemma {:induction false} RunFromStart(cfg: Config, rqSize: nat, wqSize: nat, events: seq<Event>)
    requires forall k | 0 <= k < |events| :: Arrives(events[k])
    ensures |StartLog(cfg, rqSize, wqSize).chan.banks| == NumBanks(cfg)
    ensures var log := Run(cfg, StartLog(cfg, rqSize, wqSize), events);
            && Inv(cfg, log.chan)
            && log.readsIn == log.readsOut + Held(log.chan.rq.entries)
            && log.writesIn == log.writesOut + Held(log.chan.wq.entries)
  {
    StartInOrder(cfg, rqSize, wqSize);
    RunKeeps(cfg, StartLog(cfg, rqSize, wqSize), events);
    hide Inv, Held, Run;
  }

  // ---------------------------------------------------------------- the mode does not thrash

  /** After a switch, the same occupancies never ask for the switch back: exactly when the write
      queue has at least two slots. */
  lemma NoSwitchBack(wqSize: nat)
    ensures 2 <= wqSize <==>
            forall mode: bool, r: nat, w: nat | w <= wqSize ::
              SwitchesMode(wqSize, mode, r, w) ==> !SwitchesMode(wqSize, !mode, r, w)
  {
    if wqSize < 2 {
      assert SwitchesMode(wqSize, false, 0, 0) && SwitchesMode(wqSize, true, 0, 0);
    }
  }

  /** Something arrived for good, or completed. */
  ghost predicate Progress(cfg: Config, log: Log, event: Event)
    requires |log.chan.banks| == NumBanks(cfg)
  {
    match event
    case Tick => Operate(cfg, log.chan, log.now).1.Some?
    case Read(p, warm) => AddRead(log.chan, p, warm).1.Stored?
    case Write(p, warm) => AddWrite(log.chan, p, warm).1.Stored?
  }

  /** Without progress, only the mode can have changed among the things that decide a switch. */
  lemma {:induction false} NoProgressNoChange(cfg: Config, log: Log, event: Event)
    requires |log.chan.banks| == NumBanks(cfg) && !Progress(cfg, log, event)
    ensures var c, c' := log.chan, Step(cfg, log, event).chan;
            && c'.rq.occupancy == c.rq.occupancy && c'.wq.occupancy == c.wq.occupancy
            && |c'.wq.entries| == |c.wq.entries|
            && c'.writeMode == (if event.Tick? && Switching(c) then !c.writeMode else c.writeMode)
  {
    hide Operate, Insert;
    match event
    case Tick => QuietCycle(cfg, log.chan, log.now);
    case Read(p, warm) => QuietInsert(log.chan.rq, p);
    case Write(p, warm) => QuietInsert(log.chan.wq, p);
  }

  lemma {:induction false} QuietInsert(q: Queue, p: Packet)
    ensures |Insert(q, p).0.entries| == |q.entries|
    ensures !Insert(q, p).1.Stored? ==> Insert(q, p).0.occupancy == q.occupancy
  {
  }

  lemma {:induction false} QuietCycle(cfg: Config, c: Channel, now: nat)
    requires |c.banks| == NumBanks(cfg)
    ensures var (c', done) := Operate(cfg, c, now);
            && |c'.wq.entries| == |c.wq.entries| && |c'.rq.entries| == |c.rq.entries|
            && c'.writeMode == (if Switching(c) then !c.writeMode else c.writeMode)
            && c'.rq.occupancy == c.rq.occupancy - (if done.Some? && !c'.writeMode then 1 else 0)
            && c'.wq.occupancy == c.wq.occupancy - (if done.Some? && c'.writeMode then 1 else 0)
  {
    var d := Switch(cfg, c, now);
    QuietSwitch(cfg, c, now);
    hide Switch;
    var s := Scheduled(cfg, d, now);
    QuietSchedule(cfg, d, now);
    hide Scheduled, BankOf, EarliestOf;
  }

  lemma {:induction false} QuietSwitch(cfg: Config, c: Channel, now: nat)
    ensures var d := Switch(cfg, c, now);
            && d.rq.occupancy == c.rq.occupancy && d.wq.occupancy == c.wq.occupancy
            && |d.rq.entries| == |c.rq.entries| && |d.wq.entries| == |c.wq.entries|
            && d.writeMode == (if Switching(c) then !c.writeMode else c.writeMode)
  {
    hide BankOf, EarliestOf, ScheduledIn;
  }

  lemma {:induction false} QuietSchedule(cfg: Config, c: Channel, now: nat)
    requires |c.banks| == NumBanks(cfg)
    ensures var d := Scheduled(cfg, c, now);
            && d.rq.occupancy == c.rq.occupancy && d.wq.occupancy == c.wq.occupancy
            && |d.rq.entries| == |c.rq.entries| && |d.wq.entries| == |c.wq.entries|
            && d.writeMode == c.writeMode
  {
    hide BankOf, EarliestOf, Pick;
  }

  /** Does any event of the run, applied where it happens, make progress? */
  ghost predicate ProgressWithin(cfg: Config, log: Log, events: seq<Event>)
    requires |log.chan.banks| == NumBanks(cfg)
    decreases |events|
  {
    events != [] && (Progress(cfg, log, events[0]) || ProgressWithin(cfg, Step(cfg, log, events[0]), events[1..]))
  }

  /** Does any cycle of the run switch the mode? */
  ghost predicate SwitchWithin(cfg: Config, log: Log, events: seq<Event>)
    requires |log.chan.banks| == NumBanks(cfg)
    decreases |events|
  {
    && events != []
    && ((events[0].Tick? && Switching(log.chan)) || SwitchWithin(cfg, Step(cfg, log, events[0]), events[1..]))
  }

  lemma {:induction false} QuietRun(cfg: Config, log: Log, events: seq<Event>)
    requires |log.chan.banks| == NumBanks(cfg)
    requires !Switching(log.chan) && !ProgressWithin(cfg, log, events)
    ensures !Switching(Run(cfg, log, events).chan) && !SwitchWithin(cfg, log, events)
    decreases |events|
  {
    hide Progress, Step;
    if events == [] {
    } else {
      NoProgressNoChange(cfg, log, events[0]);
      QuietRun(cfg, Step(cfg, log, events[0]), events[1..]);
    }
  }

  /** Between a mode switch and the next one, some request is stored or completes in the channel. */
  lemma {:induction false} SwitchesNeedProgress(cfg: Config, log: Log, events: seq<Event>)
    requires LogOk(cfg, log) && |log.chan.wq.entries| >= 2
    requires events != [] && events[0].Tick? && Switching(log.chan)
    ensures |log.chan.banks| == NumBanks(cfg)
    ensures Switching(Run(cfg, log, events).chan) ==> ProgressWithin(cfg, log, events)
  {
    BanksExist(cfg, log.chan);
    OccupancyBounds(log.chan.rq);
    OccupancyBounds(log.chan.wq);
    NoSwitchBack(|log.chan.wq.entries|);
    hide LogOk, Progress, Step;
    if !ProgressWithin(cfg, log, events) {
      NoProgressNoChange(cfg, log, events[0]);
      QuietRun(cfg, Step(cfg, log, events[0]), events[1..]);
    }
  }

  lemma {:induction false} OccupancyBounds(q: Queue)
    requires QueueOk(q)
    ensures 0 <= q.occupancy <= |q.entries|
  {
    IndicesBelow(Occupied(q.entries), |q.entries|);
  }

  lemma {:induction false} IndicesBelow(s: set<nat>, n: nat)
    requires forall i | i in s :: i < n
    ensures |s| <= n
  {
    if n > 0 {
      IndicesBelow(s - {n - 1}, n - 1);
    } else {
      assert s == {};
    }
  }
}
