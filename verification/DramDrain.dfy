/** A DRAM channel without new arrivals serves every request it holds in finitely many cycles. */
module DramDrain {
  import Recency
  import opened Dram
  import opened DramRuns

  /** Every waiting request has a time. */
  ghost predicate Timed(entries: seq<Packet>) {
    forall i | 0 <= i < |entries| && entries[i].address != 0 :: entries[i].eventCycle.At?
  }

  ghost predicate AllTimed(c: Channel) {
    Timed(c.rq.entries) && Timed(c.wq.entries)
  }

  function Max(a: int, b: int): int {
    if a >= b then a else b
  }

  // ---------------------------------------------------------------- the measure

  /** Requests left in the channel. */
  ghost function Total(c: Channel): int {
    c.rq.occupancy + c.wq.occupancy
  }

  /** Requests of the queue being served that have no bank yet. */
  ghost function Unscheduled(c: Channel): int {
    c.Active(c.writeMode).occupancy - c.Count(c.writeMode)
  }

  /** The time at which the queue being served can next do something. */
  ghost function NextTime(cfg: Config, c: Channel): int
    requires |c.banks| == NumBanks(cfg)
  {
    var q := c.Active(c.writeMode);
    if q.processCycle.At? && q.processIndex < |q.entries|
    then Max(q.processCycle.t, Max(c.banks[BankOf(cfg, q.entries[q.processIndex].address)].cycleAvailable, c.busFree))
    else if q.scheduleCycle.At? then q.scheduleCycle.t else 0
  }

  ghost function Wait(cfg: Config, c: Channel, now: nat): nat
    requires |c.banks| == NumBanks(cfg)
  {
    Max(0, NextTime(cfg, c) - now)
  }

  // ---------------------------------------------------------------- what one cycle does to it

  lemma {:induction false} TakeCounts(cfg: Config, c: Channel, k: nat, hit: bool, now: nat)
    requires |c.banks| == NumBanks(cfg) && k < |c.Active(c.writeMode).entries|
    ensures Unscheduled(Take(cfg, c, c.writeMode, k, hit, now)) == Unscheduled(c) - 1
  {
    hide BankOf, EarliestOf;
  }

  lemma {:induction false} ScheduledCounts(cfg: Config, c: Channel, now: nat)
    requires |c.banks| == NumBanks(cfg)
    ensures Scheduled(cfg, c, now) == c || Unscheduled(Scheduled(cfg, c, now)) == Unscheduled(c) - 1
  {
    hide BankOf, EarliestOf, Pick, Take, Unscheduled;
    var q := c.Active(c.writeMode);
    var hit := Pick(cfg, q.entries, c.banks, |q.entries|, true);
    var k := if hit < |q.entries| then hit else Pick(cfg, q.entries, c.banks, |q.entries|, false);
    if k < |q.entries| {
      TakeCounts(cfg, c, k, hit < |q.entries|, now);
    }
  }

  /** When nothing is scheduled, every bank is idle, and a request that is due finds one. */
  lemma {:induction false} DueIsTaken(cfg: Config, c: Channel, now: nat)
    requires Inv(cfg, c) && c.Active(c.writeMode).processCycle.Never? && Due(c.Active(c.writeMode).scheduleCycle, now)
    ensures |c.banks| == NumBanks(cfg) && Scheduled(cfg, c, now) != c
  {
    var q := c.Active(c.writeMode);
    assert forall i | 0 <= i < |q.entries| :: !q.entries[i].scheduled;
    assert Pickable(cfg, q.entries[q.scheduleIndex], c.banks, false);
    var hit := Pick(cfg, q.entries, c.banks, |q.entries|, true);
    var k := if hit < |q.entries| then hit else Pick(cfg, q.entries, c.banks, |q.entries|, false);
    assert k < |q.entries|;
    TakeCounts(cfg, c, k, hit < |q.entries|, now);
  }

  /** When nothing is scheduled but something waits, there is a time to schedule it. */
  lemma {:induction false} SomethingWaits(cfg: Config, c: Channel)
    requires Inv(cfg, c) && AllTimed(c) && c.Active(c.writeMode).occupancy > 0
    requires c.Active(c.writeMode).processCycle.Never?
    ensures c.Active(c.writeMode).scheduleCycle.At?
  {
    var q := c.Active(c.writeMode);
    var i :| i in Occupied(q.entries);
    assert !q.entries[i].scheduled ==> Eligible(q.entries[i], false);
  }

  /** A cycle that neither takes a bank nor completes brings the next event one cycle closer. */
  lemma {:induction false} IdleCycleWaits(cfg: Config, c: Channel, now: nat)
    requires Inv(cfg, c) && AllTimed(c) && c.Active(c.writeMode).occupancy > 0
    requires |c.banks| == NumBanks(cfg) && Scheduled(cfg, c, now) == c && Serve(cfg, c, now).1.None?
    ensures var c' := Serve(cfg, c, now).0;
            Unscheduled(c') == Unscheduled(c) && Wait(cfg, c', now + 1) < Wait(cfg, c, now)
  {
    hide BanksOk, SlotsOk, Occupied, NoneScheduled, ScheduledIn, BankOf, EarliestOf, Scheduled, AllTimed;
    var q := c.Active(c.writeMode);
    if q.processCycle.Never? {
      SomethingWaits(cfg, c);
      if Due(q.scheduleCycle, now) {
        DueIsTaken(cfg, c, now);
      }
    }
  }

  lemma {:induction false} ServeProgress(cfg: Config, c: Channel, now: nat)
    requires Inv(cfg, c) && AllTimed(c) && c.Active(c.writeMode).occupancy > 0
    ensures |c.banks| == NumBanks(cfg)
    ensures var (c', done) := Serve(cfg, c, now);
            done.None? ==> Unscheduled(c') < Unscheduled(c)
                           || (Unscheduled(c') == Unscheduled(c) && Wait(cfg, c', now + 1) < Wait(cfg, c, now))
  {
    hide Inv, AllTimed, Wait, Scheduled, BankOf, EarliestOf;
    BanksExist(cfg, c);
    var s := Scheduled(cfg, c, now);
    ScheduledCounts(cfg, c, now);
    if s == c {
      if Serve(cfg, c, now).1.None? {
        IdleCycleWaits(cfg, c, now);
      }
    } else {
      QuietSchedule(cfg, c, now);
    }
  }

  lemma {:induction false} CycleKeepsTimes(cfg: Config, c: Channel, now: nat)
    requires |c.banks| == NumBanks(cfg) && AllTimed(c)
    ensures AllTimed(Operate(cfg, c, now).0)
  {
    hide AllTimed, Switch, Scheduled, Process;
    var d := Switch(cfg, c, now);
    SwitchKeepsTimes(cfg, c, now);
    var s := Scheduled(cfg, d, now);
    ScheduleKeepsTimes(cfg, d, now);
    if s.Active(d.writeMode).processIndex < |s.Active(d.writeMode).entries| {
      ProcessKeepsTimes(cfg, s, d.writeMode, now);
    }
  }

  lemma {:induction false} SwitchKeepsTimes(cfg: Config, c: Channel, now: nat)
    requires AllTimed(c)
    ensures AllTimed(Switch(cfg, c, now))
  {
    hide BankOf, EarliestOf, ScheduledIn, RowOf;
  }

  lemma {:induction false} ScheduleKeepsTimes(cfg: Config, c: Channel, now: nat)
    requires |c.banks| == NumBanks(cfg) && AllTimed(c)
    ensures AllTimed(Scheduled(cfg, c, now))
  {
    hide BankOf, EarliestOf, RowOf, Pickable;
  }

  lemma {:induction false} ProcessKeepsTimes(cfg: Config, c: Channel, write: bool, now: nat)
    requires |c.banks| == NumBanks(cfg) && AllTimed(c) && c.Active(write).processIndex < |c.Active(write).entries|
    ensures AllTimed(Process(cfg, c, write, now).0)
  {
    hide BankOf, EarliestOf, RowOf;
  }

  /** When no switch is due, the queue being served is not empty. */
  lemma {:induction false} ActiveNotEmpty(cfg: Config, c: Channel)
    requires Inv(cfg, c) && Total(c) > 0 && !Switching(c)
    ensures c.Active(c.writeMode).occupancy > 0
  {
    hide SlotsOk, CacheOk, BanksOk, ScheduledIn, NoneScheduled;
  }

  /** There are two write slots, or no reads that a switch of the mode could call back. */
  predicate Drainable(c: Channel) {
    |c.wq.entries| >= 2 || c.rq.occupancy == 0
  }

  /** One cycle makes the measure smaller. */
  lemma {:induction false} CycleProgress(cfg: Config, c: Channel, now: nat)
    requires Inv(cfg, c) && AllTimed(c) && Total(c) > 0 && Drainable(c)
    ensures |c.banks| == NumBanks(cfg)
    ensures var c' := Operate(cfg, c, now).0;
            && Drainable(c')
            && (Total(c') < Total(c)
                || (Total(c') == Total(c) &&
                    (if Switching(c) then !Switching(c')
                     else !Switching(c') &&
                          (Unscheduled(c') < Unscheduled(c)
                           || (Unscheduled(c') == Unscheduled(c) && Wait(cfg, c', now + 1) < Wait(cfg, c, now))))))
  {
    hide Inv, AllTimed, Wait, Serve, Unscheduled, Operate;
    BanksExist(cfg, c);
    Occupancies(cfg, c);
    NoSwitchBack(|c.wq.entries|);
    OperateKeeps(cfg, c, now);
    Occupancies(cfg, Operate(cfg, c, now).0);
    QuietCycle(cfg, c, now);
    if !Switching(c) {
      ActiveNotEmpty(cfg, c);
      OnlyServes(cfg, c, now);
      ServeProgress(cfg, c, now);
    }
  }

  lemma OnlyServes(cfg: Config, c: Channel, now: nat)
    requires |c.banks| == NumBanks(cfg) && !Switching(c)
    ensures Operate(cfg, c, now) == Serve(cfg, c, now)
  {
    hide Serve;
    assert Switch(cfg, c, now) == c;
  }

  lemma {:induction false} Occupancies(cfg: Config, c: Channel)
    requires Inv(cfg, c)
    ensures 0 <= c.rq.occupancy <= |c.rq.entries| && 0 <= c.wq.occupancy <= |c.wq.entries|
    ensures Unscheduled(c) >= 0
  {
    OccupancyBounds(c.rq);
    OccupancyBounds(c.wq);
    var q := c.Active(c.writeMode);
    Recency.SubsetSize(ScheduledIn(q.entries, |q.entries|), Occupied(q.entries));
  }

  // ---------------------------------------------------------------- draining

  /** The channel after `k` cycles without arrivals. */
  ghost function After(cfg: Config, c: Channel, now: nat, k: nat): (r: Channel)
    requires |c.banks| == NumBanks(cfg)
    ensures |r.banks| == |c.banks|
    decreases k
  {
    if k == 0 then c else After(cfg, Operate(cfg, c, now).0, now + 1, k - 1)
  }

  ghost predicate Empty(c: Channel) {
    c.rq.occupancy == 0 && c.wq.occupancy == 0
  }

  /** With at least two write slots or no reads, and a time on every request, both queues become empty. */
  lemma {:induction false} Drains(cfg: Config, c: Channel, now: nat) returns (k: nat)
    requires Inv(cfg, c) && AllTimed(c) && Drainable(c)
    ensures |c.banks| == NumBanks(cfg) && Empty(After(cfg, c, now, k))
    decreases Total(c), Switching(c), Unscheduled(c), if |c.banks| == NumBanks(cfg) then Wait(cfg, c, now) else 0
  {
    hide Inv, AllTimed, Operate, Switching, Unscheduled, Wait, Drainable;
    BanksExist(cfg, c);
    Occupancies(cfg, c);
    if Total(c) == 0 {
      k := 0;
    } else {
      var c' := Operate(cfg, c, now).0;
      OperateKeeps(cfg, c, now);
      CycleKeepsTimes(cfg, c, now);
      CycleProgress(cfg, c, now);
      Occupancies(cfg, c');
      var j := Drains(cfg, c', now + 1);
      k := j + 1;
    }
  }

  // ---------------------------------------------------------------- everything is handed out

  /** Cycles without arrivals. */
  function Ticks(k: nat): (events: seq<Event>)
    ensures |events| == k && forall i | 0 <= i < k :: Arrives(events[i])
  {
    if k == 0 then [] else [Tick] + Ticks(k - 1)
  }

  lemma {:induction false} TicksAre(cfg: Config, log: Log, k: nat)
    requires |log.chan.banks| == NumBanks(cfg)
    ensures var later := Run(cfg, log, Ticks(k));
            && later.chan == After(cfg, log.chan, log.now, k)
            && later.readsIn == log.readsIn && later.writesIn == log.writesIn
    decreases k
  {
    hide Operate;
    if k == 0 {
    } else {
      assert Ticks(k)[1..] == Ticks(k - 1);
      TicksAre(cfg, Step(cfg, log, Tick), k - 1);
    }
  }

  lemma {:induction false} NothingLeft(q: Queue)
    requires QueueOk(q) && q.occupancy == 0
    ensures Held(q.entries) == multiset{}
  {
    forall i | 0 <= i < |q.entries| ensures q.entries[i] == EMPTY {
      assert i !in Occupied(q.entries);
    }
    NothingHeld(q.entries);
  }

  /** Once arrivals stop, every request ever stored has been handed out after finitely many cycles. */
  lemma {:induction false} AllHandedOut(cfg: Config, log: Log) returns (k: nat)
    requires LogOk(cfg, log) && AllTimed(log.chan) && Drainable(log.chan)
    ensures |log.chan.banks| == NumBanks(cfg)
    ensures var later := Run(cfg, log, Ticks(k));
            && later.readsOut == later.readsIn == log.readsIn
            && later.writesOut == later.writesIn == log.writesIn
  {
    hide AllTimed, Drainable, Run, BusSpaced;
    BanksExist(cfg, log.chan);
    k := Drains(cfg, log.chan, log.now);
    TicksAre(cfg, log, k);
    RunKeeps(cfg, log, Ticks(k));
    var later := Run(cfg, log, Ticks(k));
    NothingLeft(later.chan.rq);
    NothingLeft(later.chan.wq);
  }

  /** Packets arrive with a time. */
  ghost predicate ArrivesTimed(event: Event) {
    event.Tick? || event.packet.eventCycle.At?
  }

  lemma {:induction false} InsertTimed(q: Queue, p: Packet)
    requires Timed(q.entries) && p.eventCycle.At?
    ensures Timed(Insert(q, p).0.entries) && |Insert(q, p).0.entries| == |q.entries|
  {
    hide UpdateSchedule, Find;
    UpdatedSlots(q);
  }

  lemma UpdatedSlots(q: Queue)
    ensures UpdateSchedule(q).entries == q.entries
  {
  }

  lemma {:induction false} RunTimed(cfg: Config, log: Log, events: seq<Event>)
    requires |log.chan.banks| == NumBanks(cfg) && AllTimed(log.chan)
    requires forall k | 0 <= k < |events| :: ArrivesTimed(events[k])
    ensures var c := Run(cfg, log, events).chan;
            AllTimed(c) && |c.wq.entries| == |log.chan.wq.entries|
    decreases |events|
  {
    hide Operate, AddRead, AddWrite, Timed, Switching;
    if events == [] {
    } else {
      match events[0] {
        case Tick =>
          CycleKeepsTimes(cfg, log.chan, log.now);
          QuietCycle(cfg, log.chan, log.now);
        case Read(p, warm) =>
          ReadTimed(log.chan, p, warm);
        case Write(p, warm) =>
          WriteTimed(log.chan, p, warm);
      }
      RunTimed(cfg, Step(cfg, log, events[0]), events[1..]);
    }
  }

  lemma {:induction false} ReadTimed(c: Channel, p: Packet, warm: bool)
    requires AllTimed(c) && p.eventCycle.At?
    ensures AllTimed(AddRead(c, p, warm).0) && |AddRead(c, p, warm).0.wq.entries| == |c.wq.entries|
  {
    hide Insert, Timed, Find;
    InsertTimed(c.rq, p);
  }

  lemma {:induction false} WriteTimed(c: Channel, p: Packet, warm: bool)
    requires AllTimed(c) && p.eventCycle.At?
    ensures AllTimed(AddWrite(c, p, warm).0) && |AddWrite(c, p, warm).0.wq.entries| == |c.wq.entries|
  {
    hide Insert, Timed, Find;
    InsertTimed(c.wq, p);
  }

  /** From start-up, with two write slots or more: whatever arrives, finitely many cycles after the last arrival
      every stored read and write has been handed out exactly once. */
  lemma {:induction false} ServedFromStart(cfg: Config, rqSize: nat, wqSize: nat, events: seq<Event>) returns (k: nat)
    requires wqSize >= 2 && forall i | 0 <= i < |events| :: Arrives(events[i]) && ArrivesTimed(events[i])
    ensures |StartLog(cfg, rqSize, wqSize).chan.banks| == NumBanks(cfg)
    ensures var last := Run(cfg, StartLog(cfg, rqSize, wqSize), events);
            var later := Run(cfg, last, Ticks(k));
            && later.readsOut == later.readsIn == last.readsIn
            && later.writesOut == later.writesIn == last.writesIn
  {
    var start := StartLog(cfg, rqSize, wqSize);
    StartInOrder(cfg, rqSize, wqSize);
    hide LogOk, Run;
    RunKeeps(cfg, start, events);
    RunTimed(cfg, start, events);
    k := AllHandedOut(cfg, Run(cfg, start, events));
  }

  // ---------------------------------------------------------------- and why two write slots are needed

  /** Right after a switch nothing is scheduled, and what is scheduled next needs at least tCAS. */
  lemma {:induction false} NothingDueAfterSwitch(cfg: Config, c: Channel, now: nat)
    requires Inv(cfg, c) && Switching(c) && cfg.tCAS > 0
    ensures |c.banks| == NumBanks(cfg) && Operate(cfg, c, now).1.None?
  {
    hide Inv, Switch, Scheduled, Switching, BankOf;
    BanksExist(cfg, c);
    var d := Switch(cfg, c, now);
    SwitchKeeps(cfg, c, now);
    NoneAfterSwitch(cfg, c, now);
    var s := Scheduled(cfg, d, now);
    LaterAfterSchedule(cfg, d, now);
    QuietSchedule(cfg, d, now);
    NotDue(cfg, s, now);
  }

  lemma {:induction false} NoneAfterSwitch(cfg: Config, c: Channel, now: nat)
    requires Inv(cfg, c) && Switching(c)
    ensures NoneScheduled(Switch(cfg, c, now).Active(Switch(cfg, c, now).writeMode).entries)
  {
    hide SlotsOk, CacheOk, BanksOk, ScheduledIn, BankOf, EarliestOf, RowOf;
  }

  lemma {:induction false} LaterAfterSchedule(cfg: Config, c: Channel, now: nat)
    requires |c.banks| == NumBanks(cfg) && cfg.tCAS > 0 && Inv(cfg, c) && NoneScheduled(c.Active(c.writeMode).entries)
    ensures var s := Scheduled(cfg, c, now);
            && Inv(cfg, s)
            && forall i | 0 <= i < |s.Active(c.writeMode).entries| && s.Active(c.writeMode).entries[i].scheduled ::
                 !Due(s.Active(c.writeMode).entries[i].eventCycle, now)
  {
    hide Inv, Pick, Take, NoneScheduled, Pickable;
    ScheduleKeeps(cfg, c, now);
    var q := c.Active(c.writeMode);
    var hit := Pick(cfg, q.entries, c.banks, |q.entries|, true);
    var k := if hit < |q.entries| then hit else Pick(cfg, q.entries, c.banks, |q.entries|, false);
    NoneDue(q.entries, now);
    if k < |q.entries| {
      LaterAfterTake(cfg, c, k, hit < |q.entries|, now);
    }
  }

  lemma NoneDue(entries: seq<Packet>, now: nat)
    requires NoneScheduled(entries)
    ensures forall i | 0 <= i < |entries| && entries[i].scheduled :: !Due(entries[i].eventCycle, now)
  {
  }

  lemma {:induction false} LaterAfterTake(cfg: Config, c: Channel, k: nat, hit: bool, now: nat)
    requires |c.banks| == NumBanks(cfg) && k < |c.Active(c.writeMode).entries| && cfg.tCAS > 0
    requires NoneScheduled(c.Active(c.writeMode).entries)
    ensures var entries := Take(cfg, c, c.writeMode, k, hit, now).Active(c.writeMode).entries;
            forall i | 0 <= i < |entries| && entries[i].scheduled :: !Due(entries[i].eventCycle, now)
  {
    hide BankOf, EarliestOf, RowOf, UpdateSchedule, UpdateProcess;
  }

  lemma {:induction false} NotDue(cfg: Config, c: Channel, now: nat)
    requires Inv(cfg, c)
    requires forall i | 0 <= i < |c.Active(c.writeMode).entries| && c.Active(c.writeMode).entries[i].scheduled ::
               !Due(c.Active(c.writeMode).entries[i].eventCycle, now)
    ensures !Due(c.Active(c.writeMode).processCycle, now)
  {
  }

  /** With fewer than two write slots, and accesses that take time, an empty write queue switches the mode
      in every cycle and calls every read back: nothing ever completes, and no read leaves. */
  lemma {:induction false} SwitchesForEver(cfg: Config, c: Channel, now: nat, k: nat)
    requires Inv(cfg, c) && |c.wq.entries| < 2 && c.wq.occupancy == 0 && cfg.tCAS > 0
    ensures |c.banks| == NumBanks(cfg)
    ensures var c' := After(cfg, c, now, k);
            && |c'.banks| == NumBanks(cfg) && Switching(c') && Operate(cfg, c', now + k).1.None?
            && c'.rq.occupancy == c.rq.occupancy && c'.wq.occupancy == 0
            && c'.writeMode == if k % 2 == 0 then c.writeMode else !c.writeMode
    decreases k
  {
    hide Inv, Operate;
    BanksExist(cfg, c);
    assert Switching(c);
    NothingDueAfterSwitch(cfg, c, now);
    QuietCycle(cfg, c, now);
    if k == 0 {
    } else {
      OperateKeeps(cfg, c, now);
      SwitchesForEver(cfg, Operate(cfg, c, now).0, now + 1, k - 1);
    }
  }

  /** With fewer than two write slots no read leaves in a cycle: in read mode the mode switches at once. */
  lemma {:induction false} ReadStays(cfg: Config, c: Channel, now: nat)
    requires Inv(cfg, c) && |c.wq.entries| < 2 && cfg.tCAS > 0
    ensures |c.banks| == NumBanks(cfg) && Inv(cfg, Operate(cfg, c, now).0)
    ensures var c' := Operate(cfg, c, now).0;
            c'.rq.occupancy == c.rq.occupancy && |c'.wq.entries| == |c.wq.entries|
  {
    hide Operate;
    BanksExist(cfg, c);
    Occupancies(cfg, c);
    hide Inv;
    if Switching(c) {
      NothingDueAfterSwitch(cfg, c, now);
    }
    QuietCycle(cfg, c, now);
    OperateKeeps(cfg, c, now);
  }

  lemma {:induction false} ReadsStay(cfg: Config, c: Channel, now: nat, k: nat)
    requires Inv(cfg, c) && |c.wq.entries| < 2 && cfg.tCAS > 0
    ensures |c.banks| == NumBanks(cfg) && After(cfg, c, now, k).rq.occupancy == c.rq.occupancy
    decreases k
  {
    hide Inv, Operate;
    ReadStays(cfg, c, now);
    if k == 0 {
    } else {
      ReadsStay(cfg, Operate(cfg, c, now).0, now + 1, k - 1);
    }
  }

  /** Without arrivals a channel becomes empty, if accesses take time, if and only if it has two write slots
      or more, or no reads. */
  lemma {:induction false} DrainsExactly(cfg: Config, c: Channel, now: nat)
    requires Inv(cfg, c) && AllTimed(c) && cfg.tCAS > 0
    ensures |c.banks| == NumBanks(cfg)
    ensures (exists k: nat :: Empty(After(cfg, c, now, k))) <==> Drainable(c)
  {
    hide Inv, AllTimed, Operate, After;
    BanksExist(cfg, c);
    if Drainable(c) {
      var k := Drains(cfg, c, now);
    } else {
      forall k: nat ensures !Empty(After(cfg, c, now, k)) {
        ReadsStay(cfg, c, now, k);
      }
    }
  }

  /** A controller as built with fewer than two write slots, after one read: the read waits for ever. */
  lemma {:induction false} OneReadNeverDrains(cfg: Config, rqSize: nat, wqSize: nat, p: Packet, now: nat)
    requires cfg.tCAS > 0 && rqSize > 0 && wqSize < 2
    requires p.address != 0 && !p.scheduled && p.eventCycle.At?
    ensures var (c, a) := AddRead(Start(cfg, rqSize, wqSize), p, true);
            && a == Stored(0) && Inv(cfg, c) && AllTimed(c) && c.rq.entries[0] == p && |c.banks| == NumBanks(cfg)
            && forall k: nat :: After(cfg, c, now, k).rq.occupancy == 1
  {
    var start := Start(cfg, rqSize, wqSize);
    var (c, a) := AddRead(start, p, true);
    InvAtStart(cfg, rqSize, wqSize);
    ArrivalKeeps(cfg, start, p, false);
    FirstSlot(rqSize, p);
    BanksExist(cfg, c);
    hide Inv, After;
    forall k: nat ensures After(cfg, c, now, k).rq.occupancy == 1 {
      ReadsStay(cfg, c, now, k);
    }
  }

  /** The search in a queue as built: no slot has the address, and the first is free. */
  lemma {:induction false} FirstSlot(size: nat, p: Packet)
    requires size > 0 && p.address != 0
    ensures Find(seq(size, _ => EMPTY), p.address, size) == size && Find(seq(size, _ => EMPTY), 0, size) == 0
  {
    hide Find;
    assert seq(size, _ => EMPTY)[0].address == 0;
  }
}
