/** The DRAM controller's own loops (src/dram_controller.cc, src/block.cc) for one channel, over slot
    arrays and a bank array, proved against the functions of Dram.
 */
module DramController {
  import opened Options
  import opened Dram

  /** PACKET_QUEUE as the DRAM controller uses it: slots, not a ring. */
  class PacketQueue {
    const entry: array<Packet>
    var occupancy: int
    var scheduleIndex: nat
    var scheduleCycle: Cycle
    var processIndex: nat
    var processCycle: Cycle

    ghost function View(): Queue
      reads this, entry
    {
      Queue(entry[..], occupancy, scheduleIndex, scheduleCycle, processIndex, processCycle)
    }

    constructor (size: nat)
      ensures View() == Queue(seq(size, _ => EMPTY), 0, 0, Never, 0, Never)
      ensures fresh(entry)
    {
      entry := new Packet[size](_ => EMPTY);
      occupancy, scheduleIndex, scheduleCycle, processIndex, processCycle := 0, 0, Never, 0, Never;
      new;
      assert entry[..] == seq(size, _ => EMPTY);
    }

    /** The first of the earliest slots that may be scheduled, or processed. */
    method Earliest(process: bool) returns (minIndex: nat, minCycle: Cycle)
      ensures minIndex == EarliestOf(entry[..], entry.Length, process)
      ensures minCycle == CycleAt(entry[..], minIndex)
    {
      minCycle := Never;
      minIndex := entry.Length;
      for i := 0 to entry.Length
        invariant minIndex == EarliestOf(entry[..], i, process)
        invariant minCycle == CycleAt(entry[..], minIndex)
      {
        var candidate := if process then entry[i].scheduled else entry[i].address != 0 && !entry[i].scheduled;
        if candidate && Earlier(entry[i].eventCycle, minCycle) {
          minCycle := entry[i].eventCycle;
          minIndex := i;
        }
      }
    }

    method UpdateScheduleCycle()
      modifies this`scheduleIndex, this`scheduleCycle
      ensures View() == UpdateSchedule(old(View()))
    {
      var minIndex, minCycle := Earliest(false);
      scheduleCycle := minCycle;
      scheduleIndex := minIndex;
    }

    method UpdateProcessCycle()
      modifies this`processIndex, this`processCycle
      ensures View() == UpdateProcess(old(View()))
    {
      var minIndex, minCycle := Earliest(true);
      processCycle := minCycle;
      processIndex := minIndex;
    }

    method CheckQueue(address: nat) returns (index: int)
      ensures var k := Find(entry[..], address, entry.Length);
              index == if k < entry.Length then k else -1
    {
      var i: nat := 0;
      while i < entry.Length
        invariant i <= entry.Length && Find(entry[..], address, i) == entry.Length
      {
        if entry[i].address == address {
          FindStops(entry[..], address, i, entry.Length);
          return i;
        }
        i := i + 1;
      }
      index := -1;
    }

    /** remove_queue of one slot. */
    method RemoveQueue(k: nat)
      requires k < entry.Length && occupancy > 0
      modifies this`occupancy, entry
      ensures View() == old(View()).(entries := old(entry[..])[k := EMPTY], occupancy := old(occupancy) - 1)
    {
      entry[k] := EMPTY;
      occupancy := occupancy - 1;
    }

    /** The tail of add_rq and add_wq: merge, or store in the first empty slot. */
    method Arrive(p: Packet) returns (a: Arrival)
      modifies this`occupancy, this`scheduleIndex, this`scheduleCycle, entry
      ensures (View(), a) == Insert(old(View()), p)
    {
      var index := CheckQueue(p.address);
      if index != -1 {
        return Merged(index);
      }
      a := Dropped;
      ghost var q := View();
      var i: nat := 0;
      while i < entry.Length
        invariant i <= entry.Length && a == Dropped && View() == q
        invariant Find(q.entries, 0, i) == entry.Length
      {
        if entry[i].address == 0 {
          FindStops(entry[..], 0, i, entry.Length);
          entry[i] := p;
          occupancy := occupancy + 1;
          a := Stored(i);
          assert entry[..] == q.entries[i := p];
          break;
        }
        i := i + 1;
      }
      UpdateScheduleCycle();
    }
  }

  /** Once a slot with the address is found, looking further changes nothing. */
  lemma {:induction false} FindStops(entries: seq<Packet>, address: nat, i: nat, n: nat)
    requires i < n <= |entries| && entries[i].address == address && Find(entries, address, i) == |entries|
    ensures Find(entries, address, n) == i
    decreases n
  {
    if n <= i + 1 {
    } else {
      FindStops(entries, address, i, n - 1);
    }
  }

  /** MEMORY_CONTROLLER, restricted to one channel. */
  class MemoryController {
    const cfg: Config
    const rq: PacketQueue
    const wq: PacketQueue
    const bank: array<Bank>
    var writeMode: bool
    var scheduledReads: int
    var scheduledWrites: int
    var busFree: nat

    ghost function View(): Channel
      reads this, rq, wq, rq.entry, wq.entry, bank
    {
      Channel(writeMode, rq.View(), wq.View(), bank[..], scheduledReads, scheduledWrites, busFree)
    }

    /** The arrays are the controller's own. */
    ghost predicate Separate() {
      rq != wq && rq.entry != wq.entry && bank.Length == NumBanks(cfg)
    }

    ghost predicate Valid()
      reads this, rq, wq, rq.entry, wq.entry, bank
    {
      Separate() && Inv(cfg, View())
    }

    constructor (cfg: Config, rqSize: nat, wqSize: nat)
      ensures Valid() && this.cfg == cfg && View() == Start(cfg, rqSize, wqSize)
      ensures fresh(rq) && fresh(wq) && fresh(rq.entry) && fresh(wq.entry) && fresh(bank)
    {
      this.cfg := cfg;
      rq := new PacketQueue(rqSize);
      wq := new PacketQueue(wqSize);
      bank := new Bank[NumBanks(cfg)](_ => Bank(false, 0, NO_ROW, -1, false, false, false));
      writeMode, scheduledReads, scheduledWrites, busFree := false, 0, 0, 0;
      new;
      assert bank[..] == seq(NumBanks(cfg), _ => Bank(false, 0, NO_ROW, -1, false, false, false));
      assert View() == Start(cfg, rqSize, wqSize);
      InvAtStart(cfg, rqSize, wqSize);
    }

    function QueueOf(write: bool): PacketQueue {
      if write then wq else rq
    }

    // -------------------------------------------------------------- schedule

    /** One pass of schedule(): the oldest entry with an idle bank, and with its row open if asked. */
    method Scan(write: bool, hitOnly: bool) returns (oldest: int)
      requires Separate()
      ensures var entries := QueueOf(write).entry[..];
              var k := Pick(cfg, entries, bank[..], |entries|, hitOnly);
              oldest == if k < |entries| then k else -1
    {
      var q := QueueOf(write);
      oldest := -1;
      var oldestCycle := Never;
      for i := 0 to q.entry.Length
        invariant oldest == if Pick(cfg, q.entry[..], bank[..], i, hitOnly) < q.entry.Length
                            then Pick(cfg, q.entry[..], bank[..], i, hitOnly) else -1
        invariant oldestCycle == CycleAt(q.entry[..], Pick(cfg, q.entry[..], bank[..], i, hitOnly))
      {
        if q.entry[i].scheduled {
          continue;
        }
        if q.entry[i].address == 0 {
          continue;
        }
        var b := BankOf(cfg, q.entry[i].address);
        if bank[b].working {
          continue;
        }
        if hitOnly && bank[b].openRow != RowOf(cfg, q.entry[i].address) {
          continue;
        }
        if Earlier(q.entry[i].eventCycle, oldestCycle) {
          oldestCycle := q.entry[i].eventCycle;
          oldest := i;
        }
      }
    }

    /** schedule(). */
    method ScheduleQueue(write: bool, now: nat)
      requires Separate()
      modifies QueueOf(write)`scheduleIndex, QueueOf(write)`scheduleCycle, QueueOf(write)`processIndex,
               QueueOf(write)`processCycle, QueueOf(write).entry, bank, this`scheduledReads, this`scheduledWrites
      ensures View() == Schedule(cfg, old(View()), write, now)
    {
      var q := QueueOf(write);
      var hit := true;
      var oldest := Scan(write, true);
      if oldest == -1 {
        hit := false;
        oldest := Scan(write, false);
      }
      if oldest != -1 {
        TakeBank(write, oldest, hit, now);
      }
    }

    method TakeBank(write: bool, k: nat, hit: bool, now: nat)
      requires Separate() && k < QueueOf(write).entry.Length
      modifies QueueOf(write)`scheduleIndex, QueueOf(write)`scheduleCycle, QueueOf(write)`processIndex,
               QueueOf(write)`processCycle, QueueOf(write).entry, bank, this`scheduledReads, this`scheduledWrites
      ensures View() == Take(cfg, old(View()), write, k, hit, now)
    {
      hide BankOf, RowOf, UpdateSchedule, UpdateProcess, NumBanks;
      ghost var c := View();
      var q := QueueOf(write);
      var latency := if hit then cfg.tCAS else cfg.tRP + cfg.tRCD + cfg.tCAS;
      var address := q.entry[k].address;
      var b := BankOf(cfg, address);
      bank[b] := bank[b].(working := true, cycleAvailable := now + latency, requestIndex := k, rowBufferHit := hit,
                          isWrite := write, isRead := !write);
      if write {
        scheduledWrites := scheduledWrites + 1;
      } else {
        scheduledReads := scheduledReads + 1;
      }
      bank[b] := bank[b].(openRow := RowOf(cfg, address));
      q.entry[k] := q.entry[k].(scheduled := true, eventCycle := At(now + latency));
      assert q.entry[..] == c.Active(write).entries[k := q.entry[k]];
      assert bank[..] == c.banks[b := bank[b]];
      q.UpdateScheduleCycle();
      q.UpdateProcessCycle();
    }

    // -------------------------------------------------------------- process

    /** process(). */
    method ProcessQueue(write: bool, now: nat) returns (done: Option<Packet>)
      requires Separate() && QueueOf(write).processIndex < QueueOf(write).entry.Length && QueueOf(write).occupancy > 0
      modifies QueueOf(write)`occupancy, QueueOf(write)`processIndex, QueueOf(write)`processCycle,
               QueueOf(write).entry, bank, this`scheduledReads, this`scheduledWrites, this`busFree
      ensures (View(), done) == Process(cfg, old(View()), write, now)
    {
      hide BankOf, RowOf, UpdateSchedule, UpdateProcess, NumBanks;
      ghost var c := View();
      done := None;
      var q := QueueOf(write);
      var k := q.processIndex;
      var b := BankOf(cfg, q.entry[k].address);
      if bank[b].cycleAvailable <= now {
        if busFree <= now {
          busFree := now + cfg.returnTime;
          if !write {
            q.entry[k] := q.entry[k].(eventCycle := At(busFree));
          }
          done := Some(q.entry[k]);
          bank[b] := bank[b].(requestIndex := -1, rowBufferHit := false, working := false,
                              isWrite := false, isRead := false);
          if write {
            scheduledWrites := scheduledWrites - 1;
          } else {
            scheduledReads := scheduledReads - 1;
          }
          q.RemoveQueue(k);
          assert q.entry[..] == c.Active(write).entries[k := EMPTY];
          assert bank[..] == c.banks[b := Freed(c.banks[b])];
          q.UpdateProcessCycle();
        } else {
          bank[b] := bank[b].(cycleAvailable := busFree);
          assert bank[..] == c.banks[b := bank[b]];
        }
      }
    }

    // -------------------------------------------------------------- switching

    /** reset_remain_requests(): every scheduled request of the queue is called back. */
    method ResetRemainRequests(write: bool, now: nat)
      requires Separate() && BanksOk(cfg, QueueOf(write).entry[..], bank[..], write)
      modifies rq`scheduleIndex, rq`scheduleCycle, rq`processIndex, rq`processCycle, wq`scheduleIndex, wq`scheduleCycle,
               wq`processIndex, wq`processCycle, QueueOf(write).entry, bank, this`scheduledReads, this`scheduledWrites
      ensures View() == ResetRemain(cfg, old(View()), write, now)
    {
      hide ResetUpTo, BanksOk, BankOf, RowOf, UpdateSchedule, UpdateProcess, NumBanks, OneCalledBack;
      ghost var c := View();
      var q := QueueOf(write);
      ResetStarts(cfg, c, write, now);
      for i := 0 to q.entry.Length
        invariant View() == ResetUpTo(cfg, c, write, i, now)
      {
        ResetStep(cfg, c, write, i, now);
        if q.entry[i].scheduled {
          CallBack(write, i, now);
        }
      }
      rq.UpdateScheduleCycle();
      wq.UpdateScheduleCycle();
      rq.UpdateProcessCycle();
      wq.UpdateProcessCycle();
    }

    /** The bank of a request that is called back: its row is open if the access has come that far. */
    method FreeBank(b: nat, row: nat, now: nat)
      requires b < bank.Length && bank[b].cycleAvailable >= cfg.tCAS
      modifies bank
      ensures bank[..] == old(bank[..])[b := old(bank[b]).(
                openRow := if old(bank[b]).cycleAvailable - cfg.tCAS <= now then row else NO_ROW,
                requestIndex := -1, rowBufferHit := false, working := false, cycleAvailable := now)]
    {
      if bank[b].cycleAvailable - cfg.tCAS <= now {
        bank[b] := bank[b].(openRow := row);
      } else {
        bank[b] := bank[b].(openRow := NO_ROW);
      }
      bank[b] := bank[b].(requestIndex := -1, rowBufferHit := false, working := false, cycleAvailable := now);
    }

    method CallBack(write: bool, i: nat, now: nat)
      requires Separate() && i < QueueOf(write).entry.Length && QueueOf(write).entry[i].scheduled
      requires var b := bank[BankOf(cfg, QueueOf(write).entry[i].address)];
               b.cycleAvailable >= cfg.tCAS && b.isWrite == write && b.isRead == !write
      modifies QueueOf(write).entry, bank, this`scheduledReads, this`scheduledWrites
      ensures View() == OneCalledBack(cfg, old(View()), write, i, now)
    {
      hide BankOf, RowOf, NumBanks;
      ghost var c := View();
      var q := QueueOf(write);
      var address := q.entry[i].address;
      var b := BankOf(cfg, address);
      FreeBank(b, RowOf(cfg, address), now);
      if bank[b].isWrite {
        scheduledWrites := scheduledWrites - 1;
        bank[b] := bank[b].(isWrite := false);
      } else if bank[b].isRead {
        scheduledReads := scheduledReads - 1;
        bank[b] := bank[b].(isRead := false);
      }
      q.entry[i] := q.entry[i].(scheduled := false);
      q.entry[i] := q.entry[i].(eventCycle := At(now));
      assert q.entry[..] == c.Active(write).entries[i := q.entry[i]];
      assert bank[..] == c.banks[b := bank[b]];
    }

    // -------------------------------------------------------------- operate

    /** The first half of operate(): change the mode if it is time. */
    method SwitchMode(now: nat)
      requires Valid()
      modifies this, rq, wq, rq.entry, wq.entry, bank
      ensures Valid() && View() == Switch(cfg, old(View()), now)
    {
      hide Inv, ResetRemain, BankOf, NumBanks, HighWatermark, LowWatermark;
      ghost var c := View();
      SwitchKeeps(cfg, c, now);
      ActiveBanks(cfg, c);
      if !writeMode && (wq.occupancy >= HighWatermark(wq.entry.Length) || (rq.occupancy == 0 && wq.occupancy > 0)) {
        writeMode := true;
        ResetRemainRequests(false, now);
        busFree := busFree + cfg.turnAround;
      } else if writeMode {
        if wq.occupancy == 0 {
          writeMode := false;
        } else if rq.occupancy != 0 && wq.occupancy < LowWatermark(wq.entry.Length) {
          writeMode := false;
        }
        if !writeMode {
          ResetRemainRequests(true, now);
          busFree := busFree + cfg.turnAround;
        }
      }
    }

    /** The second half of operate(): schedule and process in the queue of the mode. */
    method ServeQueue(now: nat) returns (done: Option<Packet>)
      requires Valid()
      modifies this, rq, wq, rq.entry, wq.entry, bank
      ensures Separate() && (View(), done) == Serve(cfg, old(View()), now)
    {
      hide Inv, Schedule, Process, BankOf, NumBanks;
      ghost var d := View();
      done := None;
      ScheduleKeeps(cfg, d, now);
      ScheduleMode(cfg, d, now);
      if writeMode {
        if wq.scheduleIndex < wq.entry.Length && Due(wq.scheduleCycle, now) {
          ScheduleQueue(true, now);
        }
        NextIsHeld(cfg, View(), now);
        if wq.processIndex < wq.entry.Length && Due(wq.processCycle, now) {
          done := ProcessQueue(true, now);
        }
      } else {
        if rq.scheduleIndex < rq.entry.Length && Due(rq.scheduleCycle, now) {
          ScheduleQueue(false, now);
        }
        NextIsHeld(cfg, View(), now);
        if rq.processIndex < rq.entry.Length && Due(rq.processCycle, now) {
          done := ProcessQueue(false, now);
        }
      }
    }

    /** operate() of the channel. */
    method OperateChannel(now: nat) returns (done: Option<Packet>)
      requires Valid()
      modifies this, rq, wq, rq.entry, wq.entry, bank
      ensures Valid() && (View(), done) == Operate(cfg, old(View()), now)
    {
      hide Inv, Switch, Serve;
      OperateKeeps(cfg, View(), now);
      SwitchMode(now);
      done := ServeQueue(now);
    }

    // -------------------------------------------------------------- arrivals

    method AddRq(p: Packet, warm: bool) returns (a: Arrival)
      requires Valid() && !p.scheduled
      modifies rq, rq.entry
      ensures Valid() && (View(), a) == AddRead(old(View()), p, warm)
    {
      ArrivalKeeps(cfg, View(), p, false);
      if !warm {
        return ReturnedAtOnce;
      }
      var w := wq.CheckQueue(p.address);
      if w != -1 {
        return Forwarded(wq.entry[w].data);
      }
      hide Inv, Insert;
      a := rq.Arrive(p);
    }

    method AddWq(p: Packet, warm: bool) returns (a: Arrival)
      requires Valid() && !p.scheduled
      modifies wq, wq.entry
      ensures Valid() && (View(), a) == AddWrite(old(View()), p, warm)
    {
      ArrivalKeeps(cfg, View(), p, true);
      if !warm {
        return Dropped;
      }
      hide Inv, Insert;
      a := wq.Arrive(p);
    }
  }

  /** One scheduled request is called back. */
  function OneCalledBack(cfg: Config, c: Channel, write: bool, i: nat, now: nat): Channel
    requires |c.banks| == NumBanks(cfg) && i < |c.Active(write).entries|
  {
    var q := c.Active(write);
    var b := BankOf(cfg, q.entries[i].address);
    c.(banks := c.banks[b := CalledBack(cfg, c.banks[b], q.entries[i].address, now)])
     .WithCount(write, c.Count(write) - 1)
     .WithQueue(write, q.(entries := q.entries[i := q.entries[i].(scheduled := false, eventCycle := At(now))]))
  }

  lemma {:induction false} ResetStarts(cfg: Config, c: Channel, write: bool, now: nat)
    requires BanksOk(cfg, c.Active(write).entries, c.banks, write)
    ensures ResetUpTo(cfg, c, write, 0, now) == c
  {
    hide BankOf;
    var r := ResetUpTo(cfg, c, write, 0, now);
    assert ScheduledIn(c.Active(write).entries, 0) == {};
    assert r.Active(write).entries == c.Active(write).entries;
    assert r.banks == c.banks;
  }

  /** The loop of reset_remain_requests() moves the closed form one slot on. */
  lemma {:induction false} ResetStep(cfg: Config, c: Channel, write: bool, i: nat, now: nat)
    requires BanksOk(cfg, c.Active(write).entries, c.banks, write) && i < |c.Active(write).entries|
    ensures var m, q := ResetUpTo(cfg, c, write, i, now), c.Active(write);
            && |m.banks| == NumBanks(cfg) && |m.Active(write).entries| == |q.entries|
            && m.Active(write).entries[i] == q.entries[i]
            && (q.entries[i].scheduled ==>
                  && m.banks[BankOf(cfg, q.entries[i].address)] == c.banks[BankOf(cfg, q.entries[i].address)]
                  && c.banks[BankOf(cfg, q.entries[i].address)].cycleAvailable >= cfg.tCAS
                  && c.banks[BankOf(cfg, q.entries[i].address)].isWrite == write
                  && c.banks[BankOf(cfg, q.entries[i].address)].isRead == !write)
            && ResetUpTo(cfg, c, write, i + 1, now)
               == (if q.entries[i].scheduled then OneCalledBack(cfg, m, write, i, now) else m)
  {
    hide BankOf, RowOf, ScheduledIn;
    var m, q, r := ResetUpTo(cfg, c, write, i, now), c.Active(write), ResetUpTo(cfg, c, write, i + 1, now);
    ScheduledStep(q.entries, i);
    ResetStepBanks(cfg, c, write, i, now);
    if q.entries[i].scheduled {
      assert r.Active(write).entries == OneCalledBack(cfg, m, write, i, now).Active(write).entries;
    } else {
      assert r.Active(write).entries == m.Active(write).entries;
    }
  }

  lemma {:induction false} ScheduledStep(entries: seq<Packet>, i: nat)
    requires i < |entries|
    ensures |ScheduledIn(entries, i + 1)| == |ScheduledIn(entries, i)| + (if entries[i].scheduled then 1 else 0)
  {
    assert ScheduledIn(entries, i + 1) == ScheduledIn(entries, i) + (if entries[i].scheduled then {i} else {});
  }

  lemma {:induction false} ResetStepBanks(cfg: Config, c: Channel, write: bool, i: nat, now: nat)
    requires BanksOk(cfg, c.Active(write).entries, c.banks, write) && i < |c.Active(write).entries|
    ensures var m, e := ResetUpTo(cfg, c, write, i, now), c.Active(write).entries[i];
            && |m.banks| == |c.banks| == NumBanks(cfg)
            && (e.scheduled ==>
                  && c.banks[BankOf(cfg, e.address)].cycleAvailable >= cfg.tCAS
                  && c.banks[BankOf(cfg, e.address)].isWrite == write
                  && c.banks[BankOf(cfg, e.address)].isRead == !write
                  && m.banks[BankOf(cfg, e.address)] == c.banks[BankOf(cfg, e.address)])
            && ResetUpTo(cfg, c, write, i + 1, now).banks
               == (if e.scheduled
                   then m.banks[BankOf(cfg, e.address) :=
                          CalledBack(cfg, m.banks[BankOf(cfg, e.address)], e.address, now)]
                   else m.banks)
  {
    hide BankOf, RowOf, ScheduledIn, CalledBack;
  }

  lemma {:induction false} ActiveBanks(cfg: Config, c: Channel)
    requires Inv(cfg, c)
    ensures BanksOk(cfg, c.Active(c.writeMode).entries, c.banks, c.writeMode)
  {
  }

  /** The sanity check of remove_queue: the queue the next entry comes from is not empty. */
  lemma {:induction false} NextIsHeld(cfg: Config, c: Channel, now: nat)
    requires Inv(cfg, c)
    ensures Due(c.Active(c.writeMode).processCycle, now) ==> c.Active(c.writeMode).occupancy > 0
  {
    if Due(c.Active(c.writeMode).processCycle, now) {
      assert c.Active(c.writeMode).processIndex in Occupied(c.Active(c.writeMode).entries);
    }
  }
}
