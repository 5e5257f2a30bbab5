/** One channel of the DRAM controller (src/dram_controller.cc) as a value: two slot queues, the
    banks, the read/write mode and the data bus, and what each operation does to them.
 */
module Dram {
  import opened Arithmetic
  import opened Options
  import Recency

  /** A point in time; Never stands for UINT64_MAX, the stamp of an entry without a time. */
  datatype Cycle = At(t: nat) | Never

  predicate Due(c: Cycle, now: nat) {
    c.At? && c.t <= now
  }

  predicate Earlier(a: Cycle, b: Cycle) {
    a.At? && (b.Never? || a.t < b.t)
  }

  /** A request; address 0 marks an empty slot. */
  datatype Packet = Packet(id: nat, address: nat, data: nat, eventCycle: Cycle, scheduled: bool)

  const EMPTY: Packet := Packet(0, 0, 0, Never, false)

  datatype Bank = Bank(working: bool, cycleAvailable: nat, openRow: nat, requestIndex: int,
                       rowBufferHit: bool, isWrite: bool, isRead: bool)

  /** No row is open (UINT32_MAX). */
  const NO_ROW: nat := 0xFFFF_FFFF

  datatype Queue = Queue(entries: seq<Packet>, occupancy: int,
                         scheduleIndex: nat, scheduleCycle: Cycle,
                         processIndex: nat, processCycle: Cycle)

  datatype Channel = Channel(writeMode: bool, rq: Queue, wq: Queue, banks: seq<Bank>,
                             scheduledReads: int, scheduledWrites: int, busFree: nat)
  {
    function Active(write: bool): Queue {
      if write then wq else rq
    }

    function WithQueue(write: bool, q: Queue): Channel {
      if write then this.(wq := q) else this.(rq := q)
    }

    function Count(write: bool): int {
      if write then scheduledWrites else scheduledReads
    }

    function WithCount(write: bool, n: int): Channel {
      if write then this.(scheduledWrites := n) else this.(scheduledReads := n)
    }
  }

  /** Timing, and the widths in bits of the address fields, from the least significant one on. */
  datatype Config = Config(tRP: nat, tRCD: nat, tCAS: nat, returnTime: nat, turnAround: nat,
                           logChannels: nat, logBanks: nat, logColumns: nat, logRanks: nat, logRows: nat)

  // ---------------------------------------------------------------- address fields

  function Field(address: nat, shift: nat, width: nat): (f: nat)
    ensures f < Pow2(width)
  {
    (address / Pow2(shift)) % Pow2(width)
  }

  function NumBanks(cfg: Config): nat {
    Pow2(cfg.logRanks) * Pow2(cfg.logBanks)
  }

  /** The bank of an address, ranks first: one index for bank_request[channel][rank][bank]. */
  function BankOf(cfg: Config, address: nat): (b: nat)
    ensures b < NumBanks(cfg)
  {
    var bank := Field(address, cfg.logChannels, cfg.logBanks);
    var rank := Field(address, cfg.logColumns + cfg.logBanks + cfg.logChannels, cfg.logRanks);
    InMatrix(rank, Pow2(cfg.logRanks), bank, Pow2(cfg.logBanks));
    rank * Pow2(cfg.logBanks) + bank
  }

  lemma InMatrix(i: nat, m: nat, j: nat, n: nat)
    requires i < m && j < n
    ensures i * n + j < m * n
  {
    assert (i + 1) * n <= m * n;
  }

  function RowOf(cfg: Config, address: nat): nat {
    Field(address, cfg.logRanks + cfg.logColumns + cfg.logBanks + cfg.logChannels, cfg.logRows)
  }

  // ---------------------------------------------------------------- scans for the earliest entry

  /** May the scan for the next entry to process (or, else, to schedule) pick this slot? */
  predicate Eligible(e: Packet, process: bool) {
    if process then e.scheduled && e.eventCycle.At?
    else e.address != 0 && !e.scheduled && e.eventCycle.At?
  }

  /** The first of the earliest eligible slots among the first `n`, or |entries| when there is none. */
  function EarliestOf(entries: seq<Packet>, n: nat, process: bool): (k: nat)
    requires n <= |entries|
    ensures k == |entries| || (k < n && Eligible(entries[k], process))
    ensures k == |entries| ==> forall i | 0 <= i < n :: !Eligible(entries[i], process)
    ensures k < |entries| ==> forall i | 0 <= i < n && Eligible(entries[i], process) ::
                                && entries[k].eventCycle.t <= entries[i].eventCycle.t
                                && (i < k ==> entries[k].eventCycle.t < entries[i].eventCycle.t)
  {
    if n == 0 then |entries| else
    var k := EarliestOf(entries, n - 1, process);
    if Eligible(entries[n - 1], process)
       && (k == |entries| || Earlier(entries[n - 1].eventCycle, entries[k].eventCycle))
    then n - 1 else k
  }

  function CycleAt(entries: seq<Packet>, k: nat): Cycle {
    if k < |entries| then entries[k].eventCycle else Never
  }

  function UpdateSchedule(q: Queue): (r: Queue)
    ensures r.entries == q.entries && r.occupancy == q.occupancy
    ensures r.processIndex == q.processIndex && r.processCycle == q.processCycle
  {
    var k := EarliestOf(q.entries, |q.entries|, false);
    q.(scheduleIndex := k, scheduleCycle := CycleAt(q.entries, k))
  }

  function UpdateProcess(q: Queue): (r: Queue)
    ensures r.entries == q.entries && r.occupancy == q.occupancy
    ensures r.scheduleIndex == q.scheduleIndex && r.scheduleCycle == q.scheduleCycle
  {
    var k := EarliestOf(q.entries, |q.entries|, true);
    q.(processIndex := k, processCycle := CycleAt(q.entries, k))
  }

  // ---------------------------------------------------------------- scheduling

  /** May schedule() pick this slot: waiting, its bank idle, and on the row-hit pass its row open? */
  predicate Pickable(cfg: Config, e: Packet, banks: seq<Bank>, hitOnly: bool)
    requires |banks| == NumBanks(cfg)
  {
    && !e.scheduled && e.address != 0 && !banks[BankOf(cfg, e.address)].working && e.eventCycle.At?
    && (hitOnly ==> banks[BankOf(cfg, e.address)].openRow == RowOf(cfg, e.address))
  }

  function Pick(cfg: Config, entries: seq<Packet>, banks: seq<Bank>, n: nat, hitOnly: bool): (k: nat)
    requires |banks| == NumBanks(cfg) && n <= |entries|
    ensures k == |entries| || (k < n && Pickable(cfg, entries[k], banks, hitOnly))
    ensures k == |entries| ==> forall i | 0 <= i < n :: !Pickable(cfg, entries[i], banks, hitOnly)
    ensures k < |entries| ==> forall i | 0 <= i < n && Pickable(cfg, entries[i], banks, hitOnly) ::
                                && entries[k].eventCycle.t <= entries[i].eventCycle.t
                                && (i < k ==> entries[k].eventCycle.t < entries[i].eventCycle.t)
  {
    if n == 0 then |entries| else
    var k := Pick(cfg, entries, banks, n - 1, hitOnly);
    if Pickable(cfg, entries[n - 1], banks, hitOnly)
       && (k == |entries| || Earlier(entries[n - 1].eventCycle, entries[k].eventCycle))
    then n - 1 else k
  }

  /** schedule(): the oldest open-row hit, else the oldest request with an idle bank, takes its bank. */
  function Schedule(cfg: Config, c: Channel, write: bool, now: nat): (r: Channel)
    requires |c.banks| == NumBanks(cfg)
    ensures |r.banks| == |c.banks|
  {
    var q := c.Active(write);
    var hit := Pick(cfg, q.entries, c.banks, |q.entries|, true);
    var k := if hit < |q.entries| then hit else Pick(cfg, q.entries, c.banks, |q.entries|, false);
    if k == |q.entries| then c else Take(cfg, c, write, k, hit < |q.entries|, now)
  }

  function Take(cfg: Config, c: Channel, write: bool, k: nat, hit: bool, now: nat): (r: Channel)
    requires |c.banks| == NumBanks(cfg) && k < |c.Active(write).entries|
    ensures |r.banks| == |c.banks|
  {
    var q := c.Active(write);
    var latency := if hit then cfg.tCAS else cfg.tRP + cfg.tRCD + cfg.tCAS;
    var b := BankOf(cfg, q.entries[k].address);
    var bank := Bank(true, now + latency, RowOf(cfg, q.entries[k].address), k, hit, write, !write);
    var entries := q.entries[k := q.entries[k].(scheduled := true, eventCycle := At(now + latency))];
    c.(banks := c.banks[b := bank])
     .WithCount(write, c.Count(write) + 1)
     .WithQueue(write, UpdateProcess(UpdateSchedule(q.(entries := entries))))
  }

  // ---------------------------------------------------------------- processing

  /** process(): the entry whose data comes next completes once its bank and the bus are free. */
  function Process(cfg: Config, c: Channel, write: bool, now: nat): (r: (Channel, Option<Packet>))
    requires |c.banks| == NumBanks(cfg) && c.Active(write).processIndex < |c.Active(write).entries|
    ensures |r.0.banks| == |c.banks|
  {
    var q := c.Active(write);
    var e := q.entries[q.processIndex];
    var b := BankOf(cfg, e.address);
    if c.banks[b].cycleAvailable > now then (c, None)
    else if c.busFree > now then (c.(banks := c.banks[b := c.banks[b].(cycleAvailable := c.busFree)]), None)
    else
      var done := if write then e else e.(eventCycle := At(now + cfg.returnTime));
      (c.(busFree := now + cfg.returnTime, banks := c.banks[b := Freed(c.banks[b])])
        .WithCount(write, c.Count(write) - 1)
        .WithQueue(write, UpdateProcess(q.(entries := q.entries[q.processIndex := EMPTY],
                                           occupancy := q.occupancy - 1))),
       Some(done))
  }

  function Freed(b: Bank): Bank {
    b.(requestIndex := -1, rowBufferHit := false, working := false, isWrite := false, isRead := false)
  }

  // ---------------------------------------------------------------- switching between reads and writes

  function HighWatermark(wqSize: nat): nat {
    wqSize * 7 / 8
  }

  function LowWatermark(wqSize: nat): nat {
    wqSize * 3 / 4
  }

  /** Does operate() change the mode, given the occupancies? */
  predicate SwitchesMode(wqSize: nat, writeMode: bool, numReads: int, numWrites: int) {
    if writeMode then numWrites == 0 || (numReads != 0 && numWrites < LowWatermark(wqSize))
    else numWrites >= HighWatermark(wqSize) || (numReads == 0 && numWrites > 0)
  }

  /** A bank whose request is called back: its row stays open only if it had been reached. */
  function CalledBack(cfg: Config, b: Bank, address: nat, now: nat): Bank {
    b.(openRow := if b.cycleAvailable - cfg.tCAS <= now then RowOf(cfg, address) else NO_ROW,
       requestIndex := -1, rowBufferHit := false, working := false, cycleAvailable := now,
       isWrite := false, isRead := false)
  }

  /** The scheduled slots among the first `n`. */
  ghost function ScheduledIn(entries: seq<Packet>, n: nat): set<nat> {
    set i: nat | i < n && i < |entries| && entries[i].scheduled
  }

  /** reset_remain_requests() after its loop has passed the first `n` slots of one queue. */
  ghost function ResetUpTo(cfg: Config, c: Channel, write: bool, n: nat, now: nat): Channel {
    var q := c.Active(write);
    var entries := seq(|q.entries|, i requires 0 <= i < |q.entries| =>
      if i < n && q.entries[i].scheduled then q.entries[i].(scheduled := false, eventCycle := At(now))
      else q.entries[i]);
    var banks := seq(|c.banks|, b requires 0 <= b < |c.banks| =>
      if c.banks[b].working && 0 <= c.banks[b].requestIndex < n && c.banks[b].requestIndex < |q.entries|
      then CalledBack(cfg, c.banks[b], q.entries[c.banks[b].requestIndex].address, now) else c.banks[b]);
    c.(banks := banks).WithCount(write, c.Count(write) - |ScheduledIn(q.entries, n)|)
      .WithQueue(write, q.(entries := entries))
  }

  ghost function ResetRemain(cfg: Config, c: Channel, write: bool, now: nat): Channel {
    var r := ResetUpTo(cfg, c, write, |c.Active(write).entries|, now);
    r.(rq := UpdateProcess(UpdateSchedule(r.rq)), wq := UpdateProcess(UpdateSchedule(r.wq)))
  }

  /** The first part of operate(): switch the mode when the watermarks or an idle queue say so. */
  ghost function Switch(cfg: Config, c: Channel, now: nat): (r: Channel)
    ensures |r.banks| == |c.banks|
  {
    if SwitchesMode(|c.wq.entries|, c.writeMode, c.rq.occupancy, c.wq.occupancy)
    then var r := ResetRemain(cfg, c.(writeMode := !c.writeMode), c.writeMode, now);
         r.(busFree := r.busFree + cfg.turnAround)
    else c
  }

  /** The scheduling part of operate(), in the queue of the current mode. */
  function Scheduled(cfg: Config, c: Channel, now: nat): (r: Channel)
    requires |c.banks| == NumBanks(cfg)
    ensures |r.banks| == |c.banks|
  {
    var q := c.Active(c.writeMode);
    if q.scheduleIndex < |q.entries| && Due(q.scheduleCycle, now) then Schedule(cfg, c, c.writeMode, now) else c
  }

  /** The rest of operate(): schedule, then process, in the queue of the current mode. */
  ghost function Serve(cfg: Config, c: Channel, now: nat): (r: (Channel, Option<Packet>))
    requires |c.banks| == NumBanks(cfg)
    ensures |r.0.banks| == |c.banks|
  {
    var w := c.writeMode;
    var s := Scheduled(cfg, c, now);
    if s.Active(w).processIndex < |s.Active(w).entries| && Due(s.Active(w).processCycle, now)
    then Process(cfg, s, w, now) else (s, None)
  }

  /** operate(): one cycle of the channel, and the request that completes in it, if any. */
  ghost function Operate(cfg: Config, c: Channel, now: nat): (r: (Channel, Option<Packet>))
    requires |c.banks| == NumBanks(cfg)
    ensures |r.0.banks| == |c.banks|
  {
    Serve(cfg, Switch(cfg, c, now), now)
  }

  // ---------------------------------------------------------------- arrivals

  /** check_dram_queue: the first slot with this address, or |entries|. */
  function Find(entries: seq<Packet>, address: nat, n: nat): (k: nat)
    requires n <= |entries|
    ensures k == |entries| || (k < n && entries[k].address == address)
    ensures forall i | 0 <= i < k && i < n :: entries[i].address != address
  {
    if n == 0 then |entries| else
    var k := Find(entries, address, n - 1);
    if k < |entries| then k else if entries[n - 1].address == address then n - 1 else |entries|
  }

  /** What became of an arriving request. */
  datatype Arrival =
    | ReturnedAtOnce            // before the warm-up is over
    | Forwarded(data: nat)      // returned at once with the data of a waiting write
    | Merged(slot: nat)         // a waiting request has the same address
    | Stored(slot: nat)
    | Dropped                   // no slot, or a write before the warm-up is over

  /** Look for the address, then for an empty slot. */
  function Insert(q: Queue, p: Packet): (r: (Queue, Arrival)) {
    var k := Find(q.entries, p.address, |q.entries|);
    if k < |q.entries| then (q, Merged(k)) else
    var free := Find(q.entries, 0, |q.entries|);
    if free < |q.entries|
    then (UpdateSchedule(q.(entries := q.entries[free := p], occupancy := q.occupancy + 1)), Stored(free))
    else (UpdateSchedule(q), Dropped)
  }

  function AddRead(c: Channel, p: Packet, warm: bool): (r: (Channel, Arrival)) {
    if !warm then (c, ReturnedAtOnce) else
    var w := Find(c.wq.entries, p.address, |c.wq.entries|);
    if w < |c.wq.entries| then (c, Forwarded(c.wq.entries[w].data)) else
    var r := Insert(c.rq, p);
    (c.(rq := r.0), r.1)
  }

  function AddWrite(c: Channel, p: Packet, warm: bool): (r: (Channel, Arrival)) {
    if !warm then (c, Dropped) else
    var r := Insert(c.wq, p);
    (c.(wq := r.0), r.1)
  }

  /** A read of an address that a write waits for gets the data of that write. */
  lemma ForwardedIsWaiting(c: Channel, p: Packet)
    requires SlotsOk(c.wq.entries) && p.address != 0
    ensures forall k | 0 <= k < |c.wq.entries| && c.wq.entries[k].address == p.address ::
              AddRead(c, p, true) == (c, Forwarded(c.wq.entries[k].data))
    ensures (forall k | 0 <= k < |c.wq.entries| :: c.wq.entries[k].address != p.address) ==>
              AddRead(c, p, true) == (c.(rq := Insert(c.rq, p).0), Insert(c.rq, p).1)
  {
    hide Insert;
    var w := Find(c.wq.entries, p.address, |c.wq.entries|);
  }

  /** A request with an address is refused exactly when the queue is full and no slot has the address; in
      particular never after the callers' check of the occupancy. */
  lemma DroppedExactly(q: Queue, p: Packet)
    requires QueueOk(q) && p.address != 0
    ensures Insert(q, p).1.Dropped?
       <==> q.occupancy == |q.entries| && forall k | 0 <= k < |q.entries| :: q.entries[k].address != p.address
    ensures q.occupancy < |q.entries| ==> !Insert(q, p).1.Dropped?
  {
    hide UpdateSchedule, CacheOk, SlotsOk;
    var n := |q.entries|;
    var all := Recency.Upto(n);
    assert Occupied(q.entries) <= all;
    Recency.SubsetSize(Occupied(q.entries), all);
    if Find(q.entries, 0, n) < n {
      assert Find(q.entries, 0, n) !in Occupied(q.entries);
      Recency.SubsetSize(Occupied(q.entries), all - {Find(q.entries, 0, n)});
    } else {
      assert Occupied(q.entries) == all;
    }
  }

  // ---------------------------------------------------------------- the invariant

  ghost function Occupied(entries: seq<Packet>): set<nat> {
    set i: nat | i < |entries| && entries[i].address != 0
  }

  /** The cached index and time name the earliest eligible entry. */
  ghost predicate CacheOk(entries: seq<Packet>, index: nat, cycle: Cycle, process: bool) {
    if cycle.Never? then forall i | 0 <= i < |entries| :: !Eligible(entries[i], process)
    else
      && index < |entries| && Eligible(entries[index], process) && cycle == entries[index].eventCycle
      && forall i | 0 <= i < |entries| && Eligible(entries[i], process) :: cycle.t <= entries[i].eventCycle.t
  }

  ghost predicate SlotsOk(entries: seq<Packet>) {
    && (forall i | 0 <= i < |entries| && entries[i].address == 0 :: entries[i] == EMPTY)
    && (forall i | 0 <= i < |entries| && entries[i].scheduled :: entries[i].address != 0 && entries[i].eventCycle.At?)
    && (forall i, j | 0 <= i < j < |entries| && entries[i].address != 0 :: entries[i].address != entries[j].address)
  }

  ghost predicate QueueOk(q: Queue) {
    && SlotsOk(q.entries)
    && q.occupancy == |Occupied(q.entries)|
    && CacheOk(q.entries, q.scheduleIndex, q.scheduleCycle, false)
    && CacheOk(q.entries, q.processIndex, q.processCycle, true)
  }

  /** A bank works exactly for the one scheduled entry that maps to it. */
  ghost predicate BanksOk(cfg: Config, entries: seq<Packet>, banks: seq<Bank>, write: bool) {
    && |banks| == NumBanks(cfg)
    && (forall b | 0 <= b < |banks| ::
          if banks[b].working then
            && 0 <= banks[b].requestIndex < |entries| && entries[banks[b].requestIndex].scheduled
            && BankOf(cfg, entries[banks[b].requestIndex].address) == b
            && banks[b].isWrite == write && banks[b].isRead == !write && banks[b].cycleAvailable >= cfg.tCAS
          else banks[b].requestIndex == -1 && !banks[b].isWrite && !banks[b].isRead)
    && (forall i | 0 <= i < |entries| && entries[i].scheduled ::
          banks[BankOf(cfg, entries[i].address)].working && banks[BankOf(cfg, entries[i].address)].requestIndex == i)
  }

  ghost predicate NoneScheduled(entries: seq<Packet>) {
    forall i | 0 <= i < |entries| :: !entries[i].scheduled
  }

  ghost predicate Inv(cfg: Config, c: Channel) {
    && QueueOk(c.rq) && QueueOk(c.wq)
    && NoneScheduled(c.Active(!c.writeMode).entries)
    && BanksOk(cfg, c.Active(c.writeMode).entries, c.banks, c.writeMode)
    && c.Count(c.writeMode) == |ScheduledIn(c.Active(c.writeMode).entries, |c.Active(c.writeMode).entries|)|
    && c.Count(!c.writeMode) == 0
  }

  /** A channel as built. */
  function Start(cfg: Config, rqSize: nat, wqSize: nat): Channel {
    Channel(false, Queue(seq(rqSize, _ => EMPTY), 0, 0, Never, 0, Never),
            Queue(seq(wqSize, _ => EMPTY), 0, 0, Never, 0, Never),
            seq(NumBanks(cfg), _ => Bank(false, 0, NO_ROW, -1, false, false, false)), 0, 0, 0)
  }

  lemma {:induction false} InvAtStart(cfg: Config, rqSize: nat, wqSize: nat)
    ensures Inv(cfg, Start(cfg, rqSize, wqSize))
  {
    var c := Start(cfg, rqSize, wqSize);
    assert Occupied(c.rq.entries) == {} && Occupied(c.wq.entries) == {};
    assert ScheduledIn(c.rq.entries, rqSize) == {};
  }

  /** The first assert of process(), and the second: the bank of the next entry names that entry. */
  lemma {:induction false} ProcessSane(cfg: Config, c: Channel, now: nat)
    requires Inv(cfg, c) && Due(c.Active(c.writeMode).processCycle, now)
    ensures var q := c.Active(c.writeMode);
            && q.processIndex < |q.entries| && q.entries[q.processIndex].scheduled
            && q.entries[q.processIndex].address != 0
            && BankOf(cfg, q.entries[q.processIndex].address) < |c.banks|
            && c.banks[BankOf(cfg, q.entries[q.processIndex].address)].requestIndex == q.processIndex
            && c.banks[BankOf(cfg, q.entries[q.processIndex].address)].working
  {
  }

  // ---------------------------------------------------------------- what each step keeps

  lemma {:induction false} UpdatedCaches(q: Queue)
    requires SlotsOk(q.entries) && q.occupancy == |Occupied(q.entries)|
    ensures QueueOk(UpdateProcess(UpdateSchedule(q)))
    ensures CacheOk(q.entries, q.scheduleIndex, q.scheduleCycle, false) ==> QueueOk(UpdateProcess(q))
    ensures CacheOk(q.entries, q.processIndex, q.processCycle, true) ==> QueueOk(UpdateSchedule(q))
  {
  }

  /** Changing the stamp and flag of an occupied slot keeps the slots in order. */
  lemma {:induction false} RestampSlots(entries: seq<Packet>, k: nat, e: Packet)
    requires SlotsOk(entries) && k < |entries| && entries[k].address != 0
    requires e.address == entries[k].address && e.eventCycle.At?
    ensures SlotsOk(entries[k := e]) && Occupied(entries[k := e]) == Occupied(entries)
  {
  }

  lemma {:induction false} TakeBanks(cfg: Config, entries: seq<Packet>, banks: seq<Bank>, write: bool, k: nat,
                                     e: Packet, bank: Bank)
    requires BanksOk(cfg, entries, banks, write) && k < |entries| && !entries[k].scheduled
    requires e.scheduled && e.address == entries[k].address && !banks[BankOf(cfg, e.address)].working
    requires bank.working && bank.requestIndex == k && bank.isWrite == write && bank.isRead == !write
    requires bank.cycleAvailable >= cfg.tCAS
    ensures BanksOk(cfg, entries[k := e], banks[BankOf(cfg, e.address) := bank], write)
  {
    hide BankOf;
  }

  lemma {:induction false} TakeKeeps(cfg: Config, c: Channel, k: nat, hit: bool, now: nat)
    requires Inv(cfg, c) && k < |c.Active(c.writeMode).entries|
    requires Pickable(cfg, c.Active(c.writeMode).entries[k], c.banks, hit)
    ensures Inv(cfg, Take(cfg, c, c.writeMode, k, hit, now))
  {
    hide UpdateSchedule, UpdateProcess, SlotsOk, Occupied, CacheOk, BanksOk, BankOf, ScheduledIn, NoneScheduled, RowOf;
    var w := c.writeMode;
    var q := c.Active(w);
    var b := BankOf(cfg, q.entries[k].address);
    var cycle := now + if hit then cfg.tCAS else cfg.tRP + cfg.tRCD + cfg.tCAS;
    var e := q.entries[k].(scheduled := true, eventCycle := At(cycle));
    var entries := q.entries[k := e];
    CountStep(entries, q.entries, k);
    RestampSlots(q.entries, k, e);
    TakeBanks(cfg, q.entries, c.banks, w, k, e, Bank(true, cycle, RowOf(cfg, e.address), k, hit, w, !w));
    UpdatedCaches(q.(entries := entries));
  }

  /** One more slot is scheduled. */
  lemma {:induction false} CountStep(more: seq<Packet>, entries: seq<Packet>, k: nat)
    requires k < |entries| && !entries[k].scheduled && |more| == |entries| && more[k].scheduled
    requires forall i | 0 <= i < |entries| && i != k :: more[i].scheduled == entries[i].scheduled
    ensures |ScheduledIn(more, |entries|)| == |ScheduledIn(entries, |entries|)| + 1
  {
    assert ScheduledIn(more, |entries|) == ScheduledIn(entries, |entries|) + {k};
  }

  lemma {:induction false} ScheduleKeeps(cfg: Config, c: Channel, now: nat)
    requires Inv(cfg, c)
    ensures Inv(cfg, Schedule(cfg, c, c.writeMode, now))
  {
    var q := c.Active(c.writeMode);
    var hit := Pick(cfg, q.entries, c.banks, |q.entries|, true);
    var k := if hit < |q.entries| then hit else Pick(cfg, q.entries, c.banks, |q.entries|, false);
    if k < |q.entries| {
      TakeKeeps(cfg, c, k, hit < |q.entries|, now);
    }
  }

  lemma {:induction false} FreeBanks(cfg: Config, entries: seq<Packet>, banks: seq<Bank>, write: bool, k: nat)
    requires BanksOk(cfg, entries, banks, write) && k < |entries| && entries[k].scheduled
    ensures var b := BankOf(cfg, entries[k].address);
            BanksOk(cfg, entries[k := EMPTY], banks[b := Freed(banks[b])], write)
  {
    hide BankOf;
  }

  lemma {:induction false} EmptySlots(entries: seq<Packet>, k: nat)
    requires SlotsOk(entries) && k < |entries| && entries[k].address != 0
    ensures SlotsOk(entries[k := EMPTY]) && |Occupied(entries)| == |Occupied(entries[k := EMPTY])| + 1
  {
    assert Occupied(entries) == Occupied(entries[k := EMPTY]) + {k};
  }

  lemma {:induction false} EmptyCache(entries: seq<Packet>, k: nat, index: nat, cycle: Cycle)
    requires CacheOk(entries, index, cycle, false) && k < |entries| && entries[k].scheduled
    ensures CacheOk(entries[k := EMPTY], index, cycle, false)
  {
  }

  lemma {:induction false} ProcessKeeps(cfg: Config, c: Channel, now: nat)
    requires Inv(cfg, c) && Due(c.Active(c.writeMode).processCycle, now)
    ensures c.Active(c.writeMode).processIndex < |c.Active(c.writeMode).entries|
    ensures Inv(cfg, Process(cfg, c, c.writeMode, now).0)
  {
    hide UpdateSchedule, UpdateProcess, SlotsOk, Occupied, CacheOk, BanksOk, BankOf, ScheduledIn, NoneScheduled, Freed;
    ProcessSane(cfg, c, now);
    var w := c.writeMode;
    var q := c.Active(w);
    var k := q.processIndex;
    var entries := q.entries[k := EMPTY];
    CountStep(q.entries, entries, k);
    WaitBanks(cfg, q.entries, c.banks, w, k, c.busFree);
    EmptySlots(q.entries, k);
    EmptyCache(q.entries, k, q.scheduleIndex, q.scheduleCycle);
    FreeBanks(cfg, q.entries, c.banks, w, k);
    UpdatedCaches(q.(entries := entries, occupancy := q.occupancy - 1));
  }

  /** Waiting for the bus only moves the time at which a working bank is available forward. */
  lemma {:induction false} WaitBanks(cfg: Config, entries: seq<Packet>, banks: seq<Bank>, write: bool, k: nat,
                                     busFree: nat)
    requires BanksOk(cfg, entries, banks, write) && k < |entries| && entries[k].scheduled
    ensures var b := BankOf(cfg, entries[k].address);
            b < |banks| && (busFree >= banks[b].cycleAvailable ==>
              BanksOk(cfg, entries, banks[b := banks[b].(cycleAvailable := busFree)], write))
  {
    hide BankOf;
  }

  lemma {:induction false} ResetSlots(cfg: Config, c: Channel, write: bool, now: nat)
    requires SlotsOk(c.Active(write).entries)
    ensures var r := ResetUpTo(cfg, c, write, |c.Active(write).entries|, now);
            && SlotsOk(r.Active(write).entries)
            && Occupied(r.Active(write).entries) == Occupied(c.Active(write).entries)
            && NoneScheduled(r.Active(write).entries)
  {
    hide BankOf;
  }

  lemma {:induction false} ResetBanks(cfg: Config, c: Channel, write: bool, now: nat)
    requires BanksOk(cfg, c.Active(write).entries, c.banks, write) && NoneScheduled(c.Active(!write).entries)
    ensures var r := ResetUpTo(cfg, c, write, |c.Active(write).entries|, now);
            BanksOk(cfg, r.Active(!write).entries, r.banks, !write)
  {
    hide BankOf, ScheduledIn, RowOf;
  }

  lemma {:induction false} ResetKeeps(cfg: Config, c: Channel, now: nat)
    requires Inv(cfg, c)
    ensures Inv(cfg, ResetRemain(cfg, c.(writeMode := !c.writeMode), c.writeMode, now))
    ensures ResetRemain(cfg, c.(writeMode := !c.writeMode), c.writeMode, now).Count(c.writeMode) == 0
  {
    hide UpdateSchedule, UpdateProcess, SlotsOk, CacheOk, BanksOk, BankOf, NoneScheduled, Occupied, ScheduledIn;
    var w := c.writeMode;
    var d := c.(writeMode := !w);
    var r := ResetUpTo(cfg, d, w, |c.Active(w).entries|, now);
    assert r.Active(!w) == c.Active(!w);
    NoneCounted(c.Active(!w).entries);
    ResetSlots(cfg, d, w, now);
    ResetBanks(cfg, d, w, now);
    UpdatedCaches(r.rq);
    UpdatedCaches(r.wq);
  }

  lemma {:induction false} NoneCounted(entries: seq<Packet>)
    requires NoneScheduled(entries)
    ensures ScheduledIn(entries, |entries|) == {}
  {
  }

  lemma {:induction false} SwitchKeeps(cfg: Config, c: Channel, now: nat)
    requires Inv(cfg, c)
    ensures Inv(cfg, Switch(cfg, c, now))
  {
    ResetKeeps(cfg, c, now);
    hide QueueOk, BanksOk, ScheduledIn, NoneScheduled, ResetRemain;
  }

  lemma {:induction false} BanksExist(cfg: Config, c: Channel)
    requires Inv(cfg, c)
    ensures |c.banks| == NumBanks(cfg)
  {
  }

  lemma {:induction false} ScheduleMode(cfg: Config, c: Channel, now: nat)
    requires |c.banks| == NumBanks(cfg)
    ensures Schedule(cfg, c, c.writeMode, now).writeMode == c.writeMode
  {
  }

  lemma {:induction false} ProcessMode(cfg: Config, c: Channel, write: bool, now: nat)
    requires |c.banks| == NumBanks(cfg) && c.Active(write).processIndex < |c.Active(write).entries|
    ensures Process(cfg, c, write, now).0.writeMode == c.writeMode
  {
  }

  lemma {:induction false} OperateKeeps(cfg: Config, c: Channel, now: nat)
    requires Inv(cfg, c)
    ensures Inv(cfg, Operate(cfg, c, now).0)
  {
    hide Inv, Process, Schedule, Switch;
    var d := Switch(cfg, c, now);
    BanksExist(cfg, c);
    SwitchKeeps(cfg, c, now);
    BanksExist(cfg, d);
    ScheduleKeeps(cfg, d, now);
    ScheduleMode(cfg, d, now);
    var s := Scheduled(cfg, d, now);
    BanksExist(cfg, s);
    if Due(s.Active(s.writeMode).processCycle, now) {
      ProcessKeeps(cfg, s, now);
    }
  }

  lemma {:induction false} StoreSlots(entries: seq<Packet>, k: nat, p: Packet)
    requires SlotsOk(entries) && k < |entries| && entries[k].address == 0 && p.address != 0 && !p.scheduled
    requires forall i | 0 <= i < |entries| :: entries[i].address != p.address
    ensures SlotsOk(entries[k := p]) && |Occupied(entries[k := p])| == |Occupied(entries)| + 1
  {
    assert Occupied(entries[k := p]) == Occupied(entries) + {k};
  }

  lemma {:induction false} StoreCache(entries: seq<Packet>, k: nat, p: Packet, index: nat, cycle: Cycle)
    requires CacheOk(entries, index, cycle, true) && k < |entries| && entries[k] == EMPTY && !p.scheduled
    ensures CacheOk(entries[k := p], index, cycle, true)
  {
  }

  lemma {:induction false} InsertKeeps(q: Queue, p: Packet)
    requires QueueOk(q) && !p.scheduled
    ensures QueueOk(Insert(q, p).0)
    ensures ScheduledIn(Insert(q, p).0.entries, |q.entries|) == ScheduledIn(q.entries, |q.entries|)
  {
    hide SlotsOk, Occupied, CacheOk, UpdateSchedule;
    var k := Find(q.entries, p.address, |q.entries|);
    var free := Find(q.entries, 0, |q.entries|);
    if k == |q.entries| {
      if free < |q.entries| {
        FreeSlot(q.entries, free);
        StoreSlots(q.entries, free, p);
        StoreCache(q.entries, free, p, q.processIndex, q.processCycle);
        UpdatedCaches(q.(entries := q.entries[free := p], occupancy := q.occupancy + 1));
      } else {
        UpdatedCaches(q);
      }
    }
  }

  lemma {:induction false} FreeSlot(entries: seq<Packet>, k: nat)
    requires SlotsOk(entries) && k < |entries| && entries[k].address == 0
    ensures entries[k] == EMPTY
  {
  }

  lemma {:induction false} ArrivalKeeps(cfg: Config, c: Channel, p: Packet, write: bool)
    requires Inv(cfg, c) && !p.scheduled
    ensures Inv(cfg, c.WithQueue(write, Insert(c.Active(write), p).0))
  {
    hide QueueOk, SlotsOk, Occupied, CacheOk, UpdateSchedule, BankOf;
    InsertKeeps(c.Active(write), p);
    if write == c.writeMode {
      InsertBanks(cfg, c.Active(write), p, c.banks, write);
    } else {
      InsertNone(c.Active(write), p);
    }
    hide BanksOk, ScheduledIn, NoneScheduled, Insert;
    InsertSize(c.Active(write), p);
  }

  lemma {:induction false} InsertSize(q: Queue, p: Packet)
    ensures |Insert(q, p).0.entries| == |q.entries|
  {
  }

  lemma {:induction false} InsertNone(q: Queue, p: Packet)
    requires NoneScheduled(q.entries) && !p.scheduled
    ensures NoneScheduled(Insert(q, p).0.entries)
  {
  }

  lemma {:induction false} InsertBanks(cfg: Config, q: Queue, p: Packet, banks: seq<Bank>, write: bool)
    requires QueueOk(q) && BanksOk(cfg, q.entries, banks, write) && !p.scheduled
    ensures BanksOk(cfg, Insert(q, p).0.entries, banks, write)
  {
  }
}
