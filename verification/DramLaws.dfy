/** What a DRAM channel decides, said of its slots, banks and address bits: which request is served first and
    when it is due, what a change of mode leaves in the banks, and which addresses share a bank or a row.
 */
module DramLaws {
  import opened Arithmetic
  import opened Bits
  import opened Options
  import opened Dram
  import opened DramRuns

  // ---------------------------------------------------------------- which request is served

  /** Waiting, with a time, for a bank that is idle. */
  ghost predicate Waits(cfg: Config, c: Channel, write: bool, i: nat)
    requires |c.banks| == NumBanks(cfg)
  {
    var entries := c.Active(write).entries;
    && i < |entries| && entries[i].address != 0 && !entries[i].scheduled && entries[i].eventCycle.At?
    && !c.banks[BankOf(cfg, entries[i].address)].working
  }

  ghost function Servable(cfg: Config, c: Channel, write: bool): set<nat>
    requires |c.banks| == NumBanks(cfg)
  {
    set i: nat | i < |c.Active(write).entries| && Waits(cfg, c, write, i)
  }

  /** Those among them whose row is open. */
  ghost function OpenHits(cfg: Config, c: Channel, write: bool): set<nat>
    requires |c.banks| == NumBanks(cfg)
  {
    var entries := c.Active(write).entries;
    set i: nat | i < |entries| && Waits(cfg, c, write, i)
      && c.banks[BankOf(cfg, entries[i].address)].openRow == RowOf(cfg, entries[i].address)
  }

  /** The oldest of some slots, and the first of the oldest. */
  ghost predicate FirstOfOldest(entries: seq<Packet>, among: set<nat>, k: nat)
  {
    && k in among && k < |entries| && entries[k].eventCycle.At?
    && forall i | i in among ::
         && i < |entries| && entries[i].eventCycle.At?
         && entries[k].eventCycle.t <= entries[i].eventCycle.t
         && (i < k ==> entries[k].eventCycle.t < entries[i].eventCycle.t)
  }

  /** Slot `k` takes its bank, and is due after `latency`; every other slot and bank is as it was. */
  ghost predicate Served(cfg: Config, c: Channel, write: bool, k: nat, due: nat, r: Channel)
    requires |c.banks| == NumBanks(cfg) && k < |c.Active(write).entries|
  {
    var entries := c.Active(write).entries;
    var b := BankOf(cfg, entries[k].address);
    && r.Active(write).entries == entries[k := entries[k].(scheduled := true, eventCycle := At(due))]
    && r.Active(!write) == c.Active(!write) && |r.banks| == |c.banks|
    && (forall a | 0 <= a < |c.banks| && a != b :: r.banks[a] == c.banks[a])
    && r.banks[b].working && r.banks[b].requestIndex == k && r.banks[b].cycleAvailable == due
    && r.banks[b].openRow == RowOf(cfg, entries[k].address)
    && r.banks[b].isWrite == write && r.banks[b].isRead == !write
  }

  /** Open rows first: the first of the oldest requests whose row is open is served, and is due after tCAS;
      without one, the first of the oldest with an idle bank, after tRP, tRCD and tCAS. */
  lemma {:induction false} OpenRowFirst(cfg: Config, c: Channel, write: bool, now: nat)
    requires |c.banks| == NumBanks(cfg)
    ensures var r := Schedule(cfg, c, write, now);
            var hits, idle := OpenHits(cfg, c, write), Servable(cfg, c, write);
            if hits != {} then
              exists k :: FirstOfOldest(c.Active(write).entries, hits, k) && Served(cfg, c, write, k, now + cfg.tCAS, r)
            else if idle != {} then
              exists k :: FirstOfOldest(c.Active(write).entries, idle, k)
                          && Served(cfg, c, write, k, now + cfg.tRP + cfg.tRCD + cfg.tCAS, r)
            else r == c
  {
    hide BankOf, RowOf, EarliestOf, Pick, Pickable, Waits, OpenHits, Servable, FirstOfOldest, Served, Take;
    var entries := c.Active(write).entries;
    PickFinds(cfg, c, write, true);
    PickFinds(cfg, c, write, false);
    var hit := Pick(cfg, entries, c.banks, |entries|, true);
    var any := Pick(cfg, entries, c.banks, |entries|, false);
    if hit < |entries| {
      TakeServes(cfg, c, write, hit, true, now);
    } else if any < |entries| {
      TakeServes(cfg, c, write, any, false, now);
    }
  }

  /** Each pass finds the first of the oldest of its candidates. */
  lemma {:induction false} PickFinds(cfg: Config, c: Channel, write: bool, hitOnly: bool)
    requires |c.banks| == NumBanks(cfg)
    ensures var entries := c.Active(write).entries;
            var k := Pick(cfg, entries, c.banks, |entries|, hitOnly);
            var among := if hitOnly then OpenHits(cfg, c, write) else Servable(cfg, c, write);
            if among == {} then k == |entries| else k < |entries| && FirstOfOldest(entries, among, k)
  {
    hide BankOf, RowOf, EarliestOf;
    var entries := c.Active(write).entries;
    var among := if hitOnly then OpenHits(cfg, c, write) else Servable(cfg, c, write);
    forall i: nat ensures i in among <==> i < |entries| && Pickable(cfg, entries[i], c.banks, hitOnly) {
    }
    hide Waits, OpenHits, Servable, Pickable;
    if among != {} {
      var i :| i in among;
      assert Pickable(cfg, entries[i], c.banks, hitOnly);
    }
  }

  lemma {:induction false} TakeServes(cfg: Config, c: Channel, write: bool, k: nat, hit: bool, now: nat)
    requires |c.banks| == NumBanks(cfg) && k < |c.Active(write).entries|
    ensures Served(cfg, c, write, k, now + (if hit then cfg.tCAS else cfg.tRP + cfg.tRCD + cfg.tCAS),
                   Take(cfg, c, write, k, hit, now))
  {
    hide BankOf, RowOf, EarliestOf;
  }

  /** A cycle schedules exactly when the time of some waiting request of the mode has come. */
  lemma {:induction false} ScheduledWhenDue(cfg: Config, c: Channel, now: nat)
    requires Inv(cfg, c)
    ensures |c.banks| == NumBanks(cfg)
    ensures var entries := c.Active(c.writeMode).entries;
            Scheduled(cfg, c, now)
              == if exists i: nat :: i < |entries| && entries[i].address != 0 && !entries[i].scheduled
                                     && entries[i].eventCycle.At? && entries[i].eventCycle.t <= now
                 then Schedule(cfg, c, c.writeMode, now) else c
  {
    hide BanksOk, SlotsOk, Occupied, ScheduledIn, NoneScheduled, Schedule;
    BanksExist(cfg, c);
    var q := c.Active(c.writeMode);
    if i: nat :| i < |q.entries| && q.entries[i].address != 0 && !q.entries[i].scheduled
                 && q.entries[i].eventCycle.At? && q.entries[i].eventCycle.t <= now
    {
      assert Eligible(q.entries[i], false);
    }
    if q.scheduleIndex < |q.entries| && Due(q.scheduleCycle, now) {
      assert Eligible(q.entries[q.scheduleIndex], false);
    }
  }

  // ---------------------------------------------------------------- which addresses share a bank or a row

  /** Two addresses share a bank exactly when their bank bits, just above the channel bits, and their rank
      bits, above the column bits, are the same. */
  lemma {:induction false} SameBankExactly(cfg: Config, a: nat, b: nat)
    ensures BankOf(cfg, a) == BankOf(cfg, b)
       <==> && SameBits(a, b, cfg.logChannels, cfg.logBanks)
            && SameBits(a, b, cfg.logChannels + cfg.logBanks + cfg.logColumns, cfg.logRanks)
  {
    hide Pow2, SameBits;
    var low, high := cfg.logChannels, cfg.logChannels + cfg.logBanks + cfg.logColumns;
    SameField(a, b, low, cfg.logBanks);
    SameField(a, b, high, cfg.logRanks);
    var banks := Pow2(cfg.logBanks);
    OneIndex(Field(a, high, cfg.logRanks), Field(a, low, cfg.logBanks),
             Field(b, high, cfg.logRanks), Field(b, low, cfg.logBanks), banks);
  }

  lemma OneIndex(i: nat, j: nat, k: nat, l: nat, n: nat)
    requires j < n && l < n
    ensures i * n + j == k * n + l <==> i == k && j == l
  {
    DivModUnique(i * n + j, n, i, j);
    DivModUnique(k * n + l, n, k, l);
  }

  /** Two addresses have the same row exactly when the bits above the rank bits are the same. */
  lemma SameRowExactly(cfg: Config, a: nat, b: nat)
    ensures RowOf(cfg, a) == RowOf(cfg, b)
       <==> SameBits(a, b, cfg.logChannels + cfg.logBanks + cfg.logColumns + cfg.logRanks, cfg.logRows)
  {
    hide Pow2;
    SameField(a, b, cfg.logChannels + cfg.logBanks + cfg.logColumns + cfg.logRanks, cfg.logRows);
  }

  // ---------------------------------------------------------------- changes of the mode

  /** Reads give way at seven eighths of the write queue, or when there are none but writes wait; writes give
      way when there are none, or reads wait and less than three quarters of the queue is filled. */
  lemma SwitchPoints(wqSize: nat, writeMode: bool, numReads: nat, numWrites: nat)
    ensures !writeMode ==> (SwitchesMode(wqSize, writeMode, numReads, numWrites)
              <==> 8 * (numWrites + 1) > 7 * wqSize || (numReads == 0 && numWrites > 0))
    ensures writeMode ==> (SwitchesMode(wqSize, writeMode, numReads, numWrites)
              <==> numWrites == 0 || (numReads > 0 && 4 * (numWrites + 1) <= 3 * wqSize))
  {
  }

  /** What a change of the mode leaves behind: every scheduled request of the old mode waits again from now on,
      and its bank is idle from now on, with the row open only if the access had come within tCAS of its end;
      every other request and bank is as it was. */
  lemma {:induction false} SwitchLeaves(cfg: Config, c: Channel, now: nat)
    requires Inv(cfg, c) && Switching(c)
    ensures var r := Switch(cfg, c, now);
            var before, after := c.Active(c.writeMode).entries, r.Active(c.writeMode).entries;
            && |c.banks| == NumBanks(cfg) && |r.banks| == |c.banks| && r.writeMode == !c.writeMode
            && r.busFree == c.busFree + cfg.turnAround
            && r.Active(!c.writeMode).entries == c.Active(!c.writeMode).entries && |after| == |before|
            && (forall i | 0 <= i < |before| :: after[i]
                  == if before[i].scheduled then before[i].(scheduled := false, eventCycle := At(now)) else before[i])
            && (forall i | 0 <= i < |before| && before[i].scheduled ::
                  var b, b' := c.banks[BankOf(cfg, before[i].address)], r.banks[BankOf(cfg, before[i].address)];
                  && !b'.working && b'.requestIndex == -1 && b'.cycleAvailable == now && !b'.isWrite && !b'.isRead
                  && b'.openRow == (if b.cycleAvailable <= now + cfg.tCAS then RowOf(cfg, before[i].address)
                                    else 0xFFFF_FFFF))
            && (forall a | 0 <= a < |c.banks| && !c.banks[a].working :: r.banks[a] == c.banks[a])
  {
    hide EarliestOf, RowOf, BankOf, ScheduledIn, CacheOk, SlotsOk;
  }

  // ---------------------------------------------------------------- completion

  /** process() of the request whose data comes next: nothing before its bank's time; while the bus is taken the
      bank's time becomes the bus's; else the request leaves its slot, its bank is idle with the row still open,
      and the bus is taken for a transfer, which is also the time of a read's data. */
  lemma {:induction false} ProcessLeaves(cfg: Config, c: Channel, now: nat)
    requires Inv(cfg, c) && Due(c.Active(c.writeMode).processCycle, now)
    ensures |c.banks| == NumBanks(cfg) && c.Active(c.writeMode).processIndex < |c.Active(c.writeMode).entries|
    ensures var k := c.Active(c.writeMode).processIndex;
            var e := c.Active(c.writeMode).entries[k];
            var b := BankOf(cfg, e.address);
            var (r, done) := Process(cfg, c, c.writeMode, now);
            && |r.banks| == |c.banks| && (forall a | 0 <= a < |c.banks| && a != b :: r.banks[a] == c.banks[a])
            && r.banks[b].openRow == c.banks[b].openRow && r.Active(!c.writeMode) == c.Active(!c.writeMode)
            && (done.Some? <==> c.banks[b].cycleAvailable <= now && c.busFree <= now)
            && (if done.Some? then
                  && done.value.id == e.id && done.value.address == e.address && done.value.data == e.data
                  && (!c.writeMode ==> done.value.eventCycle == At(now + cfg.returnTime))
                  && r.Active(c.writeMode).entries == c.Active(c.writeMode).entries[k := EMPTY]
                  && !r.banks[b].working && r.banks[b].requestIndex == -1 && r.busFree == now + cfg.returnTime
                else
                  && r.Active(c.writeMode) == c.Active(c.writeMode) && r.busFree == c.busFree
                  && r.banks[b] == c.banks[b].(cycleAvailable :=
                       if c.banks[b].cycleAvailable <= now then c.busFree else c.banks[b].cycleAvailable))
  {
    ProcessSane(cfg, c, now);
    hide EarliestOf, RowOf, BankOf, ScheduledIn, CacheOk, SlotsOk, Inv;
  }

  // ---------------------------------------------------------------- the order within a cycle

  /** The same requests in the same slots, whatever is scheduled. */
  ghost predicate SamePackets(before: seq<Packet>, after: seq<Packet>) {
    |after| == |before| && forall i | 0 <= i < |before| ::
      after[i] == before[i].(scheduled := after[i].scheduled, eventCycle := after[i].eventCycle)
  }

  lemma {:induction false} SwitchSame(cfg: Config, c: Channel, now: nat)
    ensures var r := Switch(cfg, c, now);
            SamePackets(c.rq.entries, r.rq.entries) && SamePackets(c.wq.entries, r.wq.entries)
  {
    hide EarliestOf, RowOf, BankOf, ScheduledIn;
  }

  lemma {:induction false} ScheduledSame(cfg: Config, c: Channel, now: nat)
    requires |c.banks| == NumBanks(cfg)
    ensures var r := Scheduled(cfg, c, now);
            && r.writeMode == c.writeMode
            && SamePackets(c.rq.entries, r.rq.entries) && SamePackets(c.wq.entries, r.wq.entries)
  {
    hide EarliestOf, RowOf, BankOf, ScheduledIn, Pick;
  }

  /** A cycle decides on the mode first, then schedules, then completes: what it completes is of the mode that it ends
      in, and the bank of what it completes is idle afterwards. */
  lemma {:induction false} CycleOrder(cfg: Config, c: Channel, now: nat)
    requires Inv(cfg, c)
    ensures |c.banks| == NumBanks(cfg)
    ensures var (r, done) := Operate(cfg, c, now);
            && r.writeMode == (if Switching(c) then !c.writeMode else c.writeMode) && |r.banks| == NumBanks(cfg)
            && (done.Some? ==>
                  && !r.banks[BankOf(cfg, done.value.address)].working
                  && exists i :: 0 <= i < |c.Active(r.writeMode).entries|
                              && c.Active(r.writeMode).entries[i].id == done.value.id
                              && c.Active(r.writeMode).entries[i].address == done.value.address
                              && c.Active(r.writeMode).entries[i].data == done.value.data)
  {
    hide Inv, Switch, Scheduled, Process, BankOf;
    BanksMany(cfg, c);
    SwitchKeeps(cfg, c, now);
    SwitchMode(cfg, c, now);
    SwitchSame(cfg, c, now);
    var s := Switch(cfg, c, now);
    BanksMany(cfg, s);
    ScheduledSame(cfg, s, now);
    var t := Scheduled(cfg, s, now);
    ScheduledInv(cfg, s, now);
    var k := t.Active(t.writeMode).processIndex;
    if k < |t.Active(t.writeMode).entries| && Due(t.Active(t.writeMode).processCycle, now) {
      ProcessLeaves(cfg, t, now);
      ProcessMode(cfg, t, now);
      SameThrough(c.Active(s.writeMode).entries, s.Active(s.writeMode).entries, t.Active(s.writeMode).entries, k);
    }
  }

  lemma SameThrough(a: seq<Packet>, b: seq<Packet>, c: seq<Packet>, k: nat)
    requires SamePackets(a, b) && SamePackets(b, c) && k < |c|
    ensures k < |a| && a[k].id == c[k].id && a[k].address == c[k].address && a[k].data == c[k].data
  {
  }

  lemma BanksMany(cfg: Config, c: Channel)
    requires Inv(cfg, c)
    ensures |c.banks| == NumBanks(cfg)
  {
  }

  lemma SwitchMode(cfg: Config, c: Channel, now: nat)
    ensures Switch(cfg, c, now).writeMode == (if Switching(c) then !c.writeMode else c.writeMode)
    ensures !Switching(c) ==> Switch(cfg, c, now) == c
  {
  }

  lemma ScheduledInv(cfg: Config, c: Channel, now: nat)
    requires Inv(cfg, c) && |c.banks| == NumBanks(cfg)
    ensures Inv(cfg, Scheduled(cfg, c, now))
  {
    hide Inv, Schedule;
    ScheduleKeeps(cfg, c, now);
  }

  lemma ProcessMode(cfg: Config, c: Channel, now: nat)
    requires |c.banks| == NumBanks(cfg) && c.Active(c.writeMode).processIndex < |c.Active(c.writeMode).entries|
    ensures Process(cfg, c, c.writeMode, now).0.writeMode == c.writeMode
  {
    hide EarliestOf, BankOf;
  }

  // ---------------------------------------------------------------- arrivals

  ghost predicate FirstWith(entries: seq<Packet>, address: nat, k: nat) {
    k < |entries| && entries[k].address == address && forall i | 0 <= i < k :: entries[i].address != address
  }

  /** An arrival at a queue: the slot with its address, else the first empty one, where it is stored as it is, else
      none; nothing but that slot and the count changes. */
  ghost predicate Placed(q: Queue, p: Packet, r: Queue, a: Arrival) {
    match a
    case Merged(k) => r == q && FirstWith(q.entries, p.address, k)
    case Stored(k) => && FirstWith(q.entries, 0, k)
                      && (forall i | 0 <= i < |q.entries| :: q.entries[i].address != p.address)
                      && r.entries == q.entries[k := p] && r.occupancy == q.occupancy + 1
    case Dropped => && (forall i | 0 <= i < |q.entries| :: q.entries[i].address !in {0, p.address})
                    && r.entries == q.entries && r.occupancy == q.occupancy
    case _ => false
  }

  /** A read returns at once before the warm-up is over; later it gets the data of the first write slot with its
      address, or goes to the read queue if there is none. */
  lemma {:induction false} ReadArrives(c: Channel, p: Packet, warm: bool)
    ensures var (r, a) := AddRead(c, p, warm);
            && r.(rq := c.rq) == c
            && (a.ReturnedAtOnce? <==> !warm) && (a.ReturnedAtOnce? || a.Forwarded? ==> r == c)
            && (a.Forwarded? ==>
                  exists k: nat :: FirstWith(c.wq.entries, p.address, k) && c.wq.entries[k].data == a.data)
            && (warm && !a.Forwarded? ==>
                  && (forall i | 0 <= i < |c.wq.entries| :: c.wq.entries[i].address != p.address)
                  && (p.address != 0 ==> Placed(c.rq, p, r.rq, a)))
  {
    hide EarliestOf;
  }

  /** A write is dropped before the warm-up is over; later it goes to the write queue. */
  lemma {:induction false} WriteArrives(c: Channel, p: Packet, warm: bool)
    ensures var (r, a) := AddWrite(c, p, warm);
            && r.(wq := c.wq) == c
            && (!warm ==> a == Dropped && r == c)
            && (warm && p.address != 0 ==> Placed(c.wq, p, r.wq, a))
  {
    hide EarliestOf;
  }
}
