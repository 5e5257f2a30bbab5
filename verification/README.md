# Verified models of the simulator's bounded state machines

A Dafny 4.11 model of the parts of a ChampSim-based simulator whose correctness rests on invariants that the
source states only as comments or run-time asserts. `dafny verify dfyconfig.toml` checks all of it.

Code that updates state in place is a class with the same fields and loops. Each of its methods is proved equal
to a function or relation on values, and the theorems are about those.

| part | modules |
|---|---|
| Hawkeye's OPTgen oracle and its sampler | `OptGen`, `OptGenRuns`, `Sampler` |
| DRAM controller: steps, what they choose and leave, runs, draining, and the class | `Dram`, `DramLaws`, `DramRuns`, `DramDrain`, `DramController` |
| Register wake-up in the out-of-order core | `RegisterWakeup`, `CoreCycle`, `CoreProgress`, `CoreLaws`, `ReorderBuffer` |
| The set that holds dependences | `FastSet` |
| LRU branch target buffers, their levels, and reuse distances | `Btb`, `MultiLevelBtb`, `BtbLaws`, `BtbLevels`, `StackDistance`, `ReuseDistance` |
| LRU counters of the caches | `LruCounters`, `CacheLru` |
| Folded branch history | `FoldedHistory`, `HistoryRegisters` |
| Delay queue | `DelayQueue` |
| Physical frame allocator | `VirtualMemory`, `FrameAllocator` |
| Thermometer (hot/warm/cold) replacement | `Thermometer`, `HotWarmCold` |
| Shared: arithmetic, bits, recency lists, options | `Arithmetic`, `Bits`, `Recency`, `Options` |

Sizes (ways, sets, queue sizes, widths, latencies, history lengths) are symbolic. The order in which an unordered
map is walked, random numbers, and what other components send are arbitrary.

## What the code does not promise

Some properties hold only under a condition. Each is stated with its exact condition, in both directions, and with an
input that fails, wherever the code reaches one.

* OPTgen's count is the maximum packing of the real reuse intervals when every evaluated reuse is shorter than 128
  accesses. An evaluated reuse at a true distance of 128 or more cannot be trusted: btb/hawkeye_btb/hawkeye_btb.cc:209
  tests `>` where `>=` would be needed, and stamps are kept modulo 1024, so an age of 1029 passes for 5. Per reuse the
  bound is exact: `OptGenRuns.ExactlyOptimal`, `OptGenRuns.VerdictIsTrueExactlyBelow128`, with failing traces in
  `OptGenRuns.FailingTraces`.
* The DRAM controller without arrivals becomes empty, if accesses take time (tCAS above 0), if and only if it has two
  or more write-queue slots or holds no read. With fewer slots both watermarks are 0, read mode is left at once, and
  a read waits for ever: `DramDrain.DrainsExactly`, with the failing controller in `DramDrain.OneReadNeverDrains`.
* The delay queue reports exactly the elements whose time has come if and only if ready pushes are not made behind
  an element with more than one cycle to wait: `DelayQueue.PushReadyKeeps`, `DelayQueue.MixedPushesReleaseEarly`.
* Leaf page-table entries of different virtual pages are distinct in every run if and only if pages have at least
  4096 bytes, while the constructor accepts 1024 and 2048: `VirtualMemory.LeavesApartExactly`.
* A promotion loses the branch that the level before pushes out, although the promoted branch leaves a way free
  behind it: a branch is lost if and only if it is pushed out of the last level or of the one before the level that a
  promotion takes its branch from: `BtbLaws.LostExactly`, with the input in `BtbLaws.PromotionLoses`.
* A join of large sets takes only the members below the next multiple of 64 after `n`, so it is the union if and only
  if every new member is: `FastSet.Set.Join`, `FastSet.JoinIsUnion`.

## Model

| member | source | states |
|---|---|---|
| `OptGen.GreedyIsOptimal` | btb/hawkeye_btb/optgen.h:74-107 | Accepting every interval that fits, in the order in which intervals end, chooses the largest number of intervals that can be packed with at most CACHE_SIZE over any time slot |
| `OptGen.Exchange` | btb/hawkeye_btb/optgen.h:74-107 | The exchange step of that argument: any packing that agrees with the greedy choice so far can be made to agree on one more interval without losing any |
| `OptGen.FollowGreedy` | btb/hawkeye_btb/optgen.h:74-107 | Any packing can be turned, without losing an interval, into one that agrees with the greedy choice on the first i intervals |
| `OptGen.RejectedIsBlocked` | btb/hawkeye_btb/optgen.h:79-88 | An interval the greedy choice rejects fits into no packing that agrees with it so far |
| `OptGen.GreedyPacks` | btb/hawkeye_btb/optgen.h:91-101 | No slot is ever covered by more than CACHE_SIZE accepted intervals |
| `OptGen.VerdictIsHasRoom` | btb/hawkeye_btb/optgen.h:74-107 | On the 128-slot ring an interval shorter than the ring is accepted exactly when it fits the unbounded occupancy history |
| `OptGen.MirrorStep` | btb/hawkeye_btb/optgen.h:63-107 | Judging an interval and clearing the current slot keeps the ring equal to the occupancy of the last 128 slots |
| `OptGen.NothingLookedAt` | btb/hawkeye_btb/optgen.h:78-101 | At equal ring positions the interval is accepted whatever the slots hold, and no slot changes |
| `OptGen.TimerArithmetic` | btb/hawkeye_btb/hawkeye_btb.cc:206-210 | Time stamps kept modulo 1024 give the distance modulo 1024 and the right ring position; that a period is 1024 accesses is `OptGenRuns.TimerShowsAge` |
| `OptGen.UnevaluatedStep` | btb/hawkeye_btb/hawkeye_btb.cc:206-228 | A reference whose interval is not evaluated keeps counters and ring consistent with the trace |
| `OptGen.EvaluatedStep` | btb/hawkeye_btb/hawkeye_btb.cc:206-228 | An evaluated reuse keeps counters and ring consistent with the trace, whatever the verdict |
| `OptGen.OptGen.AddAccess` | btb/hawkeye_btb/optgen.h:63-67 | The current slot is cleared and the access counted, nothing else changes |
| `OptGen.OptGen.ShouldCache` | btb/hawkeye_btb/optgen.h:74-107 | The verdict, the ring and both counters: accepted exactly when no slot between the two positions is full, and then each of them is incremented |
| `OptGen.OptGen.DemandAccess` | btb/hawkeye_btb/hawkeye_btb.cc:206-228 | One demand reference of the set, with the timer arithmetic, keeps the class consistent with the trace so far: a first use and a reuse aged 129 to 1023 leave the count as it was, and a reuse aged at most 128 gives exactly one verdict |
| `OptGen.OptGen.OptHits` | btb/hawkeye_btb/optgen.h:109-115 | In every reachable state num_cache is the optimum for the evaluated intervals plus the accepts at timer distance 0 or 128 |
| `OptGenRuns.Simulate` | btb/hawkeye_btb/hawkeye_btb.cc:199-229 | From an empty set, for every trace: the hits counted are the optimum of the intervals the timer presents plus one for each reuse that looks at nothing; if every evaluated reuse is shorter than 128 they are the maximum packing of the real reuse intervals |
| `OptGenRuns.TimerShowsAge` | btb/hawkeye_btb/hawkeye_btb.cc:206-210 | The timer shows an age below 1024 as it is and an age of 1024 as 0, and repeats every 1024 accesses; a reuse aged 129 to 1023 is never evaluated, one aged at most 128 always |
| `OptGenRuns.OldReuseIgnored` | btb/hawkeye_btb/hawkeye_btb.cc:206-212 | After every trace a reuse aged 129 to 1023 leaves the count of hits and the presented and real intervals as they were |
| `OptGenRuns.ExactlyOptimal` | btb/hawkeye_btb/hawkeye_btb.cc:206-212 | An evaluated reuse leaves num_cache the maximum packing of the real intervals, after every trace of shorter reuses and for every size, if and only if its true distance is below 128 |
| `OptGenRuns.LongReuseMiscounts` | btb/hawkeye_btb/hawkeye_btb.cc:206-212 | For every evaluated reuse at a true distance of 128 or more there is a trace of otherwise short reuses, with one way, where two intervals are counted and only one fits |
| `OptGenRuns.FailingTraces` | btb/hawkeye_btb/hawkeye_btb.cc:206-212 | Two such traces: a reuse at distance 128, which the test at line 209 lets through, and one of age 1029, which the timer shows as 5 |
| `OptGenRuns.WindowsAreTrue` | btb/hawkeye_btb/hawkeye_btb.cc:206-212 | If every evaluated reuse is shorter than 128, the presented intervals are the real ones, from one reference to the next, and each is looked at |
| `OptGenRuns.VerdictIsTrueExactlyBelow128` | btb/hawkeye_btb/hawkeye_btb.cc:206-212 | The answer of should_cache on an evaluated reuse is that of the real interval, on every ring that short reuses lead to, if and only if the true distance is below 128 |
| `Sampler.FullHasLast` | btb/hawkeye_btb/hawkeye_btb.cc:143-160 | A full sampler set has exactly one entry with lru 7, its least recently used tag |
| `Sampler.HitPermuted` | btb/hawkeye_btb/hawkeye_btb.cc:204-233 | A hit keeps the lru values a permutation 0..n-1 in recency order, with the tag at the front |
| `Sampler.MissPermuted` | btb/hawkeye_btb/hawkeye_btb.cc:235-253 | A first use, evicting lru 7 of a full set, keeps the permutation with the new tag at the front |
| `Sampler.SamplerIsRecent` | btb/hawkeye_btb/hawkeye_btb.cc:204-284 | After every run a sampler set holds the eight most recently used tags with lru values 0, 1, 2, ... in recency order |
| `Sampler.SamplerHits` | btb/hawkeye_btb/hawkeye_btb.cc:204-284 | A tag is in the sampler if and only if it was used and fewer than eight other tags were used since; its lru value is their number |
| `Sampler.SamplerRemembers` | btb/hawkeye_btb/hawkeye_btb.cc:229-284 | After every run the time stamp from which OPTgen measures, the address that is trained and the prefetch bit of a tag are those of its last use |
| `Sampler.AddressHistory.ReplaceElement` | btb/hawkeye_btb/hawkeye_btb.cc:143-160 | What is erased is the entry with lru 7, the least recently used of the eight tags |
| `Sampler.AddressHistory.UpdateLru` | btb/hawkeye_btb/hawkeye_btb.cc:162-172 | Exactly the values below the given one go up by one, in range |
| `Sampler.AddressHistory.Access` | btb/hawkeye_btb/hawkeye_btb.cc:204-284 | One use of a set leads to the state of Used, replacing an entry with lru 7 if the set is full; every set stays what its uses lead to, so what `Sampler.AddressHistory.SetsAreRecent` says of the time stamps holds after it, and the size assert holds |
| `Sampler.AddressHistory.SetsAreRecent` | btb/hawkeye_btb/hawkeye_btb.cc:204-284 | In every reachable state of every set: the eight tags used most recently, with lru values 0, 1, 2, ... in recency order; membership and lru are given by the number of tags used since; time stamp, address and kind are those of the last use of the tag |
| `Dram.EarliestOf` | src/dram_controller.cc:534-588 | The first of the earliest waiting, or scheduled, slots, or none when there is none |
| `Dram.Pick` | src/dram_controller.cc:127-219 | The first of the oldest requests whose bank is idle, among row hits or among all |
| `DramLaws.OpenRowFirst` | src/dram_controller.cc:127-276 | If some waiting request has an idle bank with its row open, the first of the oldest of these is scheduled, tCAS from now; otherwise the first of the oldest with an idle bank, tRP + tRCD + tCAS from now, or none; its bank is taken with that row and all else is as it was |
| `DramLaws.PickFinds` | src/dram_controller.cc:127-219 | A scan finds the first of the oldest requests that can be served, said over slots and banks, or none if there is none |
| `DramLaws.ScheduledWhenDue` | src/dram_controller.cc:99-121 | The scheduler runs whenever the time of a waiting request has come, and only then |
| `DramLaws.SameBankExactly` | src/dram_controller.cc:618-666 | Two addresses share a bank if and only if their bank bits above the channel bits and their rank bits above the column bits are the same |
| `DramLaws.SameRowExactly` | src/dram_controller.cc:618-666 | Two addresses have the same row if and only if the bits above the rank bits are the same |
| `Dram.Find` | src/dram_controller.cc:590-616 | The first slot with the address, and none before it |
| `Dram.InvAtStart` | src/dram_controller.cc:73-125 | A controller that has just been built satisfies the invariant |
| `Dram.ProcessSane` | src/dram_controller.cc:280-300 | Neither assert of process() can fire: the next index is in range and the bank of that entry names that entry |
| `Dram.ScheduleKeeps` | src/dram_controller.cc:127-276 | schedule() keeps the invariant: scheduled entries only in the queue of the mode, banks and scheduled entries in one-to-one correspondence, exact counts, exact earliest entries |
| `Dram.TakeKeeps` | src/dram_controller.cc:221-265 | Giving an idle bank to a waiting request keeps the invariant |
| `Dram.ProcessKeeps` | src/dram_controller.cc:278-420 | process() keeps the invariant, completing or postponing |
| `DramLaws.ProcessLeaves` | src/dram_controller.cc:278-420 | A completed request leaves its slot, its bank is idle with the row still open, the bus is taken for a transfer and a read has its data then; while the bus is taken the bank waits for it; every other bank, slot and queue is as it was |
| `Dram.ResetKeeps` | src/dram_controller.cc:11-71 | reset_remain_requests() restores the invariant for the other mode, and its final assert holds: no scheduled request is left |
| `DramLaws.SwitchLeaves` | src/dram_controller.cc:11-71 | After a mode switch every scheduled request of the old mode waits again from now on, and its bank is idle with the row open exactly if the access had come within tCAS of its end; the bus is taken for a turn-around more; every other request and bank is as it was |
| `Dram.SwitchKeeps` | src/dram_controller.cc:75-97 | The mode switch keeps the invariant |
| `DramLaws.SwitchPoints` | inc/dram_controller.h:13-14 | Reads give way when more than seven eighths of the write queue would be filled by one more, or there are none and writes wait; writes when there are none, or reads wait and one more would fill no more than three quarters |
| `Dram.OperateKeeps` | src/dram_controller.cc:73-125 | A whole cycle keeps the invariant |
| `DramLaws.CycleOrder` | src/dram_controller.cc:73-125 | A cycle decides on the mode, then schedules, then completes: what it completes is a request of the mode it ends in, and the bank of that request is idle afterwards |
| `Dram.ArrivalKeeps` | src/dram_controller.cc:422-527 | A stored or merged arrival keeps the invariant, in particular distinct addresses and an occupancy equal to the occupied slots |
| `DramLaws.ReadArrives` | src/dram_controller.cc:422-485 | Before the warm-up is over a read returns at once; later it gets the data of the first write slot with its address, or if there is none merges with the first read slot of its address, or is stored as it is in the first empty one, or dropped; nothing else changes |
| `DramLaws.WriteArrives` | src/dram_controller.cc:487-527 | Before the warm-up is over a write is dropped; later it merges, is stored in the first empty slot or dropped in the same way, and nothing else changes |
| `DramRuns.OperateConserves` | src/dram_controller.cc:73-125 | One cycle hands out at most one request, of the queue of the mode, and keeps all others through every mode switch |
| `DramRuns.InsertConserves` | src/dram_controller.cc:452-485 | A stored arrival adds exactly itself, a merged or refused one nothing |
| `Dram.DroppedExactly` | src/dram_controller.cc:452-485 | A request with an address is refused if and only if the queue is full and no slot has the address, so never after the callers' occupancy check |
| `Dram.ForwardedIsWaiting` | src/dram_controller.cc:432-450 | A read of an address that a write waits for returns at once with the data of that write, and only then |
| `DramRuns.CompletionsSpaced` | src/dram_controller.cc:305-328 | Two consecutive completions are a bus transfer apart, plus one turn-around for every mode switch in between |
| `DramRuns.StepKeeps` | src/dram_controller.cc:73-125 | Each cycle or arrival keeps: everything stored has been returned once or is still there, and the bus is spaced |
| `DramRuns.RunKeeps` | src/dram_controller.cc:73-125 | Every run from a state in order stays in order |
| `DramRuns.StartInOrder` | src/dram_controller.cc:73-125 | A controller that has just been built is in order |
| `DramRuns.RunFromStart` | src/dram_controller.cc:73-125 | After every run from start-up the invariant holds and every stored read and write has been handed out exactly once or is still held |
| `DramRuns.NoSwitchBack` | inc/dram_controller.h:13-14 | The watermarks never ask for a switch straight back, for any occupancies, if and only if the write queue has at least two slots |
| `DramRuns.SwitchesNeedProgress` | src/dram_controller.cc:75-97 | With two or more write slots, between two mode switches some request is stored or completes |
| `DramRuns.QuietRun` | src/dram_controller.cc:75-97 | A run without progress that does not ask for a switch never switches |
| `DramDrain.CycleProgress` | src/dram_controller.cc:73-125 | With two or more write slots, or without reads, every cycle makes the lexicographic measure of requests, pending switch, unscheduled requests and waiting time smaller |
| `DramDrain.IdleCycleWaits` | src/dram_controller.cc:303-420 | A cycle that neither takes a bank nor completes brings the next event closer, also when the bus is busy |
| `DramDrain.Drains` | src/dram_controller.cc:73-125 | With two or more write slots, or without reads, and finite times, both queues become empty after finitely many cycles |
| `DramDrain.DrainsExactly` | src/dram_controller.cc:73-125 | If accesses take time, a channel without arrivals becomes empty if and only if it has two or more write slots or holds no read |
| `DramDrain.OneReadNeverDrains` | src/dram_controller.cc:73-125 | The failing input: a controller just built with fewer than two write slots stores one read, and holds it in every later cycle |
| `DramDrain.ReadsStay` | src/dram_controller.cc:75-97 | With fewer than two write slots no read ever leaves, whatever the write queue holds |
| `DramDrain.AllHandedOut` | src/dram_controller.cc:73-125 | Draining and conservation together: once arrivals stop, every request ever stored has been handed out after finitely many cycles |
| `DramDrain.ServedFromStart` | src/dram_controller.cc:73-125 | From start-up with two or more write slots, whatever arrives: finitely many cycles after the last arrival every stored read and write has been handed out exactly once |
| `DramDrain.SwitchesForEver` | src/dram_controller.cc:75-97 | With fewer than two write slots, an empty write queue and tCAS above 0, the mode switches in every cycle and nothing completes |
| `DramController.PacketQueue.Earliest` | src/dram_controller.cc:534-588 | The scan returns the first of the earliest eligible slots and its time |
| `DramController.PacketQueue.UpdateScheduleCycle` | src/dram_controller.cc:534-564 | The cached next request to schedule becomes the one of UpdateSchedule, nothing else changes |
| `DramController.PacketQueue.UpdateProcessCycle` | src/dram_controller.cc:566-588 | The cached next request to process becomes the one of UpdateProcess, nothing else changes |
| `DramController.PacketQueue.CheckQueue` | src/dram_controller.cc:590-616 | The index of the first slot with the address, or -1 when there is none |
| `DramController.PacketQueue.RemoveQueue` | src/block.cc:97-117 | The slot becomes empty and the occupancy one less, every other slot stays |
| `DramController.PacketQueue.Arrive` | src/dram_controller.cc:452-485 | Merge with an equal address, else the first empty slot: refines Insert |
| `DramController.MemoryController.ScheduleQueue` | src/dram_controller.cc:127-276 | The two scans, for open rows first and then for any idle bank, schedule the request of Schedule, which `DramLaws.OpenRowFirst` describes over slots and banks; nothing else changes |
| `DramController.MemoryController.ProcessQueue` | src/dram_controller.cc:278-420 | process() refines Process and returns the completed request |
| `DramController.MemoryController.CallBack` | src/dram_controller.cc:14-53 | Calling one scheduled request back restores its bank, its stage and the count |
| `DramController.MemoryController.ResetRemainRequests` | src/dram_controller.cc:11-71 | The loop calls back exactly the scheduled requests and refreshes both queues |
| `DramController.MemoryController.SwitchMode` | src/dram_controller.cc:75-97 | The mode decision refines Switch and keeps the invariant |
| `DramController.MemoryController.ServeQueue` | src/dram_controller.cc:99-123 | The scheduling and processing half of a cycle refines Serve |
| `DramController.MemoryController.OperateChannel` | src/dram_controller.cc:73-125 | A cycle of the channel refines Operate and keeps the invariant |
| `DramController.MemoryController.AddRq` | src/dram_controller.cc:422-485 | An arriving read is returned before warm-up, returned with the data of a waiting write, merged or stored as AddRead says, with the invariant kept |
| `DramController.MemoryController.AddWq` | src/dram_controller.cc:487-527 | An arriving write is dropped before warm-up, merged or stored as AddWrite says, with the invariant kept |
| `DramController.NextIsHeld` | src/block.cc:99-102 | The sanity check of remove_queue never fires: the queue it removes from is not empty |
| `RegisterWakeup.DependencesRespected` | src/ooo_cpu.cc:642-766 | An entry that has started executing finds the youngest older writer of each of its sources completed, at every wrap position |
| `RegisterWakeup.HeadNeverWaits` | src/ooo_cpu.cc:685-766 | The oldest entry waits for nothing, and is in the ready queue once scheduled and not started |
| `RegisterWakeup.ReadyHasRoom` | src/ooo_cpu.cc:663-681 | An entry about to be queued finds room: the overflow assert of the ready ring never fires |
| `RegisterWakeup.RoomToWake` | src/ooo_cpu.cc:1571-1576 | The same for the overflow assert when waiters are released |
| `RegisterWakeup.DispatchKeeps` | src/ooo_cpu.cc:569-581 | Dispatch keeps the invariant on counters, dependence sets, stages and ready queue |
| `RegisterWakeup.ScheduleKeeps` | src/ooo_cpu.cc:642-683 | Scheduling an entry keeps the invariant |
| `RegisterWakeup.StartKeeps` | src/ooo_cpu.cc:800-819 | Starting the front of the ready queue keeps the invariant |
| `RegisterWakeup.CompleteKeeps` | src/ooo_cpu.cc:1470-1508 | Completion with wake-up keeps the invariant: counters stay exact and woken entries are queued once |
| `RegisterWakeup.RetireKeeps` | src/ooo_cpu.cc:1850-1863 | Retirement keeps the invariant: no dependence set names the freed slot |
| `RegisterWakeup.ProbeSearches` | src/ooo_cpu.cc:709-766 | Looking at one source against one older entry records the entry if and only if it is the youngest uncompleted older writer of that source |
| `RegisterWakeup.EntrySearched` | src/ooo_cpu.cc:709-732 | Past the last source of an older entry, or past a completed one, the search stands at the next older entry |
| `RegisterWakeup.ReleaseStep` | src/ooo_cpu.cc:1559-1598 | Releasing one source of one waiter keeps the counters equal to the pairs that remain |
| `RegisterWakeup.ReleaseEnds` | src/ooo_cpu.cc:1556-1601 | At the end of the release loops the completion is whole |
| `CoreCycle.CompletedNext` | src/ooo_cpu.cc:1619-1624 | One more slot of the completion walk completes it exactly if it is due and the width is not used up |
| `CoreCycle.CompletedRest` | src/ooo_cpu.cc:1617-1622 | Stopping early, at the width or without executing entries, completes the same entries as a full walk |
| `CoreCycle.SchedulesSeen` | src/ooo_cpu.cc:642-683 | Scheduling one entry records it with exactly the youngest uncompleted older writers of its sources, and changes no other stage or time |
| `CoreCycle.ScheduledNext` | src/ooo_cpu.cc:629-639 | One more slot of the scheduling walk extends what is scheduled and recorded by exactly that slot |
| `CoreCycle.ScheduledRest` | src/ooo_cpu.cc:630-632 | Where the walk stops there is nothing more to schedule |
| `CoreCycle.StartStuck` | src/ooo_cpu.cc:776-797 | A front entry that may not start yet holds back all behind it, so the remaining iterations do nothing |
| `CoreLaws.SchedulesWindow` | src/ooo_cpu.cc:624-683 | The walk schedules an unscheduled entry if and only if it and all older ones are fetched and due and fewer than SCHEDULER_SIZE older ones have not started; its time becomes the latency from now; exactly these entries are recorded, with the youngest uncompleted older writer of each source |
| `CoreLaws.WindowExactly` | src/ooo_cpu.cc:629-639 | The running count of the walk stops it exactly where the set of older entries that have not started fills the window |
| `CoreLaws.CompletesExactly` | src/ooo_cpu.cc:1615-1626 | An entry completes if and only if it executes, its time has come and fewer older entries than EXEC_WIDTH are in the same case; no other entry changes its stage |
| `CoreLaws.StartsExactly` | src/ooo_cpu.cc:768-826 | The entries that start are the front of the ready queue, up to the width or to one whose time has not come, and each ends its latency after now |
| `CoreLaws.LatencyCounts` | src/ooo_cpu.cc:652-661 | Once warm a stage ends at least its latency after now; before it takes no time |
| `CoreLaws.RetiresExactly` | src/ooo_cpu.cc:1769-1864 | An entry leaves if and only if it and all older ones are completed, fewer older ones than the width are there, and the time of the oldest has come |
| `CoreLaws.DispatchesInOrder` | src/ooo_cpu.cc:562-584 | The instructions that enter stand behind the others in order, as they came but with the current time, and the others are as they were |
| `CoreLaws.OneStepACycle` | src/main.cc:567-581 | No entry takes two steps in a cycle, which fixes the order of the stages: what leaves was completed before, what completes had started, what starts had been scheduled, what enters stays as it came |
| `ReorderBuffer.RegisterCore.PushReady` | src/ooo_cpu.cc:665-680 | Appending to the ready ring, at a free position, appends to the queue it represents |
| `ReorderBuffer.RegisterCore.PopReady` | src/ooo_cpu.cc:782-785 | Removing the front of the ring removes the front of the queue |
| `ReorderBuffer.RegisterCore.DispatchInstruction` | src/ooo_cpu.cc:562-584 | As many instructions as bandwidth, supply and space allow enter at the tail in program order, as they came but with the current time; the others are as they were |
| `ReorderBuffer.RegisterCore.RegDependency` | src/ooo_cpu.cc:685-735 | The two-part walk around the buffer end finds exactly the youngest uncompleted older writer of each source |
| `ReorderBuffer.RegisterCore.DoScheduling` | src/ooo_cpu.cc:642-683 | One entry is searched, stamped and queued if it waits for nothing |
| `ReorderBuffer.RegisterCore.ScheduleInstruction` | src/ooo_cpu.cc:624-640 | An unscheduled entry is scheduled if and only if it and all older ones are fetched and due and fewer than SCHEDULER_SIZE older ones have not started, with its latency and the last uncompleted writer of each source; the invariant is kept |
| `ReorderBuffer.RegisterCore.DoExecution` | src/ooo_cpu.cc:800-826 | The front of the ready queue starts, with its latency |
| `ReorderBuffer.RegisterCore.ExecuteInstruction` | src/ooo_cpu.cc:768-798 | Exactly the entries at the front of the ready queue start, up to the width and to the first whose time has not come, and each ends its latency after now |
| `ReorderBuffer.RegisterCore.RegRawRelease` | src/ooo_cpu.cc:1556-1601 | The waiters, listed as expand() lists them, are each released from each source, and those that wait for nothing else are queued in index order |
| `ReorderBuffer.RegisterCore.CompleteExecution` | src/ooo_cpu.cc:1470-1508 | A due entry completes with wake-up; any other is left as it is |
| `ReorderBuffer.RegisterCore.CompleteInflightInstruction` | src/ooo_cpu.cc:1615-1626 | An entry completes if and only if it executes, is due and fewer older entries than the width are; no other stage, time or dependence set changes |
| `ReorderBuffer.RegisterCore.RetireRob` | src/ooo_cpu.cc:1769-1864 | An entry leaves if and only if it and all older ones are completed, fewer older ones than the width are there, and the time of the oldest has come; in program order |
| `ReorderBuffer.RegisterCore.Cycle` | src/main.cc:567-581 | One cycle is retire, complete, execute, schedule and dispatch in this order, each doing exactly what its own row says, with the invariant between any two; no entry takes two steps; as many instructions enter as bandwidth, supply and space allow, in program order |
| `CoreProgress.CycleProgress` | src/main.cc:567-581 | Every cycle with entries in use retires one, or brings the oldest closer: in phase, in place in the ready queue, or in time |
| `CoreProgress.HeadLeaves` | src/main.cc:567-581 | The oldest entry leaves after finitely many cycles |
| `CoreProgress.EveryInstructionRetires` | src/main.cc:567-581 | In every run on fetched instructions, with at least one entry per cycle scheduled, executed and retired, every instruction in the buffer retires after finitely many cycles |
| `ReorderBuffer.RegisterCore.Safety` | src/ooo_cpu.cc:624-826 | Between any two steps of any run: dependences respected, head not waiting, counters equal to the naming pairs, in-flight count exact |
| `Btb.SetInsertKeys` | btb/multi_level_basic_btb/multi_level_basic_btb.cc:52-73 | Insertion adds the branch, evicts the entry with the oldest stamp exactly when the set is full, and leaves all others as they are |
| `Btb.SetInsertOk` | btb/multi_level_basic_btb/multi_level_basic_btb.cc:52-73 | A set stays within its ways, with distinct stamps |
| `Btb.StampedOk` | btb/multi_level_basic_btb/multi_level_basic_btb.cc:75-86 | The updated entry gets the newest stamp and stamps stay distinct |
| `Btb.InsertLevelOk` | btb/multi_level_basic_btb/multi_level_basic_btb.cc:52-73 | A level stays well formed under insertion |
| `MultiLevelBtb.InsertKeeps` | btb/multi_level_btb.h:108-127 | The recursive cascade of victims keeps every branch in at most one level with its last taken target, and the inserted branch is in the first level; where the victims go is `BtbLaws.InsertCascades` |
| `MultiLevelBtb.UpdateKeeps` | btb/multi_level_btb.h:129-150 | A promotion leaves the branch in level 0 and nowhere else |
| `MultiLevelBtb.UpdateBtbKeeps` | btb/multi_level_basic_btb/multi_level_basic_btb.cc:250-267 | update_btb keeps exclusivity, ways and agreement with the last taken targets; after a taken branch that is found, or has a target, it is in level 0 |
| `MultiLevelBtb.RunAgrees` | btb/multi_level_basic_btb/multi_level_basic_btb.cc:250-267 | After every trace from empty levels: exclusive, within the ways, and every hit gives the last taken target |
| `MultiLevelBtb.WriteKeeps` | btb/multi_level_basic_btb/multi_level_basic_btb.cc:260-264 | Writing the target through the found entry changes the remembered target of that branch only |
| `BtbLaws.InsertCascades` | btb/multi_level_btb.h:108-127 | Inserting from level lower up to upper: every branch of these levels stays with its entry, or was the oldest of a full set that another branch came into and is then in the next level, or gone if that is upper; what comes in is the branch in the first level, newest of its set, and in each further one what the level before pushed out |
| `BtbLaws.InsertTakes` | btb/multi_level_basic_btb/multi_level_basic_btb.cc:52-73 | One level: the branch is in with its target, newest of its set; a branch leaves only as the oldest of a full set, as the victim reported; every other entry is as it was |
| `BtbLaws.UpdateBtbExactly` | btb/multi_level_basic_btb/multi_level_basic_btb.cc:250-267 | A taken miss with a target is such an insertion into all levels and any other miss changes nothing; a hit that is not taken clears the flag of that branch and moves nothing; a taken hit in level 0 gives target and newest stamp; one further out is an insertion into the levels before, and only the branch leaves its own level |
| `BtbLaws.LostExactly` | btb/multi_level_btb.h:129-150 | A branch other than the updated one, with a nonzero address, is lost if and only if its level pushes it out and is the last, or the one before the level that a promotion takes its branch from |
| `BtbLaws.PromotionLoses` | btb/multi_level_btb.h:129-150 | The input: with one way in each of two levels a taken hit in the second brings its branch into the first, and the branch that was there is in no level, although the second is empty then |
| `BtbLaws.AlwaysTakenExactly` | btb/multi_level_basic_btb/multi_level_basic_btb.cc:250-267 | After every trace from empty levels a stored branch has always_taken if and only if it was taken whenever it was seen since it came into its level |
| `BtbLaws.FlagStep` | btb/multi_level_basic_btb/multi_level_basic_btb.cc:250-267 | One update: a branch that stays in its level keeps the flag unless it is the one updated and not taken; one that comes into a level has it |
| `BtbLaws.SameSetExactly` | btb/multi_level_btb.h:52-54 | With 2^k sets two branches share a set if and only if bits 2 to k + 1 of their addresses are the same |
| `BtbLevels.LruBtb.FindOldest` | btb/multi_level_basic_btb/multi_level_basic_btb.cc:57-65 | The scan in an unknown order finds the entry with the oldest stamp |
| `BtbLevels.LruBtb.Insert` | btb/multi_level_basic_btb/multi_level_basic_btb.cc:52-73 | The insertion refines InsertLevel, state and victim, and the level stays well formed |
| `BtbLevels.LruBtb.Update` | btb/multi_level_basic_btb/multi_level_basic_btb.cc:75-86 | The scan for the largest stamp refines UpdateLevel |
| `BtbLevels.LruBtb.Remove` | btb/multi_level_btb.h:69-72 | Exactly the branch is removed from its set |
| `BtbLevels.MultiLevel.FindBtbEntry` | btb/multi_level_btb.h:96-106 | The first level that holds the branch, or none |
| `BtbLevels.MultiLevel.Insert` | btb/multi_level_btb.h:108-127 | The recursive insertion over the level objects refines InsertFrom, and succeeds if and only if there is a level to insert into; every branch of the levels stays, moves one level out as the oldest of a full set, or leaves the last of them |
| `BtbLevels.MultiLevel.Update` | btb/multi_level_btb.h:129-150 | Promotion and restamping over the level objects refine Update |
| `BtbLevels.MultiLevel.UpdateBtb` | btb/multi_level_basic_btb/multi_level_basic_btb.cc:250-267 | The direct-branch part of update_btb refines UpdateBtb and keeps the invariant; branch by branch it does what `BtbLaws.UpdateBtbExactly` says |
| `StackDistance.SameSet` | btb/reuse_distance.h:66-68 | The masked set index of the recorder and the remainder of the buffer agree for power-of-two sets |
| `StackDistance.RankedHit` | btb/multi_level_basic_btb/multi_level_basic_btb.cc:52-86 | A set in recency order holds a branch if and only if fewer branches than ways are more recent |
| `StackDistance.MissRanked` | btb/multi_level_basic_btb/multi_level_basic_btb.cc:52-73 | A miss evicts the least recent branch and puts the new one in front |
| `StackDistance.HitRanked` | btb/multi_level_basic_btb/multi_level_basic_btb.cc:75-86 | A hit moves the branch to the front and keeps the order of the others |
| `StackDistance.RunRanked` | btb/multi_level_basic_btb/multi_level_basic_btb.cc:52-86 | After every trace of taken branches each set holds its most recent branches, with stamps in recency order |
| `StackDistance.RecordTracks` | btb/reuse_distance.h:41-49 | After every trace the distance set of each branch holds exactly the more recent branches of its set |
| `StackDistance.RecordsEvery` | btb/reuse_distance.h:41-49 | After every trace the record of a branch lists, for each of its accesses in order, the number of distinct branches of its set since the one before, and 0 for the first |
| `StackDistance.StackTheorem` | btb/accuracy.h:73-77 | For every trace of taken branches: an access records the number of distinct branches of its set since its last access (0 on the first), and hits if and only if it is not the first and that number is below the ways |
| `ReuseDistance.Recording.AccessEntry` | btb/reuse_distance.h:41-49 | Its own entry is recorded and cleared, any other collects the branch |
| `ReuseDistance.Recording.Access` | btb/reuse_distance.h:70-85 | The loop over the branches of the set, in any order, refines Access |
| `FoldedHistory.FoldStep` | branch/tage-sc-l/tage-sc-l.cc:188-193 | The direct fold changes with a new bit by rotating, taking the bit in and dropping the one that becomes OLENGTH old |
| `FoldedHistory.FoldIsParity` | branch/tage-sc-l/tage-sc-l.cc:188-193 | Bit k of the direct fold is the parity of the taken branches, of the length most recent, whose age is k modulo the width |
| `FoldedHistory.ShiftedBit` | branch/tage-sc-l/tage-sc-l.cc:188-193 | Bit by bit, the shifts, exclusive ors and mask of update() rotate, take in and drop |
| `FoldedHistory.CompressedIsShifted` | branch/tage/tage.cc:43-54 | The other implementation, with its addition and its different order, takes the same step |
| `FoldedHistory.ShiftedKeeps` | branch/tage-sc-l/tage-sc-l.cc:188-193 | One update of either register follows the fold |
| `FoldedHistory.FoldUnique` | branch/tage-sc-l/tage-sc-l.cc:188-193 | At most one register value is the fold of a history |
| `FoldedHistory.RunIsFold` | branch/tage-sc-l/tage-sc-l.cc:180-193 | After every history the register of either predictor is the exclusive or of the bits of congruent age, so both are equal |
| `HistoryRegisters.FoldedRegister.Update` | branch/tage-sc-l/tage-sc-l.cc:188-193 | The in-place update is Shifted of the newest and the leaving bit of the ring |
| `HistoryRegisters.RingStep` | branch/tage-sc-l/tage-sc-l.cc:1086-1087 | Writing one position lower keeps the ring holding the most recent 4096 bits |
| `HistoryRegisters.GlobalHistory.Push` | branch/tage-sc-l/tage-sc-l.cc:1086-1098 | One bit goes into the ring and every register of the three banks follows its fold |
| `HistoryRegisters.GlobalHistory.HistoryUpdate` | branch/tage-sc-l/tage-sc-l.cc:1080-1100 | The history loop pushes exactly the low bits of the mixed branch word, in order, and every register stays the fold |
| `HistoryRegisters.DirectionBit` | branch/tage-sc-l/tage-sc-l.cc:1080-1087 | The outcome pushed in round i is bit i of the mixed branch word, in two's complement |
| `HistoryRegisters.CompressedRegister.UpdateCompHist` | branch/tage/tage.cc:43-54 | The in-place update is Compressed of the two bits of the bitset |
| `HistoryRegisters.TageHistory.UpdateHistory` | branch/tage/tage.cc:437-449 | Shifting the bitset and updating all registers keeps each of them the fold |
| `HistoryRegisters.SameFold` | branch/tage/tage.cc:43-54 | Registers of both predictors with the same lengths hold the same value after the same outcomes |
| `FastSet.PlacedRising` | inc/set.h:57-71 | A value put before the first larger one keeps the array rising and adds exactly that member |
| `FastSet.SetBitAdds` | inc/set.h:41-45 | Setting one bit adds exactly that number |
| `FastSet.OredWords` | inc/set.h:210-216 | Or-ing the reached words is the union with the members they hold |
| `FastSet.Set.InsertSmall` | inc/set.h:57-71 | Insertion by shifting adds exactly the value, and changes nothing when it is present |
| `FastSet.Set.SearchSmallLinear` | inc/set.h:76-83 | Linear search is membership |
| `FastSet.Set.SearchSmall` | inc/set.h:88-114 | Binary search is membership |
| `FastSet.Set.SmallToBit` | inc/set.h:119-128 | The bits hold exactly the members of the array |
| `FastSet.Set.Insert` | inc/set.h:142-164 | Insertion adds exactly the value; the count is exact until it reaches 13 and then stays |
| `FastSet.Set.Search` | inc/set.h:169-184 | Search is membership, in all four forms |
| `FastSet.Set.Join` | inc/set.h:189-216 | The union with the other set; of a large one exactly the members below the next multiple of 64 after n |
| `FastSet.JoinIsUnion` | inc/set.h:189-216 | A join of large sets is the whole union if and only if every new member is below the next multiple of 64 after n; members below n always are |
| `FastSet.Set.Expand` | inc/set.h:220-248 | The strictly increasing list of the members, of a large set those below n; with all members below n it is the walk through 0, ..., n - 1 that stops at the members |
| `FastSet.ExpandIsWalk` | inc/set.h:220-257 | A rising list of numbers below n is that walk over its elements: iterating over the expanded set visits exactly the members, in index order |
| `LruCounters.HitRanked` | src/base_replacement.cc:13-23 | A hit makes its way rank 0 and moves the more recent ones back, with invalid ways still sharing one value |
| `LruCounters.FreshRanked` | src/base_replacement.cc:13-23 | A fill of an invalid way does the same, including the first one, whose increment wraps the 32-bit counters |
| `LruCounters.FillRanked` | src/cache.cc:388-416 | A fill of any way, keeping the counter of the replaced block, makes it the most recent |
| `LruCounters.VictimOf` | src/base_replacement.cc:8-11 | The victim is invalid if any way is, and else the end of the recency list |
| `LruCounters.RunRanked` | src/base_replacement.cc:13-23 | After every run of fills and hits the counters are ranks in the list of touched ways |
| `LruCounters.CountersAreRanks` | src/base_replacement.cc:8-23 | After every run: a valid way's counter is the number of ways touched after it, invalid ways share UINT32_MAX, k-1 or k, and the victim has the earliest last touch |
| `LruCounters.FillsFromTheEnd` | src/base_replacement.cc:8-11 | When every fill takes the victim, a set fills from its last way to its first: after k fills the last k ways are valid |
| `CacheLru.Cache.LruVictim` | src/base_replacement.cc:8-11 | The max_element scan returns the last invalid way, else the first way with the largest counter, way by way |
| `CacheLru.Cache.LruUpdate` | src/base_replacement.cc:13-23 | Counters up to the hit one go up with wrap-around, the way becomes 0, writeback hits and other sets change nothing |
| `CacheLru.Cache.Hit` | src/cache.cc:203-225 | A hit on a valid way is one more event of its set, and leaves the other sets as they are |
| `CacheLru.Cache.HandleFill` | src/cache.cc:336-416 | A fill takes the way touched longest ago, keeps its counter and updates, as one more event of its set; a refused one changes nothing |
| `CacheLru.Cache.SetsAreRanked` | src/base_replacement.cc:8-23 | In every reachable state of every set of the cache: valid counters are the numbers of ways touched later, invalid ways share one value, the valid ways are the last ones, as many as there were fills, and victims have the earliest last touch |
| `DelayQueue.OrderedExactly` | inc/delay_queue.hpp:123-129 | The elements whose delay has run out stand in front after each of the coming cycles if and only if no element with more than one cycle to wait stands before a shorter wait |
| `DelayQueue.PushReadyKeeps` | inc/delay_queue.hpp:114-118 | push_back_ready keeps that order if and only if no queued element has more than one cycle to wait |
| `DelayQueue.PartitionFinds` | inc/delay_queue.hpp:127 | The binary search finds where the nonpositive delays end |
| `DelayQueue.OperateFinds` | inc/delay_queue.hpp:123-129 | After operate() the prefix found is exactly the elements that have seen at least max(delay, 1) calls |
| `DelayQueue.MixedPushesReleaseEarly` | inc/delay_queue.hpp:114-129 | A ready push behind an element with two or more cycles to wait releases that element after one cycle |
| `DelayQueue.CircularBuffer.PushBack` | inc/circular_buffer.hpp:130-131 | With absolute counters and modulo access, a push appends to the contents |
| `DelayQueue.CircularBuffer.PopFront` | inc/circular_buffer.hpp:132 | A pop removes the first element |
| `DelayQueue.Queue.PushBack` | inc/delay_queue.hpp:102-106 | First in, first out, with the fixed delay; exact readiness is kept |
| `DelayQueue.Queue.PushBackReady` | inc/delay_queue.hpp:114-118 | First in, first out; exact readiness is kept if and only if no queued element has more than one cycle to wait |
| `DelayQueue.Queue.PopFront` | inc/delay_queue.hpp:108-112 | The first element leaves; exact readiness is kept if and only if an element was ready |
| `DelayQueue.Queue.Operate` | inc/delay_queue.hpp:123-129 | All delays count down and the ready end is what the search finds, between head and tail, and exact for ordered delays |
| `DelayQueue.Queue.HasReadyMeans` | inc/delay_queue.hpp:65 | An element is reported ready if and only if the oldest one has seen as many operate() calls as its delay, and at least one |
| `VirtualMemory.ClaimKeeps` | src/vmem.cc:74-86 | Claiming keeps all frames distinct, unreserved and off the free list, keeps every mapping, loses no frame, and stops only for a new key without free frames |
| `VirtualMemory.AnswersStable` | src/vmem.cc:93-122 | Every answer of a run is the one its final mappings give: mappings never change |
| `VirtualMemory.DataInjective` | src/vmem.cc:93-105 | Two data translations of a run agree if and only if they are of the same address of the same cpu |
| `VirtualMemory.PagesShared` | src/vmem.cc:93-105 | A translation keeps the offset in the page, and two of a run are in one frame if and only if they are of the same cpu and virtual page |
| `VirtualMemory.TablesShared` | src/vmem.cc:107-122 | Two entries of a run, for any page size, lie in the same page of the page table if and only if they are of the same cpu and level and their virtual pages agree above nine bits for each level from theirs to the last |
| `VirtualMemory.EntriesInjective` | src/vmem.cc:107-122 | For pages of at least 4096 bytes leaf entries coincide exactly for the same virtual page of one cpu, and no entry of any level lies in a data page |
| `VirtualMemory.LeavesApartExactly` | src/vmem.cc:107-122 | In every run of every shuffled memory leaf entries coincide exactly for the same virtual page of one cpu, if and only if pages have at least 4096 bytes, although the constructor accepts 1024 |
| `VirtualMemory.CollidingAnswers` | src/vmem.cc:107-122 | With smaller pages two requests for different virtual pages get the same leaf entry: entry pageSize/8 of the first table and entry 0 of the next |
| `VirtualMemory.AnswersInRange` | src/vmem.cc:44-50 | No answer lies in the reserve, so never in frame 0; data addresses, and all for pages of at least 4096 bytes, lie inside memory |
| `VirtualMemory.RunsOutExactly` | src/vmem.cc:74-86 | A run is answered to its end if and only if its new keys do not outnumber the free frames |
| `VirtualMemory.Lg2` | inc/util.h:6-9 | The largest power of two not above the argument |
| `FrameAllocator.Allocator.constructor` | src/vmem.cc:34-72 | The free list is a permutation of the unreserved frames, for every sequence of random numbers |
| `FrameAllocator.Allocator.Populate` | src/vmem.cc:34-50 | The free list is all frames from the reserve on |
| `FrameAllocator.ReserveIsMegabyte` | src/vmem.cc:34-50 | The frames set aside are exactly 1048576 bytes, or one page if pages are larger |
| `FrameAllocator.Allocator.Shuffle` | src/vmem.cc:52-61 | The swaps are a permutation for all random numbers |
| `FrameAllocator.Allocator.NextFreePage` | src/vmem.cc:74-86 | The first free frame, or the end of the program |
| `FrameAllocator.Allocator.Translate` | src/vmem.cc:93-105 | The translation claims on first use and answers as the value model does |
| `FrameAllocator.Allocator.PteAddress` | src/vmem.cc:107-122 | The page-table entry address claims on first use and answers as the value model does |
| `VirtualMemory.SameFrames` | src/vmem.cc:34-61 | Every permutation of the unreserved frames is a sound initial memory |
| `FrameAllocator.Boot` | src/vmem.cc:5-48 | For all sizes: the program exits if and only if the capacity is no multiple of the page size or the page size no power of two of at least 1024; a page size of 0 and a memory smaller than the reserve are undefined behaviour; otherwise a sound memory is built |
| `Thermometer.ColdestFirst` | btb/hot_warm_cold_btb.template/hot_warm_cold_btb.cc:494-525 | The victim stands in no hotter class than any resident, nor than the incoming branch, which counts one class hotter when it is topmost warm |
| `Thermometer.HotIncomingEnters` | btb/hot_warm_cold_btb.template/hot_warm_cold_btb.cc:401-420 | A raised hot incoming branch is never passed over |
| `Thermometer.VictimLeastRecent` | btb/hot_warm_cold_btb.template/hot_warm_cold_btb.cc:216-237 | A resident victim is the least recently updated of the eligible residents |
| `Thermometer.VictimExists` | btb/hot_warm_cold_btb.template/hot_warm_cold_btb.cc:522 | The assert on the don't-care list never fires: a full set has an eligible branch |
| `Thermometer.ColderSurvivorShares` | btb/hot_warm_cold_btb.template/hot_warm_cold_btb.cc:401-525 | A resident with a ratio no higher than that of a resident victim can survive it only in the same class, and more recently used |
| `Thermometer.ResidentVictim` | btb/hot_warm_cold_btb.template/hot_warm_cold_btb.cc:494-525 | Every resident without a ratio is more recent than a resident victim; no resident is of a colder class than a victim with a ratio, and those of its class are more recent |
| `Thermometer.NeglectedVictim` | btb/hot_warm_cold_btb.template/hot_warm_cold_btb.cc:494-525 | A resident victim is also less recent than the residents of the coldest class, if the incoming branch does not compete |
| `Thermometer.IncomingVictim` | btb/hot_warm_cold_btb.template/hot_warm_cold_btb.cc:401-525 | The incoming branch is refused only if it competes, without a ratio or, when raised, below the hottest class, and no resident is of a colder class, where the class before the hottest counts as hottest when raised |
| `Thermometer.InsertKeeps` | btb/hot_warm_cold_btb.template/hot_warm_cold_btb.cc:600-624 | Insertion keeps the set within its ways, free of address 0 and in recency order, and the victim is nonzero |
| `Thermometer.UpdateListed` | btb/hot_warm_cold_btb.template/hot_warm_cold_btb.cc:203-214 | update_lru makes the branch the most recent one |
| `HotWarmCold.Buffer.AddToCandidate` | btb/hot_warm_cold_btb.template/hot_warm_cold_btb.cc:401-420 | The branch goes to the vector of its place, or to none, and the result says whether it matters |
| `HotWarmCold.Buffer.FindLruMin` | btb/hot_warm_cold_btb.template/hot_warm_cold_btb.cc:216-237 | A candidate, and if resident the one with the oldest stamp, for every random number |
| `HotWarmCold.Buffer.ChooseVictimGeneral` | btb/hot_warm_cold_btb.template/hot_warm_cold_btb.cc:494-525 | The choice is a victim in the coldest class or a don't-care branch; its asserts hold |
| `HotWarmCold.Buffer.UpdateLru` | btb/hot_warm_cold_btb.template/hot_warm_cold_btb.cc:203-214 | The scan for the largest stamp gives the branch the newest one |
| `HotWarmCold.Buffer.Touched` | btb/hot_warm_cold_btb.template/hot_warm_cold_btb.cc:203-214 | A hit keeps all sets sound and moves the branch to the front of its list |
| `HotWarmCold.Buffer.Insert` | btb/hot_warm_cold_btb.template/hot_warm_cold_btb.cc:600-624 | insert() as a whole: the victim, the new set, unchanged when the incoming branch is chosen; its asserts hold |

## Left out

- `OptGen`: one set and demand accesses only; prefetch calls and tags of other sets that fall on the same sampler entry are not modelled, and the 32-bit slot counters, never above the number of ways, do not wrap.
- `Sampler`: tags and time stamps are given; the tag hash, the predictors that are trained and the re-reference counters of the lines are not modelled.
- `Dram`: one channel with a single shared clock; cycles are unbounded and the largest stamp stands for no time. Statistics, the request type kept in a bank, bus congestion counters and the queue head cursor are not modelled, and the return list of a merged duplicate is dropped as in the code.
- `RegisterWakeup`: instructions without memory operands; the load and store queues, branch and prefetcher hooks, the producer id and statistics are not modelled, and the dispatch buffer is a parameter.
- `RegisterWakeup.ReleaseStep`: dependence sets are mathematical sets here, walked in the order in which `FastSet.Set.Expand` lists them; that insertion, search and expansion of the set class refine them is the separate result of `FastSet`.
- `ReorderBuffer.RegisterCore.constructor`: reorder buffers of at least two entries; with one entry the issue loop of src/ooo_cpu.cc:794-796 has no iteration limit.
- `FastSet`: the array and the bit words share memory in the source and are two arrays here; values are below 512, as the commented-out asserts say.
- `Btb`: one cpu and unbounded stamps; indirect branches, returns and the stream buffer are not modelled. The scans for the oldest stamp start from some entry and not from the largest number, which no stamp reaches.
- `BtbLevels.MultiLevel.Insert`: the loop over levels always stops in the first one, because an LRU level always takes the branch; levels that refuse one are not modelled.
- `LruCounters`: runs without invalidation; `invalidate_entry` breaks the ranks.
- `CacheLru`: only the valid bit and the counter of a block; tags, data, and the miss queues are not modelled.
- `FoldedHistory`: bits of a history are booleans; the history position is unbounded, which 4096 dividing 2^32 makes harmless. Path history and the table hashes are not modelled.
- `DelayQueue`: positions and delays are unbounded; `clear` is not modelled, as it leaves the delays behind.
- `VirtualMemory`: shift amounts are unbounded, so page tables with so many levels that a 64-bit shift overflows behave differently; page sizes are not cut to 32 bits. The random generator is an arbitrary function.
- `HotWarmCold`: the configuration that uses LRU inside a class without outcome prediction; taken histories, the sort-by-ratio variant and counters are not modelled. Ratios are real numbers, given anew for each choice.
- Trace reading, statistics, prefetchers, the other predictors and replacement variants, and the miss and fill paths of the caches beyond LRU are not modelled.
