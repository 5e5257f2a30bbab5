/** Hawkeye's on-line reconstruction of Belady's optimal policy (btb/hawkeye_btb/optgen.h),
    driven by the demand accesses of one BTB set (btb/hawkeye_btb/hawkeye_btb.cc).

    A reuse at time t of something last touched d accesses ago asks for the liveness window
    [t - d, t). The occupancy vector is a ring of 128 slots and the set timer counts modulo 1024.
 */
module OptGen {
  import opened Arithmetic
  import Recency

  const VECTOR_SIZE: nat := 128
  const TIMER_SIZE: nat := 1024

  /** A liveness interval: the time slots left, ..., right - 1. */
  datatype Window = Window(left: nat, right: nat)

  // ---------------------------------------------------------------- packing windows

  ghost function Covering(ws: seq<Window>, sel: set<nat>, slot: int): (r: set<nat>)
    ensures forall i :: i in r <==> i in sel && i < |ws| && ws[i].left <= slot < ws[i].right
    ensures r <= sel
  {
    set i | i in sel && i < |ws| && ws[i].left <= slot < ws[i].right
  }

  /** The selection never uses more than `c` ways at once. */
  ghost predicate Packs(ws: seq<Window>, sel: set<nat>, c: nat) {
    && (forall i :: i in sel ==> i < |ws|)
    && (forall slot: int :: |Covering(ws, sel, slot)| <= c)
  }

  /** `n` is the largest number of windows that fit into a cache of `c` ways. */
  ghost predicate IsMaximumPacking(ws: seq<Window>, c: nat, n: nat) {
    && (exists sel :: Packs(ws, sel, c) && |sel| == n)
    && (forall sel :: Packs(ws, sel, c) ==> |sel| <= n)
  }

  /** Windows are presented in the order in which they end. */
  ghost predicate Ordered(ws: seq<Window>) {
    && (forall i | 0 <= i < |ws| :: ws[i].left < ws[i].right)
    && (forall i, j | 0 <= i < j < |ws| :: ws[i].right < ws[j].right)
  }

  ghost predicate HasRoom(ws: seq<Window>, sel: set<nat>, w: Window, c: nat) {
    forall slot: int | w.left <= slot < w.right :: |Covering(ws, sel, slot)| < c
  }

  /** The windows accepted when each is taken as soon as it fits with those taken before. */
  ghost function Greedy(ws: seq<Window>, c: nat): (r: set<nat>)
    ensures forall i :: i in r ==> i < |ws|
  {
    if ws == [] then {} else
    var n := |ws| - 1;
    var before := Greedy(ws[..n], c);
    if HasRoom(ws[..n], before, ws[n], c) then before + {n} else before
  }

  lemma CoveringPrefix(ws: seq<Window>, more: seq<Window>, sel: set<nat>, slot: int)
    requires forall i :: i in sel ==> i < |ws|
    ensures Covering(ws + more, sel, slot) == Covering(ws, sel, slot)
  {
  }

  /** Taking one more window raises exactly the slots it covers. */
  lemma CoveringInsert(ws: seq<Window>, sel: set<nat>, i: nat, slot: int)
    requires i < |ws| && i !in sel
    ensures |Covering(ws, sel + {i}, slot)|
         == |Covering(ws, sel, slot)| + (if ws[i].left <= slot < ws[i].right then 1 else 0)
  {
    if ws[i].left <= slot < ws[i].right {
      assert Covering(ws, sel + {i}, slot) == Covering(ws, sel, slot) + {i};
    } else {
      assert Covering(ws, sel + {i}, slot) == Covering(ws, sel, slot);
    }
  }

  /** Growing the list of presented windows by one. */
  lemma GreedyStep(ws: seq<Window>, w: Window, c: nat)
    ensures Greedy(ws + [w], c)
         == if HasRoom(ws, Greedy(ws, c), w, c) then Greedy(ws, c) + {|ws|} else Greedy(ws, c)
  {
    assert (ws + [w])[..|ws|] == ws;
  }

  lemma {:induction false} GreedyPacks(ws: seq<Window>, c: nat)
    ensures Packs(ws, Greedy(ws, c), c)
  {
    if ws == [] {
      forall slot: int ensures Covering(ws, {}, slot) == {} {}
    } else {
      var n := |ws| - 1;
      var g := Greedy(ws[..n], c);
      GreedyPacks(ws[..n], c);
      assert ws == ws[..n] + [ws[n]];
      forall slot: int ensures |Covering(ws, Greedy(ws, c), slot)| <= c {
        CoveringPrefix(ws[..n], [ws[n]], g, slot);
        assert |Covering(ws[..n], g, slot)| <= c;
        CoveringInsert(ws, g, n, slot);
      }
    }
  }

  ghost function Below(sel: set<nat>, i: nat): set<nat> {
    set k | k in sel && k < i
  }

  /** The exchange step: any packing that agrees with the greedy choice on the first `i` windows
      can be changed, without losing a window, into one that agrees on the first `i + 1`. */
  lemma Exchange(ws: seq<Window>, c: nat, sel: set<nat>, i: nat) returns (sel': set<nat>)
    requires Ordered(ws) && i < |ws| && Packs(ws, sel, c)
    requires Below(sel, i) == Greedy(ws[..i], c)
    ensures Packs(ws, sel', c) && |sel'| >= |sel|
    ensures Below(sel', i + 1) == Greedy(ws[..i + 1], c)
  {
    var g := Greedy(ws[..i], c);
    var w := ws[i];
    assert ws[..i + 1] == ws[..i] + [w];
    GreedyStep(ws[..i], w, c);
    assert ws == ws[..i] + ws[i..];
    if !HasRoom(ws[..i], g, w, c) {
      if i in sel {
        RejectedIsBlocked(ws, c, sel, i);
      }
      sel' := sel;
      assert Below(sel', i + 1) == g;
    } else if i in sel {
      sel' := sel;
      assert Below(sel', i + 1) == g + {i};
    } else {
      sel' := TakeOver(ws, c, sel, i);
      assert Below(sel', i + 1) == g + {i};
    }
  }

  /** Accepting a window the greedy choice has room for costs at most one window that ends later. */
  lemma TakeOver(ws: seq<Window>, c: nat, sel: set<nat>, i: nat) returns (sel': set<nat>)
    requires Ordered(ws) && i < |ws| && i !in sel && Packs(ws, sel, c)
    requires Below(sel, i) == Greedy(ws[..i], c)
    requires HasRoom(ws[..i], Greedy(ws[..i], c), ws[i], c)
    ensures Packs(ws, sel', c) && |sel'| >= |sel|
    ensures Below(sel', i) == Below(sel, i) && i in sel'
  {
    var w := ws[i];
    if HasRoom(ws, sel, w, c) {
      sel' := sel + {i};
      Widen(ws, c, sel, i);
    } else {
      var full := LeftmostFull(ws, sel, w, c);
      var later := LaterOver(ws, c, sel, i, full);
      sel' := sel - {later} + {i};
      Swap(ws, c, sel, i, later, full);
    }
  }

  lemma Widen(ws: seq<Window>, c: nat, sel: set<nat>, i: nat)
    requires i < |ws| && i !in sel && Packs(ws, sel, c) && HasRoom(ws, sel, ws[i], c)
    ensures Packs(ws, sel + {i}, c)
  {
    forall slot: int ensures |Covering(ws, sel + {i}, slot)| <= c {
      CoveringInsert(ws, sel, i, slot);
      assert |Covering(ws, sel, slot)| <= c;
    }
  }

  /** A later window over the first saturated slot covers every saturated slot of window `i`. */
  lemma Swap(ws: seq<Window>, c: nat, sel: set<nat>, i: nat, later: nat, full: int)
    requires i < |ws| && i !in sel && Packs(ws, sel, c)
    requires later in sel && later < |ws| && ws[later].left <= full && ws[i].right <= ws[later].right
    requires forall slot: int | ws[i].left <= slot < full :: |Covering(ws, sel, slot)| < c
    ensures Packs(ws, sel - {later} + {i}, c) && |sel - {later} + {i}| == |sel|
  {
    var rest := sel - {later};
    assert sel == rest + {later};
    forall slot: int ensures |Covering(ws, rest + {i}, slot)| <= c {
      CoveringInsert(ws, rest, i, slot);
      CoveringInsert(ws, rest, later, slot);
      assert |Covering(ws, sel, slot)| <= c;
    }
  }

  lemma RejectedIsBlocked(ws: seq<Window>, c: nat, sel: set<nat>, i: nat)
    requires i < |ws| && i in sel && Packs(ws, sel, c)
    requires Below(sel, i) == Greedy(ws[..i], c)
    ensures HasRoom(ws[..i], Greedy(ws[..i], c), ws[i], c)
  {
    var g := Greedy(ws[..i], c);
    assert ws == ws[..i] + ws[i..];
    forall slot: int | ws[i].left <= slot < ws[i].right
      ensures |Covering(ws[..i], g, slot)| < c
    {
      CoveringPrefix(ws[..i], ws[i..], g, slot);
      CoveringInsert(ws, g, i, slot);
      Recency.SubsetSize(Covering(ws, g + {i}, slot), Covering(ws, sel, slot));
      assert |Covering(ws, sel, slot)| <= c;
    }
  }

  /** The first saturated slot of a window that does not fit. */
  lemma LeftmostFull(ws: seq<Window>, sel: set<nat>, w: Window, c: nat) returns (full: int)
    requires !HasRoom(ws, sel, w, c)
    ensures w.left <= full < w.right && |Covering(ws, sel, full)| >= c
    ensures forall slot: int | w.left <= slot < full :: |Covering(ws, sel, slot)| < c
  {
    var bad: int :| w.left <= bad < w.right && |Covering(ws, sel, bad)| >= c;
    full := w.left;
    while |Covering(ws, sel, full)| < c
      invariant w.left <= full <= bad
      invariant forall slot: int | w.left <= slot < full :: |Covering(ws, sel, slot)| < c
      decreases bad - full
    {
      full := full + 1;
    }
  }

  /** A slot the greedy choice left free but `sel` saturates is covered by a window that ends later. */
  lemma LaterOver(ws: seq<Window>, c: nat, sel: set<nat>, i: nat, full: int) returns (later: nat)
    requires Ordered(ws) && i < |ws| && i !in sel && Packs(ws, sel, c)
    requires Below(sel, i) == Greedy(ws[..i], c)
    requires HasRoom(ws[..i], Greedy(ws[..i], c), ws[i], c)
    requires ws[i].left <= full < ws[i].right && |Covering(ws, sel, full)| >= c
    ensures later in sel && i < later < |ws| && ws[later].left <= full && ws[i].right < ws[later].right
  {
    var g := Greedy(ws[..i], c);
    var here := Covering(ws, sel, full);
    var early := Covering(ws[..i], g, full);
    if here <= early {
      Recency.SubsetSize(here, early);
      assert false;
    }
    later :| later in here && later !in early;
    assert later < i ==> later in Below(sel, i);
  }

  /** Any packing can be turned into one that follows the greedy choice on the first `i` windows. */
  lemma {:induction false} FollowGreedy(ws: seq<Window>, c: nat, sel: set<nat>, i: nat) returns (sel': set<nat>)
    requires Ordered(ws) && i <= |ws| && Packs(ws, sel, c)
    ensures Packs(ws, sel', c) && |sel'| >= |sel|
    ensures Below(sel', i) == Greedy(ws[..i], c)
  {
    if i == 0 {
      sel' := sel;
    } else {
      var s := FollowGreedy(ws, c, sel, i - 1);
      sel' := Exchange(ws, c, s, i - 1);
    }
  }

  /** Taking every window that fits, in the order in which they end, is optimal. */
  lemma GreedyIsOptimal(ws: seq<Window>, c: nat)
    requires Ordered(ws)
    ensures IsMaximumPacking(ws, c, |Greedy(ws, c)|)
  {
    GreedyPacks(ws, c);
    forall sel | Packs(ws, sel, c) ensures |sel| <= |Greedy(ws, c)| {
      var s := FollowGreedy(ws, c, sel, |ws|);
      assert ws[..|ws|] == ws;
      assert s == Below(s, |ws|);
    }
  }

  // ---------------------------------------------------------------- the occupancy ring

  /** Steps from ring position `last` forward to ring position `curr`. */
  function RingDistance(last: nat, curr: nat, n: nat): (d: nat)
    requires last < n && curr < n
    ensures d < n && (last + d == curr || last + d == curr + n)
  {
    if last <= curr then curr - last else curr + n - last
  }

  function Next(i: nat, n: nat): (r: nat)
    requires i < n
    ensures r < n && r == if i + 1 == n then 0 else i + 1
  {
    (i + 1) % n
  }

  /** Does ring position `j` lie within `d` steps of `last`? */
  predicate WithinSteps(j: nat, last: nat, d: nat, n: nat)
    requires j < n && last < n
  {
    RingDistance(last, j, n) < d
  }

  lemma StepForward(last: nat, i: nat, curr: nat, n: nat)
    requires last < n && i < n && curr < n && i != curr
    requires RingDistance(last, i, n) <= RingDistance(last, curr, n)
    ensures RingDistance(last, Next(i, n), n) == RingDistance(last, i, n) + 1 <= RingDistance(last, curr, n)
    ensures forall j: nat | j < n :: WithinSteps(j, last, RingDistance(last, Next(i, n), n), n)
              <==> WithinSteps(j, last, RingDistance(last, i, n), n) || j == i
  {
  }

  /** How many accepted windows cover a time slot, in the unbounded history. */
  ghost function Occupancy(ws: seq<Window>, c: nat, slot: int): nat {
    |Covering(ws, Greedy(ws, c), slot)|
  }

  lemma OccupancyStep(ws: seq<Window>, w: Window, c: nat, slot: int)
    ensures Occupancy(ws + [w], c, slot)
         == Occupancy(ws, c, slot)
            + (if HasRoom(ws, Greedy(ws, c), w, c) && w.left <= slot < w.right then 1 else 0)
  {
    GreedyStep(ws, w, c);
    CoveringPrefix(ws, [w], Greedy(ws, c), slot);
    CoveringInsert(ws + [w], Greedy(ws, c), |ws|, slot);
  }

  /** Before time `t`, the ring holds the occupancy of the last VECTOR_SIZE slots. */
  ghost predicate Mirrors(ring: seq<nat>, t: nat, ws: seq<Window>, c: nat) {
    && |ring| == VECTOR_SIZE
    && (forall j | 0 <= j < VECTOR_SIZE :: ring[j] <= c)
    && (forall s: nat {:trigger Occupancy(ws, c, s)} | t - VECTOR_SIZE <= s < t ::
          ring[s % VECTOR_SIZE] == Occupancy(ws, c, s))
  }

  /** The ring positions visited for a window shorter than the ring are the window's slots. */
  lemma StepsAreSlots(t: nat, d: nat, s: nat)
    requires 0 < d < VECTOR_SIZE && d <= t && t - VECTOR_SIZE <= s < t
    ensures var last, curr := (t - d) % VECTOR_SIZE, t % VECTOR_SIZE;
            WithinSteps(s % VECTOR_SIZE, last, RingDistance(last, curr, VECTOR_SIZE), VECTOR_SIZE) <==> t - d <= s
    ensures s % VECTOR_SIZE == t % VECTOR_SIZE <==> s == t - VECTOR_SIZE
  {
    SlotBack(t, d);
    SlotBack(t, t - s);
  }

  /** The ring position of the slot `k` steps back. */
  lemma SlotBack(t: nat, k: nat)
    requires k <= VECTOR_SIZE && k <= t
    ensures (t - k) % VECTOR_SIZE
         == if k <= t % VECTOR_SIZE then t % VECTOR_SIZE - k else t % VECTOR_SIZE + VECTOR_SIZE - k
  {
    var a, x := t / 128, t % 128;
    if k <= x {
      DivModUnique(t - k, 128, a, x - k);
    } else {
      DivModUnique(t - k, 128, a - 1, x + 128 - k);
    }
  }

  /** What `ShouldCache` answers and leaves behind, on the ring as a value. */
  ghost predicate Evaluated(ring: seq<nat>, last: nat, curr: nat, c: nat, isCache: bool, ring': seq<nat>)
    requires last < |ring| && curr < |ring|
  {
    var d := RingDistance(last, curr, |ring|);
    && |ring'| == |ring|
    && (isCache <==> forall j: nat | j < |ring| && WithinSteps(j, last, d, |ring|) :: ring[j] < c)
    && (forall j: nat | j < |ring| ::
          ring'[j] == ring[j] + (if isCache && WithinSteps(j, last, d, |ring|) then 1 else 0))
  }

  /** On the ring, a window shorter than the ring is judged as on the unbounded history. */
  lemma {:induction false} VerdictIsHasRoom(ring: seq<nat>, t: nat, ws: seq<Window>, c: nat, d: nat, isCache: bool,
                                            ring': seq<nat>)
    requires Mirrors(ring, t, ws, c) && 0 < d < VECTOR_SIZE && d <= t
    requires Evaluated(ring, (t - d) % VECTOR_SIZE, t % VECTOR_SIZE, c, isCache, ring')
    ensures isCache <==> HasRoom(ws, Greedy(ws, c), Window(t - d, t), c)
  {
    var last, curr := (t - d) % VECTOR_SIZE, t % VECTOR_SIZE;
    var n := RingDistance(last, curr, VECTOR_SIZE);
    SlotBack(t, d);
    if isCache {
      forall slot: int | t - d <= slot < t ensures |Covering(ws, Greedy(ws, c), slot)| < c {
        StepsAreSlots(t, d, slot);
        assert ring[slot % VECTOR_SIZE] == Occupancy(ws, c, slot);
      }
    } else {
      var j: nat :| j < VECTOR_SIZE && WithinSteps(j, last, n, VECTOR_SIZE) && ring[j] >= c;
      var slot := t - d + RingDistance(last, j, VECTOR_SIZE);
      DivModUnique(slot, 128, (t - d) / 128 + (if last <= j then 0 else 1), j);
      assert ring[slot % VECTOR_SIZE] == Occupancy(ws, c, slot);
    }
  }

  /** The ring mirrors the history again after the window is judged and slot `t` is cleared. */
  lemma MirrorStep(ring: seq<nat>, t: nat, ws: seq<Window>, c: nat, d: nat, isCache: bool, ring': seq<nat>)
    requires Mirrors(ring, t, ws, c) && 0 < d < VECTOR_SIZE && d <= t
    requires Evaluated(ring, (t - d) % VECTOR_SIZE, t % VECTOR_SIZE, c, isCache, ring')
    requires forall i | 0 <= i < |ws| :: ws[i].right < t
    ensures Mirrors(ring'[t % VECTOR_SIZE := 0], t + 1, ws + [Window(t - d, t)], c)
  {
    var w := Window(t - d, t);
    VerdictIsHasRoom(ring, t, ws, c, d, isCache, ring');
    var after := ring'[t % VECTOR_SIZE := 0];
    forall s: nat | t + 1 - VECTOR_SIZE <= s < t + 1
      ensures after[s % VECTOR_SIZE] == Occupancy(ws + [w], c, s)
    {
      OccupancyStep(ws, w, c, s);
      if s == t {
        NothingReaches(ws, c, t);
      } else {
        StepsAreSlots(t, d, s);
        assert ring[s % VECTOR_SIZE] == Occupancy(ws, c, s);
        assert after[s % VECTOR_SIZE] == ring'[s % VECTOR_SIZE];
      }
    }
  }

  lemma NothingReaches(ws: seq<Window>, c: nat, t: nat)
    requires forall i | 0 <= i < |ws| :: ws[i].right <= t
    ensures Occupancy(ws, c, t) == 0
  {
    assert Covering(ws, Greedy(ws, c), t) == {};
  }

  /** Clearing slot `t` alone keeps the mirror when no window was judged. */
  lemma MirrorClear(ring: seq<nat>, t: nat, ws: seq<Window>, c: nat)
    requires Mirrors(ring, t, ws, c)
    requires forall i | 0 <= i < |ws| :: ws[i].right < t
    ensures Mirrors(ring[t % VECTOR_SIZE := 0], t + 1, ws, c)
  {
    NothingReaches(ws, c, t);
  }

  /** At equal ring positions `ShouldCache` accepts whatever the slots hold, and changes none. */
  lemma NothingLookedAt(ring: seq<nat>, curr: nat, c: nat, isCache: bool, ring': seq<nat>)
    requires curr < |ring| && Evaluated(ring, curr, curr, c, isCache, ring')
    ensures isCache && ring' == ring
  {
    assert forall j: nat | j < |ring| :: !WithinSteps(j, curr, RingDistance(curr, curr, |ring|), |ring|);
  }

  /** One reference to a tag: its first one, or a reuse of a tag last referenced at an earlier time. */
  datatype Access = First | Reuse(prev: nat)

  /** The distance the timer sees for a reuse at time `t`: timers count modulo TIMER_SIZE. */
  function TimerDistance(t: nat, prev: nat): (d: nat)
    ensures d < TIMER_SIZE && (prev <= t ==> d <= t - prev)
  {
    (t - prev) % TIMER_SIZE
  }

  /** The arithmetic of stamps kept modulo TIMER_SIZE, a multiple of VECTOR_SIZE. */
  lemma TimerArithmetic(t: nat, prev: nat)
    requires prev < t
    ensures var timer, stamp, d := t % TIMER_SIZE, prev % TIMER_SIZE, TimerDistance(t, prev);
            && (if timer < stamp then timer + TIMER_SIZE else timer) - stamp == d <= t
            && stamp % VECTOR_SIZE == prev % VECTOR_SIZE == (t - d) % VECTOR_SIZE
            && (d == 0 || d == VECTOR_SIZE ==> prev % VECTOR_SIZE == t % VECTOR_SIZE)
  {
    var x, y, a, b := t % 1024, prev % 1024, t / 1024, prev / 1024;
    var d := if x < y then x + 1024 - y else x - y;
    DivModUnique(t - prev, 1024, if x < y then a - b - 1 else a - b, d);
    DivModUnique(prev, 128, 8 * b + y / 128, y % 128);
    DivModUnique(t - d, 128, (if x < y then 8 * a - 8 else 8 * a) + y / 128, y % 128);
    if d == 0 || d == VECTOR_SIZE {
      DivModUnique(t, 128, (t - d) / 128 + d / 128, y % 128);
    }
  }

  /** Ages below 1024 are shown as they are. */
  lemma YoungDistance(t: nat, prev: nat)
    requires prev < t
    ensures t - prev < 1024 ==> TimerDistance(t, prev) == t - prev
  {
    if t - prev < 1024 {
      DivModUnique(t - prev, 1024, 0, t - prev);
    }
  }

  lemma TimerTick(t: nat)
    ensures (t % TIMER_SIZE + 1) % TIMER_SIZE == (t + 1) % TIMER_SIZE
    ensures (t % TIMER_SIZE) % VECTOR_SIZE == t % VECTOR_SIZE
  {
    var a, x := t / 1024, t % 1024;
    if x == 1023 {
      DivModUnique(t + 1, 1024, a + 1, 0);
    } else {
      DivModUnique(t + 1, 1024, a, x + 1);
    }
    DivModUnique(t, 128, 8 * a + x / 128, x % 128);
  }

  /** A reuse asks for a liveness window exactly when the timer distance is 1, ..., 127. */
  predicate AsksForWindow(t: nat, a: Access) {
    a.Reuse? && a.prev < t && 0 < TimerDistance(t, a.prev) < VECTOR_SIZE
  }

  /** At timer distance 0 or 128 both ring positions coincide, and no slot is looked at. */
  predicate LooksAtNothing(t: nat, a: Access) {
    a.Reuse? && (TimerDistance(t, a.prev) == 0 || TimerDistance(t, a.prev) == VECTOR_SIZE)
  }

  ghost function Windows(trace: seq<Access>): (ws: seq<Window>)
    ensures Ordered(ws) && forall i | 0 <= i < |ws| :: ws[i].right < |trace|
  {
    if trace == [] then [] else
    var t := |trace| - 1;
    var ws := Windows(trace[..t]);
    if AsksForWindow(t, trace[t]) then ws + [Window(t - TimerDistance(t, trace[t].prev), t)] else ws
  }

  ghost function FreeAccepts(trace: seq<Access>): nat {
    if trace == [] then 0 else
    var t := |trace| - 1;
    FreeAccepts(trace[..t]) + (if LooksAtNothing(t, trace[t]) then 1 else 0)
  }

  /** What num_cache counts over a whole trace. */
  ghost function Hits(trace: seq<Access>, c: nat): nat {
    |Greedy(Windows(trace), c)| + FreeAccepts(trace)
  }

  /** The counters and the ring after a whole trace of references. */
  ghost predicate Consistent(trace: seq<Access>, c: nat, ring: seq<nat>, numCache: int, numDontCache: int)
  {
    && Mirrors(ring, |trace|, Windows(trace), c)
    && numCache == Hits(trace, c)
    && numDontCache == |Windows(trace)| - |Greedy(Windows(trace), c)|
  }

  lemma {:induction false} WindowsGrow(trace: seq<Access>, a: Access)
    ensures var t := |trace|;
            Windows(trace + [a]) == if AsksForWindow(t, a)
              then Windows(trace) + [Window(t - TimerDistance(t, a.prev), t)] else Windows(trace)
  {
    hide TimerDistance;
    var t, grown := |trace|, trace + [a];
    assert grown[..t] == trace && grown[t] == a;
  }

  lemma {:induction false} FreeAcceptsGrow(trace: seq<Access>, a: Access)
    ensures FreeAccepts(trace + [a]) == FreeAccepts(trace) + (if LooksAtNothing(|trace|, a) then 1 else 0)
  {
    hide TimerDistance;
    var t, grown := |trace|, trace + [a];
    assert grown[..t] == trace && grown[t] == a;
  }

  /** A reference whose interval is not evaluated only clears its own slot. */
  lemma {:induction false} UnevaluatedStep(trace: seq<Access>, a: Access, c: nat, ring: seq<nat>, numCache: int,
                                           numDontCache: int)
    requires Consistent(trace, c, ring, numCache, numDontCache)
    requires a.Reuse? ==> a.prev < |trace| && TimerDistance(|trace|, a.prev) > VECTOR_SIZE
    ensures Consistent(trace + [a], c, ring[|trace| % VECTOR_SIZE := 0], numCache, numDontCache)
  {
    WindowsGrow(trace, a);
    FreeAcceptsGrow(trace, a);
    MirrorClear(ring, |trace|, Windows(trace), c);
  }

  lemma {:induction false} EvaluatedStep(trace: seq<Access>, prev: nat, c: nat, ring: seq<nat>, numCache: int,
                                         numDontCache: int,
                      isCache: bool, ring': seq<nat>)
    requires prev < |trace| && Consistent(trace, c, ring, numCache, numDontCache)
    requires TimerDistance(|trace|, prev) <= VECTOR_SIZE
    requires Evaluated(ring, prev % VECTOR_SIZE, |trace| % VECTOR_SIZE, c, isCache, ring')
    ensures Consistent(trace + [Reuse(prev)], c, ring'[|trace| % VECTOR_SIZE := 0],
              numCache + (if isCache then 1 else 0), numDontCache + (if isCache then 0 else 1))
  {
    hide Greedy, Windows, FreeAccepts, TimerDistance, Evaluated;
    var t, a, ws := |trace|, Reuse(prev), Windows(trace);
    var d := TimerDistance(t, prev);
    WindowsGrow(trace, a);
    FreeAcceptsGrow(trace, a);
    TimerArithmetic(t, prev);
    if AsksForWindow(t, a) {
      VerdictIsHasRoom(ring, t, ws, c, d, isCache, ring');
      MirrorStep(ring, t, ws, c, d, isCache, ring');
      GreedyStep(ws, Window(t - d, t), c);
    } else {
      NothingLookedAt(ring, t % VECTOR_SIZE, c, isCache, ring');
      MirrorClear(ring, t, ws, c);
    }
  }

  class OptGen {
    var liveness: array<nat>
    var numCache: nat
    var numDontCache: nat
    var access: nat
    var cacheSize: nat
    var timer: nat            // perset_mytimer
    ghost var trace: seq<Access>

    ghost predicate Valid()
      reads this, liveness
    {
      && liveness.Length == VECTOR_SIZE
      && timer == |trace| % TIMER_SIZE
      && access == |trace|
      && Consistent(trace, cacheSize, liveness[..], numCache, numDontCache)
    }

    constructor (size: nat)
      ensures Valid() && trace == [] && cacheSize == size && fresh(liveness)
    {
      liveness := new nat[VECTOR_SIZE](_ => 0);
      numCache, numDontCache, access, cacheSize, timer, trace := 0, 0, 0, size, 0, [];
    }

    method AddAccess(currQuanta: nat)
      requires currQuanta < liveness.Length
      modifies this`access, liveness
      ensures access == old(access) + 1
      ensures liveness[..] == old(liveness[..])[currQuanta := 0]
    {
      access := access + 1;
      liveness[currQuanta] := 0;
    }

    method ShouldCache(currQuanta: nat, lastQuanta: nat) returns (isCache: bool)
      requires liveness.Length > 0 && currQuanta < liveness.Length && lastQuanta < liveness.Length
      modifies this`numCache, this`numDontCache, liveness
      ensures Evaluated(old(liveness[..]), lastQuanta, currQuanta, cacheSize, isCache, liveness[..])
      ensures numCache == old(numCache) + (if isCache then 1 else 0)
      ensures numDontCache == old(numDontCache) + (if isCache then 0 else 1)
    {
      var n := liveness.Length;
      ghost var d := RingDistance(lastQuanta, currQuanta, n);
      isCache := true;
      var i: nat := lastQuanta;
      while i != currQuanta
        modifies {}
        invariant i < n && RingDistance(lastQuanta, i, n) <= d
        invariant isCache
        invariant forall j: nat | j < n && WithinSteps(j, lastQuanta, RingDistance(lastQuanta, i, n), n)
                    :: liveness[j] < cacheSize
        decreases d - RingDistance(lastQuanta, i, n)
      {
        if liveness[i] >= cacheSize {
          assert WithinSteps(i, lastQuanta, d, n);
          isCache := false;
          break;
        }
        StepForward(lastQuanta, i, currQuanta, n);
        i := Next(i, n);
      }
      if isCache {
        i := lastQuanta;
        while i != currQuanta
          modifies liveness
          invariant i < n && RingDistance(lastQuanta, i, n) <= d
          invariant forall j: nat | j < n :: liveness[j] == old(liveness[j]) +
                      (if WithinSteps(j, lastQuanta, RingDistance(lastQuanta, i, n), n) then 1 else 0)
          decreases d - RingDistance(lastQuanta, i, n)
        {
          StepForward(lastQuanta, i, currQuanta, n);
          liveness[i] := liveness[i] + 1;
          i := Next(i, n);
        }
      }
      if isCache {
        numCache := numCache + 1;
      } else {
        numDontCache := numDontCache + 1;
      }
    }

    /** A demand reference to this set: the OPTgen part of the hit and first-touch paths. The sampler
        hands back the timer value it stored when the tag was last referenced. */
    method DemandAccess(a: Access)
      requires Valid() && (a.Reuse? ==> a.prev < |trace|)
      modifies this, liveness
      ensures Valid() && trace == old(trace) + [a]
      ensures cacheSize == old(cacheSize) && liveness == old(liveness)
      ensures a.First? || 128 < |old(trace)| - a.prev < 1024 ==> numCache == old(numCache)
      ensures a.Reuse? && 0 < |old(trace)| - a.prev <= 128 ==>
                numCache + numDontCache == old(numCache) + old(numDontCache) + 1
    {
      hide Mirrors, Windows, Greedy, FreeAccepts;
      var currQuanta := timer % VECTOR_SIZE;
      ghost var ring := liveness[..];
      TimerTick(|trace|);
      var evaluated := false;
      if a.Reuse? {
        var stamp := a.prev % TIMER_SIZE;
        var currTimer := if timer < stamp then timer + TIMER_SIZE else timer;
        var wrap := currTimer - stamp > VECTOR_SIZE;
        TimerArithmetic(|trace|, a.prev);
        YoungDistance(|trace|, a.prev);
        var lastQuanta := stamp % VECTOR_SIZE;
        if !wrap {
          var isCache := ShouldCache(currQuanta, lastQuanta);
          EvaluatedStep(trace, a.prev, cacheSize, ring, old(numCache), old(numDontCache), isCache, liveness[..]);
          evaluated := true;
        }
      }
      if !evaluated {
        UnevaluatedStep(trace, a, cacheSize, ring, numCache, numDontCache);
      }
      AddAccess(currQuanta);
      timer := (timer + 1) % TIMER_SIZE;
      trace := trace + [a];
    }

    /** The counter of intervals OPT would have kept is the optimum, plus the accepts that looked at nothing. */
    lemma OptHits()
      requires Valid()
      ensures numCache == Hits(trace, cacheSize) >= FreeAccepts(trace)
      ensures IsMaximumPacking(Windows(trace), cacheSize, numCache - FreeAccepts(trace))
    {
      GreedyIsOptimal(Windows(trace), cacheSize);
    }
  }
}
