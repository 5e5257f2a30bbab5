/** Whole runs of OPTgen (btb/hawkeye_btb/optgen.h, driven by btb/hawkeye_btb/hawkeye_btb.cc) against the
    real reuse intervals: the count is the optimum as long as evaluated reuses are shorter than the ring,
    and no longer reuse that is evaluated can be trusted.
 */
module OptGenRuns {
  import opened Arithmetic
  import opened OptGen
  import Recency

  // ---------------------------------------------------------------- the real intervals

  /** A reuse at time `t` is evaluated when the timer shows at most VECTOR_SIZE. */
  predicate IsEvaluated(t: nat, a: Access) {
    a.Reuse? && a.prev < t && TimerDistance(t, a.prev) <= VECTOR_SIZE
  }

  /** The real intervals of the evaluated reuses, from one reference to the next. */
  ghost function TrueWindows(trace: seq<Access>): (ws: seq<Window>)
    ensures Ordered(ws) && forall i | 0 <= i < |ws| :: ws[i].right < |trace|
  {
    if trace == [] then [] else
    var t := |trace| - 1;
    var ws := TrueWindows(trace[..t]);
    if IsEvaluated(t, trace[t]) then ws + [Window(trace[t].prev, t)] else ws
  }

  /** Every evaluated reuse is shorter than the ring. */
  ghost predicate ShortReuses(trace: seq<Access>) {
    forall t | 0 <= t < |trace| && IsEvaluated(t, trace[t]) :: t - trace[t].prev < VECTOR_SIZE
  }

  /** References only name earlier references. */
  ghost predicate Backward(trace: seq<Access>) {
    forall t | 0 <= t < |trace| && trace[t].Reuse? :: trace[t].prev < t
  }

  /** No two references name the same earlier one: a tag is last referenced once at a time. */
  ghost predicate WellFormed(trace: seq<Access>) {
    && Backward(trace)
    && (forall t, u | 0 <= t < u < |trace| && trace[t].Reuse? && trace[u].Reuse? :: trace[t].prev != trace[u].prev)
  }

  /** The timer shows the true distance of a reuse shorter than the ring. */
  lemma ShortDistance(t: nat, prev: nat)
    requires prev < t && t - prev < VECTOR_SIZE
    ensures TimerDistance(t, prev) == t - prev
  {
    DivModUnique(t - prev, TIMER_SIZE, 0, t - prev);
  }

  /** What the 10-bit timer shows: ages below 1024 as they are, and any age like the one a period of 1024
      before; so a reuse aged 129 to 1023 is never evaluated. */
  lemma TimerShowsAge(t: nat, prev: nat)
    requires prev < t
    ensures t - prev < 1024 ==> TimerDistance(t, prev) == t - prev
    ensures TimerDistance(t + 1024, prev) == TimerDistance(t, prev)
    ensures t - prev == 1024 ==> TimerDistance(t, prev) == 0
    ensures 128 < t - prev < 1024 ==> !IsEvaluated(t, Reuse(prev))
    ensures t - prev <= 128 ==> IsEvaluated(t, Reuse(prev))
  {
    var q, r := (t - prev) / 1024, (t - prev) % 1024;
    DivModUnique(t + 1024 - prev, 1024, q + 1, r);
    if t - prev < 1024 {
      DivModUnique(t - prev, 1024, 0, t - prev);
    } else if t - prev == 1024 {
      DivModUnique(t - prev, 1024, 1, 0);
    }
  }

  /** A reuse aged 129 to 1023 leaves the count as it was, and presents nothing. */
  lemma {:induction false} OldReuseIgnored(trace: seq<Access>, prev: nat, size: nat)
    requires prev < |trace| && 128 < |trace| - prev < 1024
    ensures Hits(trace + [Reuse(prev)], size) == Hits(trace, size)
    ensures Windows(trace + [Reuse(prev)]) == Windows(trace) && TrueWindows(trace + [Reuse(prev)]) == TrueWindows(trace)
  {
    hide TimerDistance;
    TimerShowsAge(|trace|, prev);
    WindowsGrow(trace, Reuse(prev));
    FreeAcceptsGrow(trace, Reuse(prev));
    assert (trace + [Reuse(prev)])[..|trace|] == trace;
  }

  /** With short reuses only, the windows the timer presents are the real ones, and each is looked at. */
  lemma {:induction false} WindowsAreTrue(trace: seq<Access>)
    requires ShortReuses(trace)
    ensures TrueWindows(trace) == Windows(trace)
    ensures Backward(trace) ==> FreeAccepts(trace) == 0
  {
    hide TimerDistance;
    if trace == [] {
    } else {
      var t := |trace| - 1;
      assert forall u | 0 <= u < t :: trace[..t][u] == trace[u];
      WindowsAreTrue(trace[..t]);
      if IsEvaluated(t, trace[t]) {
        ShortDistance(t, trace[t].prev);
      }
    }
  }

  // ---------------------------------------------------------------- the promise

  /** From an empty set, for every trace of references: the count is the optimum of the presented windows
      plus the accepts that looked at nothing, and with short reuses the optimum of the real intervals. */
  method Simulate(trace: seq<Access>, size: nat) returns (hits: nat)
    requires Backward(trace)
    ensures hits == Hits(trace, size) >= FreeAccepts(trace)
    ensures IsMaximumPacking(Windows(trace), size, hits - FreeAccepts(trace))
    ensures ShortReuses(trace) ==> IsMaximumPacking(TrueWindows(trace), size, hits)
  {
    hide Consistent, Windows, TrueWindows, Greedy, FreeAccepts, Hits, IsMaximumPacking;
    var opt := new OptGen(size);
    for t := 0 to |trace|
      invariant opt.Valid() && opt.trace == trace[..t] && opt.cacheSize == size
      invariant fresh(opt) && fresh(opt.liveness)
    {
      opt.DemandAccess(trace[t]);
      assert trace[..t + 1] == trace[..t] + [trace[t]];
    }
    assert trace[..|trace|] == trace;
    opt.OptHits();
    hits := opt.numCache;
    if ShortReuses(trace) {
      WindowsAreTrue(trace);
    }
  }

  lemma ShortIsOptimal(trace: seq<Access>, size: nat)
    requires Backward(trace) && ShortReuses(trace)
    ensures IsMaximumPacking(TrueWindows(trace), size, Hits(trace, size))
  {
    hide Windows, TrueWindows, Greedy, FreeAccepts, IsMaximumPacking;
    WindowsAreTrue(trace);
    GreedyIsOptimal(Windows(trace), size);
  }

  // ---------------------------------------------------------------- how it fails

  /** A short reuse inside the interval of a long one: `prev + 1` is reused at `prev + 2`, `prev` at `t`. */
  function Prefix(prev: nat, n: nat): (trace: seq<Access>)
    ensures |trace| == n
  {
    seq(n, i => if i == prev + 2 then Reuse(prev + 1) else First)
  }

  function Nested(t: nat, prev: nat): seq<Access> {
    Prefix(prev, t) + [Reuse(prev)]
  }

  lemma {:induction false} PrefixWindows(prev: nat, n: nat)
    ensures WellFormed(Prefix(prev, n)) && ShortReuses(Prefix(prev, n)) && FreeAccepts(Prefix(prev, n)) == 0
    ensures Windows(Prefix(prev, n)) == TrueWindows(Prefix(prev, n))
         == if prev + 2 < n then [Window(prev + 1, prev + 2)] else []
  {
    hide TimerDistance, TrueWindows, FreeAccepts, Windows;
    PrefixIsShort(prev, n);
    WindowsAreTrue(Prefix(prev, n));
    hide WellFormed, ShortReuses;
    if n == 0 {
      NoWindows();
    } else {
      var last := if n - 1 == prev + 2 then Reuse(prev + 1) else First;
      PrefixWindows(prev, n - 1);
      assert Prefix(prev, n) == Prefix(prev, n - 1) + [last];
      WindowsGrow(Prefix(prev, n - 1), last);
      ShortDistance(prev + 2, prev + 1);
    }
  }

  lemma NoWindows()
    ensures Windows([]) == []
  {
  }

  lemma PrefixIsShort(prev: nat, n: nat)
    ensures WellFormed(Prefix(prev, n)) && ShortReuses(Prefix(prev, n))
  {
    hide TimerDistance;
  }

  /** Every evaluated reuse at a true distance of 128 or more can make the count wrong: with one way both
      nested intervals are counted, and only one of them fits. */
  lemma {:induction false} LongReuseMiscounts(t: nat, prev: nat)
    requires prev < t && TimerDistance(t, prev) <= VECTOR_SIZE <= t - prev
    ensures WellFormed(Nested(t, prev)) && ShortReuses(Nested(t, prev)[..t])
    ensures Hits(Nested(t, prev), 1) == 2
    ensures TrueWindows(Nested(t, prev)) == [Window(prev + 1, prev + 2), Window(prev, t)]
    ensures IsMaximumPacking(TrueWindows(Nested(t, prev)), 1, 1)
  {
    hide TimerDistance, Windows, Greedy, Hits, IsMaximumPacking, WellFormed, ShortReuses;
    var trace, inner, outer := Prefix(prev, t), Window(prev + 1, prev + 2), Window(prev, t);
    PrefixWindows(prev, t);
    assert Nested(t, prev)[..t] == trace;
    NestedHits(t, prev);
    NestedWellFormed(t, prev);
    OneFits(inner, outer);
  }

  lemma NestedWellFormed(t: nat, prev: nat)
    requires prev < t
    ensures WellFormed(Nested(t, prev))
  {
    hide TimerDistance;
  }

  /** A reuse that the timer shows shorter than it is, is at least a timer period old. */
  lemma TimerPeriods(t: nat, prev: nat)
    requires prev < t && TimerDistance(t, prev) < VECTOR_SIZE <= t - prev
    ensures t - prev - TimerDistance(t, prev) >= TIMER_SIZE
  {
  }

  lemma {:induction false} NestedHits(t: nat, prev: nat)
    requires prev < t && TimerDistance(t, prev) <= VECTOR_SIZE <= t - prev
    ensures Hits(Nested(t, prev), 1) == 2
  {
    hide TimerDistance, Windows, TrueWindows, Greedy, FreeAccepts, HasRoom, WellFormed, ShortReuses;
    var trace, inner := Prefix(prev, t), Window(prev + 1, prev + 2);
    var d := TimerDistance(t, prev);
    PrefixWindows(prev, t);
    WindowsGrow(trace, Reuse(prev));
    FreeAcceptsGrow(trace, Reuse(prev));
    FirstFits(inner);
    if AsksForWindow(t, Reuse(prev)) {
      TimerPeriods(t, prev);
      GreedyStep([inner], Window(t - d, t), 1);
      RoomAfter(inner, t - d, t);
    }
  }

  lemma FirstFits(w: Window)
    ensures Greedy([w], 1) == {0}
  {
    assert Greedy([w][..0], 1) == {};
    assert forall slot: int :: Covering([w][..0], {}, slot) == {};
  }

  /** Of two intervals, one inside the other, a single way holds one. */
  lemma {:induction false} OneFits(inner: Window, outer: Window)
    requires outer.left <= inner.left < inner.right <= outer.right
    ensures IsMaximumPacking([inner, outer], 1, 1)
  {
    var ws := [inner, outer];
    forall slot: int ensures |Covering(ws, {0}, slot)| <= 1 {
      Recency.SubsetSize(Covering(ws, {0}, slot), {0});
    }
    assert Packs(ws, {0}, 1) && |{0}| == 1;
    forall sel | Packs(ws, sel, 1) ensures |sel| <= 1 {
      assert Covering(ws, sel, inner.left) == sel;
    }
  }

  /** Two concrete failures with one way: a reuse at distance 128, which the test of the timer lets
      through, and one of age 1029, which the timer shows as 5. */
  lemma FailingTraces()
    ensures TimerDistance(128, 0) == 128 && TimerDistance(1029, 0) == 5
    ensures forall t | t == 128 || t == 1029 ::
              && WellFormed(Nested(t, 0)) && Hits(Nested(t, 0), 1) == 2
              && IsMaximumPacking(TrueWindows(Nested(t, 0)), 1, 1)
  {
    LongReuseMiscounts(128, 0);
    LongReuseMiscounts(1029, 0);
  }

  // ---------------------------------------------------------------- the exact conditions

  /** The last reference of the trace leaves the count the optimum of the real intervals, for every size. */
  ghost predicate CountsRight(trace: seq<Access>) {
    forall size: nat :: IsMaximumPacking(TrueWindows(trace), size, Hits(trace, size))
  }

  /** An evaluated reuse of `prev` at time `t` keeps the count right after every trace of short reuses if and
      only if its true distance is below the ring size. */
  lemma {:induction false} ExactlyOptimal(t: nat, prev: nat)
    requires IsEvaluated(t, Reuse(prev))
    ensures t - prev < VECTOR_SIZE
       <==> forall trace: seq<Access> | |trace| == t && ShortReuses(trace) && WellFormed(trace + [Reuse(prev)]) ::
              CountsRight(trace + [Reuse(prev)])
  {
    if t - prev < VECTOR_SIZE {
      forall trace: seq<Access> | |trace| == t && ShortReuses(trace) && WellFormed(trace + [Reuse(prev)])
        ensures CountsRight(trace + [Reuse(prev)])
      {
        ShortGrows(trace, prev);
        forall size: nat
          ensures IsMaximumPacking(TrueWindows(trace + [Reuse(prev)]), size, Hits(trace + [Reuse(prev)], size))
        {
          ShortIsOptimal(trace + [Reuse(prev)], size);
        }
      }
    } else {
      LongReuseMiscounts(t, prev);
      assert Nested(t, prev)[..t] == Prefix(prev, t);
      OnlyOneMaximum(TrueWindows(Nested(t, prev)), 1, 1, 2);
      assert !CountsRight(Prefix(prev, t) + [Reuse(prev)]);
    }
  }

  lemma ShortGrows(trace: seq<Access>, prev: nat)
    requires ShortReuses(trace) && prev < |trace| && |trace| - prev < VECTOR_SIZE
    ensures ShortReuses(trace + [Reuse(prev)])
  {
  }

  lemma OnlyOneMaximum(ws: seq<Window>, c: nat, m: nat, n: nat)
    requires IsMaximumPacking(ws, c, m) && m != n
    ensures !IsMaximumPacking(ws, c, n)
  {
  }

  /** The slot among the last VECTOR_SIZE ones that ring position `j` stands for. */
  function SlotFor(t: nat, j: nat): (s: int)
    requires j < VECTOR_SIZE
  {
    var x := t % VECTOR_SIZE;
    if j < x then t - x + j else t - x + j - VECTOR_SIZE
  }

  lemma SlotForIs(t: nat, s: int)
    requires t - VECTOR_SIZE <= s < t
    ensures SlotFor(t, s % VECTOR_SIZE) == s
  {
    var a, x := t / 128, t % 128;
    if s >= t - x {
      DivModUnique(s, 128, a, s - (t - x));
    } else {
      DivModUnique(s, 128, a - 1, s - (t - x) + 128);
    }
  }

  /** A ring that mirrors a history. */
  ghost function RingOf(t: nat, ws: seq<Window>, c: nat): (ring: seq<nat>)
    ensures |ring| == VECTOR_SIZE && Mirrors(ring, t, ws, c)
  {
    var ring := seq(VECTOR_SIZE, j requires 0 <= j < VECTOR_SIZE => Occupancy(ws, c, SlotFor(t, j)));
    MirrorsOf(t, ws, c, ring);
    ring
  }

  lemma MirrorsOf(t: nat, ws: seq<Window>, c: nat, ring: seq<nat>)
    requires |ring| == VECTOR_SIZE && forall j: nat | j < VECTOR_SIZE :: ring[j] == Occupancy(ws, c, SlotFor(t, j))
    ensures |ring| == VECTOR_SIZE && Mirrors(ring, t, ws, c)
  {
    GreedyPacks(ws, c);
    forall s: int | t - VECTOR_SIZE <= s < t ensures ring[s % VECTOR_SIZE] == Occupancy(ws, c, s) {
      SlotForIs(t, s);
    }
  }

  /** should_cache has an outcome on every ring. */
  lemma EvaluatedExists(ring: seq<nat>, last: nat, curr: nat, c: nat) returns (isCache: bool, ring': seq<nat>)
    requires last < |ring| && curr < |ring|
    ensures Evaluated(ring, last, curr, c, isCache, ring')
  {
    var n, d := |ring|, RingDistance(last, curr, |ring|);
    isCache := forall j: nat | j < n && WithinSteps(j, last, d, n) :: ring[j] < c;
    ring' := seq(n, j requires 0 <= j < n => ring[j] + (if isCache && WithinSteps(j, last, d, n) then 1 else 0));
  }

  /** The nested intervals of LongReuseMiscounts: the outer one is accepted, and has no room. */
  lemma {:induction false} WrongVerdict(t: nat, prev: nat)
    requires IsEvaluated(t, Reuse(prev)) && t - prev >= VECTOR_SIZE
    ensures WellFormed(Prefix(prev, t)) && ShortReuses(Prefix(prev, t)) && !JudgedTruly(Prefix(prev, t), prev, 1)
  {
    hide TimerDistance, Windows, TrueWindows, Greedy, HasRoom, Mirrors, Evaluated, WellFormed, ShortReuses, RingOf;
    var trace, ws := Prefix(prev, t), [Window(prev + 1, prev + 2)];
    var d, last, curr := TimerDistance(t, prev), prev % VECTOR_SIZE, t % VECTOR_SIZE;
    PrefixWindows(prev, t);
    FirstFits(ws[0]);
    var ring := RingOf(t, ws, 1);
    var isCache, ring' := EvaluatedExists(ring, last, curr, 1);
    TimerArithmetic(t, prev);
    if AsksForWindow(t, Reuse(prev)) {
      VerdictIsHasRoom(ring, t, ws, 1, d, isCache, ring');
      TimerPeriods(t, prev);
      RoomAfter(ws[0], t - d, t);
    } else {
      NothingLookedAt(ring, curr, 1, isCache, ring');
    }
    NoRoomOver(ws[0], Window(prev, t));
    assert Mirrors(ring, t, Windows(trace), 1);
  }

  lemma NoRoomOver(w: Window, outer: Window)
    requires outer.left <= w.left < w.right <= outer.right
    ensures !HasRoom([w], {0}, outer, 1)
  {
    assert Covering([w], {0}, w.left) == {0};
  }

  lemma RoomAfter(w: Window, left: nat, right: nat)
    requires w.right <= left
    ensures HasRoom([w], {0}, Window(left, right), 1)
  {
    forall slot: int | left <= slot < right ensures Covering([w], {0}, slot) == {} {
    }
  }

  /** Whatever state a trace of short reuses leads to: should_cache answers for a reuse of `prev` now as the
      real interval demands. */
  ghost predicate JudgedTruly(trace: seq<Access>, prev: nat, c: nat) {
    forall ring: seq<nat>, isCache: bool, ring': seq<nat> |
      && Mirrors(ring, |trace|, Windows(trace), c)
      && Evaluated(ring, prev % VECTOR_SIZE, |trace| % VECTOR_SIZE, c, isCache, ring') ::
      isCache <==> HasRoom(TrueWindows(trace), Greedy(TrueWindows(trace), c), Window(prev, |trace|), c)
  }

  /** The verdict on an evaluated reuse is the true one in every state that short reuses lead to, if and only
      if its true distance is below the ring size. */
  lemma {:induction false} VerdictIsTrueExactlyBelow128(t: nat, prev: nat)
    requires IsEvaluated(t, Reuse(prev))
    ensures t - prev < VECTOR_SIZE
       <==> forall trace: seq<Access>, c: nat | |trace| == t && WellFormed(trace) && ShortReuses(trace) ::
              JudgedTruly(trace, prev, c)
  {
    if t - prev < VECTOR_SIZE {
      ShortDistance(t, prev);
      forall trace: seq<Access>, c: nat | |trace| == t && WellFormed(trace) && ShortReuses(trace)
        ensures JudgedTruly(trace, prev, c)
      {
        hide IsEvaluated, Windows, TrueWindows, Greedy, HasRoom, Mirrors, Evaluated;
        WindowsAreTrue(trace);
        forall ring: seq<nat>, isCache: bool, ring': seq<nat> |
          && Mirrors(ring, t, Windows(trace), c)
          && Evaluated(ring, prev % VECTOR_SIZE, t % VECTOR_SIZE, c, isCache, ring')
          ensures isCache <==> HasRoom(TrueWindows(trace), Greedy(TrueWindows(trace), c), Window(prev, t), c)
        {
          VerdictIsHasRoom(ring, t, Windows(trace), c, t - prev, isCache, ring');
        }
      }
    } else {
      WrongVerdict(t, prev);
    }
  }
}
