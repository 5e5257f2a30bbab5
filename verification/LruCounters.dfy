/** The LRU counters of a cache set (src/base_replacement.cc, driven by src/cache.cc): 32-bit counters
    that start at the largest value and wrap on the first fill.
 */
module LruCounters {
  import opened Recency

  /** Number of values of uint32_t. */
  const WRAP: nat := 0x1_0000_0000

  datatype Block = Block(valid: bool, lru: nat)

  function Increment(lru: nat): nat {
    (lru + 1) % WRAP
  }

  /** lru_update() on a fill or a hit that is no writeback. */
  function Updated(ways: seq<Block>, w: nat): (r: seq<Block>)
    requires w < |ways|
    ensures |r| == |ways|
  {
    seq(|ways|, i requires 0 <= i < |ways| =>
      if i == w then ways[i].(lru := 0)
      else if ways[i].lru <= ways[w].lru then ways[i].(lru := Increment(ways[i].lru))
      else ways[i])
  }

  /** filllike_miss: the block is replaced, keeps its counter, and is then updated. */
  function Filled(ways: seq<Block>, w: nat): (r: seq<Block>)
    requires w < |ways|
    ensures |r| == |ways|
  {
    Updated(ways[w := Block(true, ways[w].lru)], w)
  }

  /** What lru_victim chooses: the last invalid way, or else the first way with the largest counter. */
  ghost predicate IsVictim(ways: seq<Block>, v: nat) {
    && v < |ways|
    && (ways[v].valid ==> forall w | 0 <= w < |ways| :: ways[w].valid && ways[w].lru <= ways[v].lru
                                                     && (w < v ==> ways[w].lru < ways[v].lru))
    && (!ways[v].valid ==> forall w | v < w < |ways| :: ways[w].valid)
  }

  // ---------------------------------------------------------------- counters are recency ranks

  /** What all invalid ways hold, with `k` valid ones. */
  ghost predicate SharedValue(v: nat, k: nat) {
    if k == 0 then v == 0xFFFF_FFFF else v == k - 1 || v == k
  }

  /** The valid ways are those of the recency list and hold their positions in it. */
  ghost predicate Ranks(ways: seq<Block>, q: seq<nat>) {
    && (forall w | 0 <= w < |ways| :: ways[w].valid <==> w in q)
    && (forall j | 0 <= j < |q| :: q[j] < |ways| && ways[q[j]].lru == j)
  }

  ghost predicate Shares(ways: seq<Block>, v: nat) {
    forall w | 0 <= w < |ways| && !ways[w].valid :: ways[w].lru == v
  }

  ghost predicate Ranked(ways: seq<Block>, q: seq<nat>) {
    && Distinct(q) && |ways| < WRAP && Ranks(ways, q)
    && exists v :: SharedValue(v, |q|) && Shares(ways, v)
  }

  lemma {:induction false} StartRanked(n: nat)
    requires n < WRAP
    ensures Ranked(seq(n, _ => Block(false, WRAP - 1)), [])
  {
    var ways := seq(n, _ => Block(false, WRAP - 1));
    assert SharedValue(WRAP - 1, 0) && Shares(ways, WRAP - 1);
  }

  /** There are no more valid ways than ways. */
  lemma {:induction false} FewRanks(ways: seq<Block>, q: seq<nat>)
    requires Distinct(q) && Ranks(ways, q)
    ensures |q| <= |ways| && ((exists w :: 0 <= w < |ways| && !ways[w].valid) ==> |q| < |ways|)
  {
    var all := Upto(|ways|);
    assert q[..|q|] == q;
    PrefixSize(q, |q|);
    assert Elements(q) <= all;
    SubsetSize(Elements(q), all);
    if w :| 0 <= w < |ways| && !ways[w].valid {
      SubsetSize(Elements(q), all - {w});
    }
  }

  /** A hit makes its way the most recent one: counters up to its own move up, and invalid ways that
      tied with the least recent way do too. */
  lemma {:induction false} HitRanked(ways: seq<Block>, q: seq<nat>, w: nat)
    requires Ranked(ways, q) && w < |ways| && ways[w].valid
    ensures Ranked(Updated(ways, w), Touch(q, w))
  {
    hide Touch, IndexOf;
    var v :| SharedValue(v, |q|) && Shares(ways, v);
    TouchDistinct(q, w);
    FewRanks(ways, q);
    var k := IndexOf(q, w);
    IndexIn(q, w);
    HitRanks(ways, q, w, k);
    var v' := if v <= k then v + 1 else v;
    assert SharedValue(v', |q|) && Shares(Updated(ways, w), v');
  }

  lemma {:induction false} HitRanks(ways: seq<Block>, q: seq<nat>, w: nat, k: nat)
    requires Distinct(q) && Ranks(ways, q) && |q| <= |ways| < WRAP && k < |q| && q[k] == w
    ensures w < |ways| && Ranks(Updated(ways, w), Touch(q, w))
  {
    hide Touch;
    IndexUnique(q, k);
    TouchAt(q, w);
    TouchDistinct(q, w);
    hide IndexOf;
    var t, r := Touch(q, w), Updated(ways, w);
    forall j: nat | j < |t| ensures t[j] < |ways| && r[t[j]].lru == j {
      assert t[j] == q[Before(k, j)];
    }
    forall x | 0 <= x < |ways| ensures r[x].valid <==> x in t {
      assert x in Elements(t) <==> x in Elements(q);
    }
  }

  /** A fill of an invalid way: all counters move up, the first time around the top. */
  lemma {:induction false} FreshRanked(ways: seq<Block>, q: seq<nat>, w: nat)
    requires Ranked(ways, q) && w < |ways| && !ways[w].valid
    ensures Ranked(Filled(ways, w), Touch(q, w))
  {
    hide Touch, IndexOf;
    var v :| SharedValue(v, |q|) && Shares(ways, v);
    TouchDistinct(q, w);
    FewRanks(ways, q);
    FreshRanks(ways, q, w, v);
    var v' := Increment(v);
    assert SharedValue(v', |q| + 1) && Shares(Filled(ways, w), v');
  }

  lemma {:induction false} FreshRanks(ways: seq<Block>, q: seq<nat>, w: nat, v: nat)
    requires Distinct(q) && Ranks(ways, q) && |q| < |ways| < WRAP && w < |ways| && !ways[w].valid
    requires SharedValue(v, |q|) && ways[w].lru == v
    ensures Ranks(Filled(ways, w), Touch(q, w))
  {
    hide IndexOf;
    var t, r := Touch(q, w), Filled(ways, w);
    assert t == [w] + q;
    forall j: nat | j < |t| ensures t[j] < |ways| && r[t[j]].lru == j {
    }
    forall x | 0 <= x < |ways| ensures r[x].valid <==> x in t {
    }
  }

  lemma {:induction false} FillRanked(ways: seq<Block>, q: seq<nat>, w: nat)
    requires Ranked(ways, q) && w < |ways|
    ensures Ranked(Filled(ways, w), Touch(q, w))
  {
    hide Ranked;
    if ways[w].valid {
      assert ways[w := Block(true, ways[w].lru)] == ways;
      HitRanked(ways, q, w);
    } else {
      FreshRanked(ways, q, w);
    }
  }

  /** With all ways valid the victim is the end of the recency list. */
  lemma {:induction false} VictimOf(ways: seq<Block>, q: seq<nat>, v: nat)
    requires Ranked(ways, q) && IsVictim(ways, v)
    ensures !ways[v].valid <==> exists w :: 0 <= w < |ways| && !ways[w].valid
    ensures ways[v].valid ==> |q| > 0 && v == q[|q| - 1]
  {
    if ways[v].valid {
      var j :| 0 <= j < |q| && q[j] == v;
      assert ways[q[|q| - 1]].lru == |q| - 1;
    }
  }

  // ---------------------------------------------------------------- whole runs

  datatype Event = Hit(way: nat, writeback: bool) | Fill(way: nat)

  predicate Touches(e: Event, w: nat) {
    e.way == w && (e.Hit? ==> !e.writeback)
  }

  /** One more than the position of the last event that touches way `w`; 0 if none does. */
  function LastTouch(events: seq<Event>, w: nat): (t: nat)
    ensures t <= |events|
  {
    if events == [] then 0
    else if Touches(events[|events| - 1], w) then |events|
    else LastTouch(events[..|events| - 1], w)
  }

  /** Events name ways of the set, and only filled ways hit. */
  predicate Legal(events: seq<Event>, n: nat) {
    events == [] ||
    var before, e := events[..|events| - 1], events[|events| - 1];
    Legal(before, n) && e.way < n && (e.Hit? ==> LastTouch(before, e.way) > 0)
  }

  function Step(ways: seq<Block>, e: Event): (r: seq<Block>)
    ensures |r| == |ways|
  {
    if e.way >= |ways| then ways
    else if e.Fill? then Filled(ways, e.way)
    else if e.writeback then ways
    else Updated(ways, e.way)
  }

  function After(events: seq<Event>, n: nat): (r: seq<Block>)
    ensures |r| == n
  {
    if events == [] then seq(n, _ => Block(false, WRAP - 1))
    else Step(After(events[..|events| - 1], n), events[|events| - 1])
  }

  /** The list of touched ways, the most recent first. */
  function Touched(events: seq<Event>): seq<nat> {
    if events == [] then [] else
    var q, e := Touched(events[..|events| - 1]), events[|events| - 1];
    if Touches(e, e.way) then Touch(q, e.way) else q
  }

  /** The list is in order of last touches, which only its ways have. */
  ghost predicate InOrder(events: seq<Event>, q: seq<nat>) {
    && (forall w: nat :: w in q <==> LastTouch(events, w) > 0)
    && (forall a, b | 0 <= a < b < |q| :: LastTouch(events, q[a]) > LastTouch(events, q[b]))
  }

  lemma {:induction false} TouchedInOrder(events: seq<Event>)
    ensures Distinct(Touched(events)) && InOrder(events, Touched(events))
    decreases |events|
  {
    hide Touch, IndexOf;
    if events == [] {
    } else {
      var before, e := events[..|events| - 1], events[|events| - 1];
      TouchedInOrder(before);
      if Touches(e, e.way) {
        TouchDistinct(Touched(before), e.way);
        MoveInOrder(events, Touched(before));
      } else {
        assert forall w: nat :: LastTouch(events, w) == LastTouch(before, w);
      }
    }
  }

  lemma {:induction false} MoveInOrder(events: seq<Event>, q: seq<nat>)
    requires |events| > 0 && Distinct(q) && InOrder(events[..|events| - 1], q)
    requires Touches(events[|events| - 1], events[|events| - 1].way)
    ensures InOrder(events, Touch(q, events[|events| - 1].way))
  {
    hide Touch, IndexOf;
    var before, x := events[..|events| - 1], events[|events| - 1].way;
    var t := Touch(q, x);
    forall w: nat ensures LastTouch(events, w) == if w == x then |events| else LastTouch(before, w) {
    }
    TouchDistinct(q, x);
    forall w: nat ensures w in t <==> LastTouch(events, w) > 0 {
      assert w in Elements(t) <==> w in Elements(q) + {x};
    }
    if x in q {
      TouchAt(q, x);
      forall a: nat, b: nat | a < b < |t| ensures LastTouch(events, t[a]) > LastTouch(events, t[b]) {
        assert t[a] == q[Before(IndexOf(q, x), a)] && t[b] == q[Before(IndexOf(q, x), b)];
      }
    } else {
      TouchFresh(q, x, |q|);
      assert |t| == |q| + 1;
    }
  }

  lemma {:induction false} RunRanked(events: seq<Event>, n: nat)
    requires n < WRAP && Legal(events, n)
    ensures Ranked(After(events, n), Touched(events))
    decreases |events|
  {
    hide Ranked, Touch, Updated, Filled;
    if events == [] {
      StartRanked(n);
    } else {
      var before, e := events[..|events| - 1], events[|events| - 1];
      RunRanked(before, n);
      TouchedInOrder(before);
      var ways, q := After(before, n), Touched(before);
      if e.Fill? {
        FillRanked(ways, q, e.way);
      } else if !e.writeback {
        ValidInList(ways, q, e.way);
        HitRanked(ways, q, e.way);
      }
    }
  }

  lemma ValidInList(ways: seq<Block>, q: seq<nat>, w: nat)
    requires Ranked(ways, q) && w < |ways|
    ensures ways[w].valid <==> w in q
  {
  }

  /** The ways touched after way `w`. */
  function Later(events: seq<Event>, n: nat, w: nat): set<nat> {
    set x | x in Upto(n) && LastTouch(events, x) > LastTouch(events, w)
  }

  /** After any run without invalidations a valid way's counter is the number of ways touched after it,
      the invalid ways share one value, and the victim is a way whose last touch is the earliest, an
      untouched one if there is any. */
  lemma {:induction false} CountersAreRanks(events: seq<Event>, n: nat)
    requires n < WRAP && Legal(events, n)
    ensures var ways := After(events, n);
            && (forall w: nat | w < n :: ways[w].valid <==> LastTouch(events, w) > 0)
            && (forall w: nat | w < n && ways[w].valid :: ways[w].lru == |Later(events, n, w)|)
            && (exists v :: SharedValue(v, |Touched(events)|) && Shares(ways, v))
            && (forall v: nat, w: nat | IsVictim(ways, v) && w < n :: LastTouch(events, v) <= LastTouch(events, w))
  {
    hide LastTouch, After, Touched, Later, IsVictim;
    var ways, q := After(events, n), Touched(events);
    RunRanked(events, n);
    TouchedInOrder(events);
    forall w: nat | w < n && ways[w].valid ensures ways[w].lru == |Later(events, n, w)| {
      var j :| 0 <= j < |q| && q[j] == w;
      LaterTouched(events, n, q, j);
    }
    forall v: nat, w: nat | IsVictim(ways, v) && w < n ensures LastTouch(events, v) <= LastTouch(events, w) {
      EarliestTouch(events, ways, q, v, w);
    }
  }

  lemma {:induction false} EarliestTouch(events: seq<Event>, ways: seq<Block>, q: seq<nat>, v: nat, w: nat)
    requires Ranked(ways, q) && InOrder(events, q) && IsVictim(ways, v) && w < |ways|
    ensures LastTouch(events, v) <= LastTouch(events, w)
  {
    hide LastTouch;
    VictimOf(ways, q, v);
    if ways[v].valid {
      assert ways[w].valid;
      var j :| 0 <= j < |q| && q[j] == w;
    }
  }

  lemma {:induction false} LaterTouched(events: seq<Event>, n: nat, q: seq<nat>, j: nat)
    requires Distinct(q) && InOrder(events, q) && j < |q| && forall k | 0 <= k < |q| :: q[k] < n
    ensures |Later(events, n, q[j])| == j
  {
    hide LastTouch;
    PrefixSize(q, j);
    forall x ensures x in Later(events, n, q[j]) <==> x in q[..j] {
      if x in Later(events, n, q[j]) {
        assert LastTouch(events, x) > 0;
        var k :| 0 <= k < |q| && q[k] == x;
        assert k < j;
        assert q[..j][k] == x;
      }
    }
    assert Later(events, n, q[j]) == Elements(q[..j]);
  }

  // ---------------------------------------------------------------- the order in which a set fills

  /** Every fill takes a victim of the set as it is then. */
  ghost predicate VictimFills(events: seq<Event>, n: nat) {
    events == [] ||
    var before, e := events[..|events| - 1], events[|events| - 1];
    VictimFills(before, n) && (e.Fill? ==> IsVictim(After(before, n), e.way))
  }

  function Fills(events: seq<Event>): (k: nat)
    ensures k <= |events|
  {
    if events == [] then 0 else Fills(events[..|events| - 1]) + (if events[|events| - 1].Fill? then 1 else 0)
  }

  /** A set fills from its last way to its first: after k fills the last k ways are valid. */
  lemma {:induction false} FillsFromTheEnd(events: seq<Event>, n: nat)
    requires Legal(events, n) && VictimFills(events, n)
    ensures forall w: nat | w < n :: After(events, n)[w].valid <==> w + Fills(events) >= n
    decreases |events|
  {
    hide Increment, LastTouch;
    if events == [] {
    } else {
      var before, e := events[..|events| - 1], events[|events| - 1];
      FillsFromTheEnd(before, n);
      StepValid(After(before, n), e);
      hide Step, After, Legal, VictimFills;
      var ways := After(before, n);
      if e.Fill? && !ways[e.way].valid {
        assert IsVictim(ways, e.way);
        LastInvalid(ways, e.way, Fills(before));
      } else if e.Fill? {
        assert IsVictim(ways, e.way) && ways[0].valid;
      }
    }
  }

  lemma StepValid(ways: seq<Block>, e: Event)
    requires e.way < |ways|
    ensures forall w | 0 <= w < |ways| :: Step(ways, e)[w].valid <==> ways[w].valid || (e.Fill? && w == e.way)
  {
  }

  lemma LastInvalid(ways: seq<Block>, v: nat, k: nat)
    requires IsVictim(ways, v) && !ways[v].valid && forall w: nat | w < |ways| :: ways[w].valid <==> w + k >= |ways|
    ensures v + k + 1 == |ways|
  {
    assert v + 1 < |ways| ==> ways[v + 1].valid;
  }
}
