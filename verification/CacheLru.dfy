/** lru_victim, lru_update and their callers in src/cache.cc, over the cache's one vector of blocks,
    proved against LruCounters.
 */
module CacheLru {
  import opened Arithmetic
  import opened LruCounters

  class Cache {
    const sets: nat
    const ways: nat
    const block: array<Block>
    /** The fills, and the hits, of each set so far. */
    ghost var runs: seq<seq<Event>>

    ghost predicate Shaped() {
      0 < ways < WRAP && block.Length == sets * ways
    }

    ghost function Begin(s: nat): nat {
      s * ways
    }

    lemma InRange(s: nat)
      requires Shaped() && s < sets
      ensures Begin(s) + ways <= block.Length
    {
      assert sets * ways == s * ways + ways + (sets - s - 1) * ways;
    }

    ghost predicate Inside(s: nat) {
      Begin(s) + ways <= block.Length
    }

    /** The blocks of one set. */
    ghost function Blocks(s: nat): (r: seq<Block>)
      requires Inside(s)
      reads block
      ensures |r| == ways
    {
      block[Begin(s)..Begin(s) + ways]
    }

    /** Every set is what its run of events leads to. */
    ghost predicate Valid()
      reads this, block
    {
      && Shaped() && |runs| == sets
      && forall s: nat | s < sets ::
           Inside(s) && Legal(runs[s], ways) && VictimFills(runs[s], ways) && Blocks(s) == After(runs[s], ways)
    }

    constructor (sets: nat, ways: nat)
      requires 0 < ways < WRAP
      ensures Valid() && this.sets == sets && this.ways == ways && fresh(block)
      ensures runs == seq(sets, _ => [])
    {
      this.sets, this.ways := sets, ways;
      runs := seq(sets, _ => []);
      block := new Block[sets * ways](_ => Block(false, WRAP - 1));
      new;
      forall s: nat | s < sets
        ensures Inside(s) && Legal(runs[s], ways) && VictimFills(runs[s], ways) && Blocks(s) == After(runs[s], ways)
      {
        InRange(s);
        assert Blocks(s) == seq(ways, _ => Block(false, WRAP - 1));
      }
    }

    /** The blocks of different sets do not overlap. */
    lemma Apart(s: nat, t: nat)
      requires s != t
      ensures Begin(t) + ways <= Begin(s) || Begin(s) + ways <= Begin(t)
    {
      if s < t {
        MulMono(s + 1, t, ways);
        assert (s + 1) * ways == Begin(s) + ways;
      } else {
        MulMono(t + 1, s, ways);
        assert (t + 1) * ways == Begin(t) + ways;
      }
    }

    /** In every reachable state of every set: a valid way's counter is the number of ways touched after it, the
        invalid ways share one value, the valid ways are the last ones, as many as there were fills, and a victim
        is a way whose last touch is the earliest. */
    lemma SetsAreRanked(s: nat)
      requires Valid() && s < sets
      ensures var events := runs[s];
              && Inside(s)
              && (forall w: nat | w < ways :: Blocks(s)[w].valid <==> LastTouch(events, w) > 0)
              && (forall w: nat | w < ways && Blocks(s)[w].valid :: Blocks(s)[w].lru == |Later(events, ways, w)|)
              && (exists v :: SharedValue(v, |Touched(events)|) && Shares(Blocks(s), v))
              && (forall w: nat | w < ways :: Blocks(s)[w].valid <==> w + Fills(events) >= ways)
              && (forall v: nat, w: nat | IsVictim(Blocks(s), v) && w < ways ::
                    LastTouch(events, v) <= LastTouch(events, w))
    {
      FillsFromTheEnd(runs[s], ways);
      CountersAreRanks(runs[s], ways);
    }

    /** std::max_element with lru_comparator. */
    method LruVictim(s: nat) returns (way: nat)
      requires Shaped() && s < sets
      ensures Inside(s) && IsVictim(Blocks(s), way)
      ensures way < ways && forall w | 0 <= w < ways && w != way ::
                if !Blocks(s)[way].valid then w > way ==> Blocks(s)[w].valid
                else Blocks(s)[w].valid && Blocks(s)[w].lru <= Blocks(s)[way].lru
                     && (Blocks(s)[w].lru == Blocks(s)[way].lru ==> w > way)
    {
      InRange(s);
      var begin := s * ways;
      ghost var here := Blocks(s);
      var largest, i := 0, 1;
      while i < ways
        invariant 1 <= i <= ways && largest < i && IsVictim(here[..i], largest)
      {
        assert block[begin + largest] == here[largest] && block[begin + i] == here[i];
        if !block[begin + i].valid
           || (block[begin + largest].valid && block[begin + largest].lru < block[begin + i].lru) {
          largest := i;
        }
        i := i + 1;
      }
      assert here[..ways] == here;
      way := largest;
    }

    method LruUpdate(s: nat, way: nat, writeback: bool, hit: bool)
      requires Shaped() && s < sets && way < ways
      modifies block
      ensures Inside(s)
      ensures Blocks(s) == if hit && writeback then old(Blocks(s)) else Updated(old(Blocks(s)), way)
      ensures forall i | 0 <= i < block.Length && !(Begin(s) <= i < Begin(s) + ways) :: block[i] == old(block[i])
    {
      InRange(s);
      if hit && writeback {
        return;
      }
      ghost var here := Blocks(s);
      var begin := s * ways;
      assert here[way] == block[begin + way];
      Age(begin, block[begin + way].lru);
      block[begin + way] := block[begin + way].(lru := 0);
      assert Blocks(s) == Updated(here, way);
    }

    /** The for_each of lru_update: counters up to the given one go up. */
    method Age(begin: nat, hitLru: nat)
      requires begin + ways <= block.Length
      modifies block
      ensures forall k | begin <= k < begin + ways :: block[k] == Aged(old(block[k]), hitLru)
      ensures forall k | 0 <= k < block.Length && !(begin <= k < begin + ways) :: block[k] == old(block[k])
    {
      var i := begin;
      while i < begin + ways
        invariant begin <= i <= begin + ways
        invariant forall k | begin <= k < i :: block[k] == Aged(old(block[k]), hitLru)
        invariant forall k | 0 <= k < block.Length && !(begin <= k < i) :: block[k] == old(block[k])
      {
        var x := block[i];
        if x.lru <= hitLru {
          block[i] := x.(lru := (x.lru + 1) % WRAP);
        }
        i := i + 1;
      }
    }

    lemma ValidIsTouched(s: nat, way: nat)
      requires Valid() && s < sets && way < ways && Inside(s)
      ensures Blocks(s)[way].valid <==> LastTouch(runs[s], way) > 0
    {
      SetsAreRanked(s);
    }

    lemma VictimIsEarliest(s: nat, v: nat)
      requires Valid() && s < sets && Inside(s) && IsVictim(Blocks(s), v)
      ensures v < ways && forall w: nat | w < ways :: LastTouch(runs[s], v) <= LastTouch(runs[s], w)
    {
      SetsAreRanked(s);
    }

    /** The blocks of one set in an earlier content of the vector. */
    ghost function BlocksIn(all: seq<Block>, s: nat): seq<Block>
      requires Inside(s) && |all| == block.Length
    {
      all[Begin(s)..Begin(s) + ways]
    }

    /** One event in one set: the set makes one step, and the others stay as they were. */
    lemma EventKeeps(s: nat, e: Event, all: seq<Block>, before: seq<seq<Event>>)
      requires Shaped() && |before| == sets && s < sets && |all| == block.Length && e.way < ways
      requires forall t: nat | t < sets ::
                 && Inside(t) && Legal(before[t], ways) && VictimFills(before[t], ways)
                 && BlocksIn(all, t) == After(before[t], ways)
      requires e.Fill? ==> IsVictim(BlocksIn(all, s), e.way)
      requires e.Hit? ==> LastTouch(before[s], e.way) > 0
      requires runs == before[s := before[s] + [e]] && Blocks(s) == Step(BlocksIn(all, s), e)
      requires forall i | 0 <= i < block.Length && !(Begin(s) <= i < Begin(s) + ways) :: block[i] == all[i]
      ensures Valid()
    {
      hide Step, After, Legal, VictimFills, IsVictim;
      LegalNext(before[s], e, ways);
      forall t: nat | t < sets
        ensures Inside(t) && Legal(runs[t], ways) && VictimFills(runs[t], ways) && Blocks(t) == After(runs[t], ways)
      {
        if t != s {
          Apart(s, t);
          assert Blocks(t) == BlocksIn(all, t);
        }
      }
    }

    /** A hit on a valid way, of a writeback or of anything else. */
    method Hit(s: nat, way: nat, writeback: bool)
      requires Valid() && s < sets && way < ways && Inside(s) && Blocks(s)[way].valid
      modifies this`runs, block
      ensures Valid() && Inside(s) && runs == old(runs)[s := old(runs[s]) + [LruCounters.Hit(way, writeback)]]
      ensures Blocks(s) == Step(old(Blocks(s)), LruCounters.Hit(way, writeback))
      ensures forall i | 0 <= i < block.Length && !(Begin(s) <= i < Begin(s) + ways) :: block[i] == old(block[i])
    {
      ValidIsTouched(s, way);
      hide After, Legal, VictimFills, LastTouch, Step, Updated;
      ghost var all, before, e := block[..], runs, LruCounters.Hit(way, writeback);
      StepOfHit(Blocks(s), way, writeback);
      assert forall t: nat | t < sets :: Blocks(t) == BlocksIn(all, t);
      LruUpdate(s, way, writeback, true);
      runs := runs[s := runs[s] + [e]];
      EventKeeps(s, e, all, before);
    }

    /** A fill: it may be refused by the lower level, and else replaces the victim. */
    method HandleFill(s: nat, refused: bool) returns (way: nat)
      requires Valid() && s < sets
      modifies this`runs, block
      ensures Valid() && Inside(s) && IsVictim(old(Blocks(s)), way)
      ensures forall w: nat | w < ways :: LastTouch(old(runs[s]), way) <= LastTouch(old(runs[s]), w)
      ensures if refused then runs == old(runs) && block[..] == old(block[..])
              else runs == old(runs)[s := old(runs[s]) + [Fill(way)]] && Blocks(s) == Step(old(Blocks(s)), Fill(way))
      ensures forall i | 0 <= i < block.Length && !(Begin(s) <= i < Begin(s) + ways) :: block[i] == old(block[i])
    {
      hide After, Legal, VictimFills, LastTouch, IsVictim, Step, Filled;
      way := LruVictim(s);
      VictimIsEarliest(s, way);
      if refused {
        return;
      }
      ghost var all, before, e := block[..], runs, Fill(way);
      assert forall t: nat | t < sets :: Blocks(t) == BlocksIn(all, t);
      FillWay(s, way);
      runs := runs[s := runs[s] + [e]];
      EventKeeps(s, e, all, before);
    }

    /** The block is replaced, and its counter kept and then updated. */
    method FillWay(s: nat, way: nat)
      requires Shaped() && s < sets && way < ways
      modifies block
      ensures Inside(s) && Blocks(s) == Step(old(Blocks(s)), Fill(way))
      ensures forall i | 0 <= i < block.Length && !(Begin(s) <= i < Begin(s) + ways) :: block[i] == old(block[i])
    {
      InRange(s);
      ghost var here := Blocks(s);
      var begin := s * ways;
      var lru := block[begin + way].lru;
      block[begin + way] := Block(true, lru);
      assert Blocks(s) == here[way := Block(true, here[way].lru)];
      LruUpdate(s, way, false, false);
    }
  }

  lemma StepOfHit(ways: seq<Block>, way: nat, writeback: bool)
    requires way < |ways|
    ensures Step(ways, Hit(way, writeback)) == if writeback then ways else Updated(ways, way)
  {
  }

  lemma LegalNext(events: seq<Event>, e: Event, n: nat)
    requires Legal(events, n) && e.way < n && (e.Hit? ==> LastTouch(events, e.way) > 0)
    requires VictimFills(events, n) && (e.Fill? ==> IsVictim(After(events, n), e.way))
    ensures Legal(events + [e], n) && VictimFills(events + [e], n)
    ensures After(events + [e], n) == Step(After(events, n), e)
  {
    assert (events + [e])[..|events|] == events;
  }

  function Aged(x: Block, hitLru: nat): Block {
    if x.lru <= hitLru then x.(lru := Increment(x.lru)) else x
  }
}
