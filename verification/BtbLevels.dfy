/** The branch target buffer's own loops (btb/multi_level_btb.h, LRUBTB in
    btb/multi_level_basic_btb/multi_level_basic_btb.cc), proved against the functions of Btb and
    MultiLevelBtb.
 */
module BtbLevels {
  import opened Btb
  import opened MultiLevelBtb
  import BtbLaws

  /** LRUBTB: one level, a vector of maps. */
  class LruBtb {
    const latency: nat
    const ways: nat
    var table: seq<Table>

    ghost function View(): Level
      reads this
    {
      Level(latency, ways, table)
    }

    ghost predicate Valid()
      reads this
    {
      LevelOk(View())
    }

    constructor (latency: nat, sets: nat, ways: nat)
      requires sets > 0 && ways > 0
      ensures Valid() && View() == Level(latency, ways, seq(sets, _ => map[]))
    {
      this.latency, this.ways := latency, ways;
      table := seq(sets, _ => map[]);
    }

    method FindBtbEntry(ip: nat) returns (found: bool)
      requires |table| > 0
      ensures found == Has(View(), ip)
    {
      var s := SetOf(ip, |table|);
      found := ip in table[s];
    }

    /** The scan for the smallest stamp; the map is walked in an unknown order. */
    method FindOldest(s: nat) returns (ipMin: nat)
      requires s < |table| && StampsDistinct(table[s]) && table[s] != map[]
      ensures ipMin == Oldest(table[s])
    {
      var m := table[s];
      var left := m.Keys;
      ipMin :| ipMin in m;
      var min := m[ipMin].lru;
      while left != {}
        invariant left <= m.Keys && ipMin in m && min == m[ipMin].lru
        invariant forall x | x in m && x !in left :: min <= m[x].lru
        decreases left
      {
        var a :| a in left;
        if min > m[a].lru {
          min := m[a].lru;
          ipMin := a;
        }
        left := left - {a};
      }
      OldestUnique(m, ipMin);
    }

    method Insert(ip: nat, target: nat, branchType: nat) returns (victim: Evicted)
      requires Valid()
      modifies this
      ensures (View(), victim) == InsertLevel(old(View()), ip, target, branchType)
    {
      hide SetOf, Oldest, Stamped, MaxStamp;
      ghost var before := table;
      var s := SetOf(ip, |table|);
      OkSet(View(), s);
      victim := NOTHING;
      if |table[s]| >= ways {
        assert table[s] != map[];
        var ipMin := FindOldest(s);
        victim := Evicted(ipMin, table[s][ipMin].target, table[s][ipMin].branchType);
        table := table[s := table[s] - {ipMin}];
      }
      if ip !in table[s] {
        var placed: Table := table[s][ip := Entry(target, branchType, true, 0)];
        table := table[s := placed];
      }
      assert table == before[s := table[s]];
      hide SetInsert;
      ghost var placed := table[s];
      assert SetInsert(before[s], ways, ip, target, branchType) == (Stamped(placed, ip), victim) by {
        InsertIs(before[s], ways, ip, target, branchType, placed, victim);
      }
      Update(ip);
      assert table == before[s := table[s]];
    }

    /** update(): one more than the largest stamp of the set. */
    method Update(ip: nat)
      requires |table| > 0 && Has(View(), ip)
      modifies this
      ensures View() == UpdateLevel(old(View()), ip)
    {
      var s := SetOf(ip, |table|);
      var m := table[s];
      var max := 0;
      var left := m.Keys;
      while left != {}
        invariant left <= m.Keys && table == old(table)
        invariant max <= MaxStamp(m)
        invariant forall x | x in m && x !in left :: m[x].lru <= max
        decreases left
      {
        var a :| a in left;
        if max < m[a].lru {
          max := m[a].lru;
        }
        left := left - {a};
      }
      assert max == MaxStamp(m);
      var stamped: Table := m[ip := m[ip].(lru := max + 1)];
      table := table[s := stamped];
    }

    method Remove(ip: nat)
      requires |table| > 0
      modifies this
      ensures View() == RemoveLevel(old(View()), ip)
    {
      var s := SetOf(ip, |table|);
      table := table[s := table[s] - {ip}];
    }

    /** A write through the pointer that a lookup returned. */
    method Write(ip: nat, e: Entry)
      requires |table| > 0
      modifies this
      ensures View() == SetEntry(old(View()), ip, e)
    {
      var s := SetOf(ip, |table|);
      var written: Table := table[s][ip := e];
      table := table[s := written];
    }
  }

  lemma OkSet(l: Level, s: nat)
    requires LevelOk(l) && s < |l.table|
    ensures StampsDistinct(l.table[s])
  {
  }

  lemma InsertIs(m: Table, ways: nat, ip: nat, target: nat, branchType: nat, placed: Table, victim: Evicted)
    requires ways > 0
    requires var full := |m| >= ways && m != map[];
             var room := if full then m - {Oldest(m)} else m;
             && victim == (if full then Evicted(Oldest(m), m[Oldest(m)].target, m[Oldest(m)].branchType) else NOTHING)
             && placed == (if ip in room then room else room[ip := Entry(target, branchType, true, 0)])
    ensures ip in placed && SetInsert(m, ways, ip, target, branchType) == (Stamped(placed, ip), victim)
  {
  }

  /** MultiLevelBTB over LRUBTB levels. */
  class MultiLevel {
    const levels: seq<LruBtb>

    ghost function Objects(): set<object> {
      set l | l in levels
    }

    ghost function View(): (ls: Levels)
      reads Objects()
      ensures |ls| == |levels| && forall i | 0 <= i < |levels| :: ls[i] == levels[i].View()
    {
      ViewFrom(0)
    }

    ghost function ViewFrom(k: nat): (ls: Levels)
      requires k <= |levels|
      reads Objects()
      ensures |ls| == |levels| - k && forall i | 0 <= i < |ls| :: ls[i] == levels[k + i].View()
      decreases |levels| - k
    {
      if k == |levels| then [] else [levels[k].View()] + ViewFrom(k + 1)
    }

    /** The levels are different objects. */
    ghost predicate Separate() {
      |levels| > 0 && forall i, j | 0 <= i < j < |levels| :: levels[i] != levels[j]
    }

    ghost predicate Valid(last: map<nat, nat>)
      reads Objects()
    {
      Separate() && Inv(View(), last, {})
    }

    /** The first level that holds the branch. */
    method FindBtbEntry(ip: nat) returns (k: nat)
      requires Shaped(View())
      ensures k == FindLevel(View(), ip, 0)
    {
      hide ViewFrom, SetOf, FindLevel, Has;
      ghost var ls := View();
      k := 0;
      while k < |levels|
        invariant k <= |levels| && ls == View() && FindLevel(ls, ip, 0) == FindLevel(ls, ip, k)
      {
        FindStep(ls, ip, k);
        assert ls[k] == levels[k].View();
        var found := levels[k].FindBtbEntry(ip);
        assert found == Has(ls[k], ip);
        assert ls == View();
        if found {
          return;
        }
        k := k + 1;
      }
      FindEnd(ls, ip);
    }

    /** insert() from level `lower` up to `upper`; the result says that some level took the branch. The
        loop over the levels stops in the first one, because a level always takes the branch. */
    method Insert(ip: nat, target: nat, branchType: nat, lower: nat, upper: nat) returns (placed: bool)
      requires Separate() && LevelsOk(View()) && upper <= |levels|
      modifies Objects()
      ensures Shaped(old(View())) && View() == InsertFrom(old(View()), ip, target, branchType, lower, upper)
      ensures BtbLaws.Free(old(View()), ip, lower, upper) ==>
                BtbLaws.Cascades(old(View()), ip, target, branchType, lower, upper, View())
      ensures placed == (lower < upper)
      decreases |levels| - lower
    {
      hide LevelOk, InsertLevel, ViewFrom, SetOf, Has, FindLevel, BtbLaws.Free, BtbLaws.Cascades;
      ghost var ls := View();
      LevelsShaped(ls);
      BtbLaws.CascadesIfFree(ls, ip, target, branchType, lower, upper);
      if lower >= upper {
        return false;
      }
      InsertLevelOk(ls[lower], ip, target, branchType);
      LevelAfterInsert(ls[lower], ip, target, branchType);
      var victim := levels[lower].Insert(ip, target, branchType);
      assert View() == ls[lower := InsertLevel(ls[lower], ip, target, branchType).0];
      if victim.ip != 0 {
        var more := Insert(victim.ip, victim.target, victim.branchType, lower + 1, upper);
        return true;
      }
      LevelsShaped(View());
      assert At(View(), lower, ip);
      var k := FindBtbEntry(ip);
      return k < |levels|;
    }

    /** update(): promote a branch found in an outer level, else restamp it. */
    method Update(ip: nat)
      requires Separate() && LevelsOk(View()) && Shaped(View()) && FindLevel(View(), ip, 0) < |levels|
      modifies Objects()
      ensures View() == MultiLevelBtb.Update(old(View()), ip)
    {
      hide LevelOk, InsertLevel, UpdateLevel, RemoveLevel, InsertFrom, ViewFrom, SetOf, FindLevel, BtbLaws.Cascades,
           BtbLaws.Free;
      ghost var ls := View();
      var i := FindBtbEntry(ip);
      assert ls[i] == levels[i].View() && At(ls, i, ip);
      var s := SetOf(ip, |levels[i].table|);
      var e := levels[i].table[s][ip];
      var promoted := false;
      if i != 0 {
        promoted := Insert(ip, e.target, e.branchType, 0, i);
      }
      if i == 0 || !promoted {
        levels[i].Update(ip);
        assert View() == ls[0 := UpdateLevel(ls[0], ip)];
      } else {
        ghost var ls1 := View();
        levels[i].Remove(ip);
        assert View() == ls1[i := RemoveLevel(ls1[i], ip)];
      }
    }

    /** The direct-branch part of update_btb(). */
    method UpdateBtb(ip: nat, target: nat, taken: bool, branchType: nat, ghost last: map<nat, nat>)
      requires Valid(last)
      modifies Objects()
      ensures Shaped(old(View())) && View() == MultiLevelBtb.UpdateBtb(old(View()), ip, target, taken, branchType)
      ensures BtbLaws.Updated(old(View()), ip, target, taken, branchType, View())
      ensures Valid(if taken then last[ip := target] else last)
    {
      hide LevelOk, MultiLevelBtb.Update, InsertFrom, SetEntry, ViewFrom, SetOf, BtbLaws.Updated;
      ghost var ls := View();
      LevelsShaped(ls);
      BtbLaws.UpdateBtbExactly(ls, ip, target, taken, branchType);
      UpdateBtbKeeps(ls, ip, target, taken, branchType, last);
      var i := FindBtbEntry(ip);
      if i == |levels| {
        if target != 0 && taken {
          var placed := Insert(ip, target, branchType, 0, |levels|);
        }
      } else {
        var s := SetOf(ip, |levels[i].table|);
        var e := levels[i].table[s][ip];
        if !taken {
          levels[i].Write(ip, e.(alwaysTaken := false));
          assert View() == ls[i := SetEntry(ls[i], ip, e.(alwaysTaken := false))];
        } else {
          levels[i].Write(ip, e.(target := target));
          ghost var ls1 := View();
          assert ls1 == ls[i := SetEntry(ls[i], ip, e.(target := target))];
          WriteKeeps(ls, ip, i, e.(target := target), last);
          FoundStill(ls, ls1, ip, i);
          Update(ip);
        }
      }
    }
  }

  lemma FindStep(ls: Levels, ip: nat, k: nat)
    requires k < |ls| && Shaped(ls)
    ensures FindLevel(ls, ip, k) == if Has(ls[k], ip) then k else FindLevel(ls, ip, k + 1)
  {
  }

  lemma FindEnd(ls: Levels, ip: nat)
    ensures FindLevel(ls, ip, |ls|) == |ls|
  {
  }

  lemma LevelAfterInsert(l: Level, ip: nat, target: nat, branchType: nat)
    requires LevelOk(l)
    ensures |l.table| > 0 && l.ways > 0 && |InsertLevel(l, ip, target, branchType).0.table| == |l.table|
    ensures Has(InsertLevel(l, ip, target, branchType).0, ip)
  {
    hide SetInsert;
  }
}
