/** One level of a branch target buffer with LRU stamps (btb/multi_level_btb.h and LRUBTB in
    btb/multi_level_basic_btb/multi_level_basic_btb.cc), for one cpu.
 */
module Btb {

  datatype Entry = Entry(target: nat, branchType: nat, alwaysTaken: bool, lru: nat)

  type Table = map<nat, Entry>

  /** A level is a vector of sets, each a map from branch address to entry. */
  datatype Level = Level(latency: nat, ways: nat, table: seq<Table>)

  /** What an insertion pushes out; address 0 stands for nothing. */
  datatype Evicted = Evicted(ip: nat, target: nat, branchType: nat)

  const NOTHING: Evicted := Evicted(0, 0, 0)

  function SetOf(ip: nat, sets: nat): (s: nat)
    requires sets > 0
    ensures s < sets
  {
    (ip / 4) % sets
  }

  predicate Has(l: Level, ip: nat)
    requires |l.table| > 0
  {
    ip in l.table[SetOf(ip, |l.table|)]
  }

  function Get(l: Level, ip: nat): Entry
    requires |l.table| > 0 && Has(l, ip)
  {
    l.table[SetOf(ip, |l.table|)][ip]
  }

  ghost predicate StampsDistinct(m: Table) {
    && (forall x | x in m :: m[x].lru > 0)
    && (forall x, y | x in m && y in m && x != y :: m[x].lru != m[y].lru)
  }

  ghost predicate LevelOk(l: Level) {
    && l.ways > 0 && |l.table| > 0
    && (forall s | 0 <= s < |l.table| :: |l.table[s]| <= l.ways && StampsDistinct(l.table[s]))
    && (forall s, ip | 0 <= s < |l.table| && ip in l.table[s] :: SetOf(ip, |l.table|) == s)
  }

  // ---------------------------------------------------------------- oldest and newest stamp

  ghost predicate IsOldest(m: Table, v: nat) {
    v in m && forall x | x in m :: m[v].lru <= m[x].lru
  }

  ghost predicate IsNewest(m: Table, v: nat) {
    v in m && forall x | x in m :: m[x].lru <= m[v].lru
  }

  lemma {:induction false} ExtremesExist(m: Table)
    requires m != map[]
    ensures (exists v :: IsOldest(m, v)) && (exists v :: IsNewest(m, v))
    decreases |m|
  {
    var x :| x in m;
    var rest := m - {x};
    if rest == map[] {
      assert forall y | y in m && y != x :: y in rest;
      assert IsOldest(m, x) && IsNewest(m, x);
    } else {
      ExtremesExist(rest);
      var o :| IsOldest(rest, o);
      var n :| IsNewest(rest, n);
      assert forall y | y in m && y != x :: y in rest && rest[y] == m[y];
      assert IsOldest(m, if m[x].lru <= m[o].lru then x else o);
      assert IsNewest(m, if m[x].lru >= m[n].lru then x else n);
    }
  }

  ghost function Oldest(m: Table): (v: nat)
    requires m != map[]
    ensures IsOldest(m, v)
  {
    ExtremesExist(m);
    var v :| IsOldest(m, v);
    v
  }

  ghost function MaxStamp(m: Table): (max: nat)
    ensures forall x | x in m :: m[x].lru <= max
    ensures max == 0 || exists x :: x in m && m[x].lru == max
  {
    if m == map[] then 0 else
    ExtremesExist(m);
    var v :| IsNewest(m, v);
    m[v].lru
  }

  lemma OldestUnique(m: Table, v: nat)
    requires StampsDistinct(m) && IsOldest(m, v)
    ensures Oldest(m) == v
  {
  }

  // ---------------------------------------------------------------- the operations of one set

  /** LRUBTB::update: the entry gets the newest stamp of its set. */
  ghost function Stamped(m: Table, ip: nat): (r: Table)
    requires ip in m
    ensures r.Keys == m.Keys
  {
    m[ip := m[ip].(lru := MaxStamp(m) + 1)]
  }

  ghost function SetInsert(m: Table, ways: nat, ip: nat, target: nat, branchType: nat): (r: (Table, Evicted))
    requires ways > 0
    ensures ip in r.0
  {
    var full := |m| >= ways && m != map[];
    var v := if full then Oldest(m) else 0;
    var evicted := if full then Evicted(v, m[v].target, m[v].branchType) else NOTHING;
    var room := if full then m - {v} else m;
    var placed := if ip in room then room else room[ip := Entry(target, branchType, true, 0)];
    (Stamped(placed, ip), evicted)
  }

  lemma {:induction false} StampedOk(m: Table, ip: nat)
    requires ip in m && forall x, y | x in m && y in m && x != y && x != ip && y != ip :: m[x].lru != m[y].lru
    requires forall x | x in m && x != ip :: m[x].lru > 0
    ensures StampsDistinct(Stamped(m, ip)) && IsNewest(Stamped(m, ip), ip)
  {
  }

  lemma {:induction false} SetInsertOk(m: Table, ways: nat, ip: nat, target: nat, branchType: nat)
    requires ways > 0 && |m| <= ways && StampsDistinct(m)
    ensures var (m', _) := SetInsert(m, ways, ip, target, branchType); |m'| <= ways && StampsDistinct(m')
  {
    hide MaxStamp, Stamped, Oldest;
    var full := |m| >= ways;
    assert full ==> m != map[];
    var room := if full then m - {Oldest(m)} else m;
    if full {
      RemovedSize(m, Oldest(m));
    }
    var placed := if ip in room then room else room[ip := Entry(target, branchType, true, 0)];
    AddedSize(room, ip, Entry(target, branchType, true, 0));
    StampedOk(placed, ip);
    SameKeysSize(placed, Stamped(placed, ip));
  }

  lemma RemovedSize(m: Table, v: nat)
    requires v in m
    ensures |m - {v}| == |m| - 1
  {
    assert (m - {v}).Keys == m.Keys - {v};
  }

  lemma AddedSize(m: Table, ip: nat, e: Entry)
    ensures |m[ip := e]| <= |m| + 1
  {
    assert m[ip := e].Keys == m.Keys + {ip};
  }

  lemma SameKeysSize(m: Table, m': Table)
    requires m.Keys == m'.Keys
    ensures |m| == |m'|
  {
    assert |m.Keys| == |m'.Keys|;
  }

  // ---------------------------------------------------------------- the operations of a level

  ghost function UpdateLevel(l: Level, ip: nat): Level
    requires |l.table| > 0 && Has(l, ip)
  {
    var s := SetOf(ip, |l.table|);
    l.(table := l.table[s := Stamped(l.table[s], ip)])
  }

  ghost function InsertLevel(l: Level, ip: nat, target: nat, branchType: nat): (Level, Evicted)
    requires |l.table| > 0 && l.ways > 0
  {
    var s := SetOf(ip, |l.table|);
    var (m, evicted) := SetInsert(l.table[s], l.ways, ip, target, branchType);
    (l.(table := l.table[s := m]), evicted)
  }

  function RemoveLevel(l: Level, ip: nat): Level
    requires |l.table| > 0
  {
    var s := SetOf(ip, |l.table|);
    l.(table := l.table[s := l.table[s] - {ip}])
  }

  /** Write through the pointer that a lookup returned. */
  function SetEntry(l: Level, ip: nat, e: Entry): Level
    requires |l.table| > 0
  {
    var s := SetOf(ip, |l.table|);
    var m: Table := l.table[s][ip := e];
    l.(table := l.table[s := m])
  }

  lemma {:induction false} ReplaceSetOk(l: Level, s: nat, m: Table)
    requires LevelOk(l) && s < |l.table| && |m| <= l.ways && StampsDistinct(m)
    requires forall x | x in m :: SetOf(x, |l.table|) == s
    ensures LevelOk(l.(table := l.table[s := m]))
  {
    hide SetOf, StampsDistinct;
  }

  lemma {:induction false} RemoveOk(l: Level, ip: nat)
    requires LevelOk(l)
    ensures LevelOk(RemoveLevel(l, ip))
  {
    hide SetOf;
    var s := SetOf(ip, |l.table|);
    if ip in l.table[s] {
      RemovedSize(l.table[s], ip);
    } else {
      assert l.table[s] - {ip} == l.table[s];
    }
    ReplaceSetOk(l, s, l.table[s] - {ip});
  }

  lemma {:induction false} UpdateOk(l: Level, ip: nat)
    requires LevelOk(l) && Has(l, ip)
    ensures LevelOk(UpdateLevel(l, ip))
  {
    hide SetOf, MaxStamp, Stamped;
    var s := SetOf(ip, |l.table|);
    StampedOk(l.table[s], ip);
    SameKeysSize(l.table[s], Stamped(l.table[s], ip));
    ReplaceSetOk(l, s, Stamped(l.table[s], ip));
  }

  lemma {:induction false} SetEntryOk(l: Level, ip: nat, e: Entry)
    requires LevelOk(l) && Has(l, ip) && e.lru == Get(l, ip).lru
    ensures LevelOk(SetEntry(l, ip, e))
  {
    hide SetOf;
    var s := SetOf(ip, |l.table|);
    var m := l.table[s];
    SameKeysSize(m, m[ip := e]);
    ReplaceSetOk(l, s, m[ip := e]);
  }

  lemma {:induction false} InsertLevelOk(l: Level, ip: nat, target: nat, branchType: nat)
    requires LevelOk(l)
    ensures LevelOk(InsertLevel(l, ip, target, branchType).0)
  {
    hide SetOf, SetInsert, StampsDistinct;
    var s := SetOf(ip, |l.table|);
    var m' := SetInsert(l.table[s], l.ways, ip, target, branchType).0;
    SetInsertOk(l.table[s], l.ways, ip, target, branchType);
    SetInsertSubset(l.table[s], l.ways, ip, target, branchType);
    ReplaceSetOk(l, s, m');
  }

  lemma {:induction false} SetInsertSubset(m: Table, ways: nat, ip: nat, target: nat, branchType: nat)
    requires ways > 0
    ensures forall x | x in SetInsert(m, ways, ip, target, branchType).0 :: x == ip || x in m
  {
    hide MaxStamp;
  }

  /** Insertion adds the branch, evicts at most one other, and leaves every other entry as it is. */
  lemma {:induction false} SetInsertKeys(m: Table, ways: nat, ip: nat, target: nat, branchType: nat)
    requires ways > 0 && ip !in m
    ensures var (m', e) := SetInsert(m, ways, ip, target, branchType);
            && ip in m' && m'[ip].target == target && m'[ip].branchType == branchType && m'[ip].alwaysTaken
            && (if |m| >= ways && m != map[] then
                  && e.ip == Oldest(m) && e.ip in m && e.ip !in m'
                  && e.target == m[e.ip].target && e.branchType == m[e.ip].branchType
                  && m'.Keys == m.Keys - {e.ip} + {ip}
                else e == NOTHING && m'.Keys == m.Keys + {ip})
            && forall x | x in m' && x != ip :: x in m && m'[x] == m[x]
  {
    hide MaxStamp;
  }
}
