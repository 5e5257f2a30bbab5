/** The exclusive multi-level branch target buffer (btb/multi_level_btb.h) and the direct-branch part
    of update_btb (btb/multi_level_basic_btb/multi_level_basic_btb.cc): insertion into level 0 pushes
    victims outwards, and a taken hit in an outer level promotes the branch to level 0.
 */
module MultiLevelBtb {
  import opened Btb

  type Levels = seq<Level>

  /** Every level has sets and ways. */
  predicate Shaped(ls: Levels) {
    |ls| > 0 && forall i | 0 <= i < |ls| :: |ls[i].table| > 0 && ls[i].ways > 0
  }

  ghost predicate LevelsOk(ls: Levels) {
    |ls| > 0 && forall i | 0 <= i < |ls| :: LevelOk(ls[i])
  }

  predicate At(ls: Levels, i: nat, ip: nat) {
    i < |ls| && |ls[i].table| > 0 && Has(ls[i], ip)
  }

  /** A branch outside `loose` is stored in at most one level. */
  ghost predicate Exclusive(ls: Levels, loose: set<nat>) {
    forall ip: nat, i: nat, j: nat | ip !in loose && At(ls, i, ip) && At(ls, j, ip) :: i == j
  }

  /** Every stored target is the last taken target of its branch. */
  ghost predicate Agrees(ls: Levels, last: map<nat, nat>) {
    forall ip: nat, i: nat | At(ls, i, ip) :: ip in last && Get(ls[i], ip).target == last[ip]
  }

  // ---------------------------------------------------------------- the operations

  /** The first level that holds the branch, or |ls|. */
  function FindLevel(ls: Levels, ip: nat, i: nat): (k: nat)
    requires i <= |ls|
    ensures i <= k <= |ls| && (k < |ls| ==> At(ls, k, ip))
    ensures forall j: nat | i <= j < k :: !At(ls, j, ip)
    decreases |ls| - i
  {
    if i == |ls| || At(ls, i, ip) then i else FindLevel(ls, ip, i + 1)
  }

  /** insert() into the levels from `lower` up to `upper`: the branch goes into the first of them, and
      what it pushes out goes on to the next; what the last of them pushes out is gone. */
  ghost function InsertFrom(ls: Levels, ip: nat, target: nat, branchType: nat, lower: nat, upper: nat): (r: Levels)
    requires Shaped(ls) && upper <= |ls|
    ensures Shaped(r) && |r| == |ls|
    ensures forall i | 0 <= i < |ls| && !(lower <= i < upper) :: r[i] == ls[i]
    decreases |ls| - lower
  {
    if lower >= upper then ls else
    var (l, evicted) := InsertLevel(ls[lower], ip, target, branchType);
    var ls1 := ls[lower := l];
    if evicted.ip == 0 then ls1
    else InsertFrom(ls1, evicted.ip, evicted.target, evicted.branchType, lower + 1, upper)
  }

  /** update(): a branch found in an outer level moves to level 0. */
  ghost function Update(ls: Levels, ip: nat): (r: Levels)
    requires Shaped(ls) && FindLevel(ls, ip, 0) < |ls|
    ensures Shaped(r) && |r| == |ls|
  {
    var i := FindLevel(ls, ip, 0);
    if i == 0 then ls[0 := UpdateLevel(ls[0], ip)]
    else
      var e := Get(ls[i], ip);
      var ls1 := InsertFrom(ls, ip, e.target, e.branchType, 0, i);
      ls1[i := RemoveLevel(ls1[i], ip)]
  }

  /** update_btb() for a direct branch. */
  ghost function UpdateBtb(ls: Levels, ip: nat, target: nat, taken: bool, branchType: nat): (r: Levels)
    requires Shaped(ls)
    ensures Shaped(r) && |r| == |ls|
  {
    var i := FindLevel(ls, ip, 0);
    if i == |ls| then
      if target != 0 && taken then InsertFrom(ls, ip, target, branchType, 0, |ls|) else ls
    else
      var e := Get(ls[i], ip);
      if !taken then ls[i := SetEntry(ls[i], ip, e.(alwaysTaken := false))]
      else
        var ls1 := ls[i := SetEntry(ls[i], ip, e.(target := target))];
        FoundStill(ls, ls1, ip, i);
        Update(ls1, ip)
  }

  lemma {:induction false} FoundStill(ls: Levels, ls1: Levels, ip: nat, i: nat)
    requires Shaped(ls) && i == FindLevel(ls, ip, 0) < |ls|
    requires |ls1| == |ls| && At(ls1, i, ip) && forall j | 0 <= j < |ls| && j != i :: ls1[j] == ls[j]
    ensures FindLevel(ls1, ip, 0) == i
  {
    var k := FindLevel(ls1, ip, 0);
    if k < i {
      assert At(ls, k, ip);
    }
  }

  // ---------------------------------------------------------------- what they keep

  ghost predicate Inv(ls: Levels, last: map<nat, nat>, loose: set<nat>) {
    LevelsOk(ls) && Exclusive(ls, loose) && Agrees(ls, last)
  }

  lemma {:induction false} LevelsShaped(ls: Levels)
    requires LevelsOk(ls)
    ensures Shaped(ls)
  {
  }

  /** What an insertion into one level does, as seen from outside. */
  lemma {:induction false} InsertLevelSeen(l: Level, ip: nat, target: nat, branchType: nat)
    requires LevelOk(l) && !Has(l, ip)
    ensures var (r, e) := InsertLevel(l, ip, target, branchType);
            && LevelOk(r) && |r.table| == |l.table| && Has(r, ip) && Get(r, ip).target == target
            && (forall x: nat | x != ip && Has(r, x) :: Has(l, x) && Get(r, x).target == Get(l, x).target)
            && (e.ip != 0 ==> e.ip != ip && Has(l, e.ip) && !Has(r, e.ip) && e.target == Get(l, e.ip).target)
  {
    hide SetInsert, LevelOk;
    var s := SetOf(ip, |l.table|);
    InsertLevelOk(l, ip, target, branchType);
    InsertSeen(l, ip, target, branchType);
  }

  lemma {:induction false} InsertSeen(l: Level, ip: nat, target: nat, branchType: nat)
    requires LevelOk(l) && !Has(l, ip)
    ensures var (r, e) := InsertLevel(l, ip, target, branchType);
            && |r.table| == |l.table| && Has(r, ip) && Get(r, ip).target == target
            && (forall x: nat | x != ip && Has(r, x) :: Has(l, x) && Get(r, x).target == Get(l, x).target)
            && (e.ip != 0 ==> e.ip != ip && Has(l, e.ip) && !Has(r, e.ip) && e.target == Get(l, e.ip).target)
  {
    hide SetInsert, StampsDistinct, SetOf;
    var s := SetOf(ip, |l.table|);
    SetInsertKeys(l.table[s], l.ways, ip, target, branchType);
  }

  /** The cascade of victims keeps every branch in at most one level, with its last taken target. */
  lemma {:induction false} InsertKeeps(ls: Levels, ip: nat, target: nat, branchType: nat, lower: nat, upper: nat,
                                       last: map<nat, nat>, loose: set<nat>, away: set<nat>)
    requires Inv(ls, last, loose) && upper <= |ls| && ip in last && last[ip] == target
    requires loose <= away + {ip} && ip !in away
    requires forall p: nat, i: nat | p in away + {ip} && lower <= i < upper :: !At(ls, i, p)
    requires ip in loose || forall i: nat :: !At(ls, i, ip)
    ensures Shaped(ls)
    ensures var r := InsertFrom(ls, ip, target, branchType, lower, upper);
            && Inv(r, last, loose) && (lower < upper ==> At(r, lower, ip))
            && (forall p: nat, i: nat | p in away && lower <= i < upper :: !At(r, i, p))
            && (forall i: nat | lower < i < upper :: !At(r, i, ip))
    decreases |ls| - lower
  {
    hide LevelOk, InsertLevel, Inv, Agrees, Exclusive, Get;
    OkOf(ls, last, loose);
    LevelsShaped(ls);
    if lower >= upper {
    } else {
      var (l, e) := InsertLevel(ls[lower], ip, target, branchType);
      var ls1 := ls[lower := l];
      assert !At(ls, lower, ip);
      InsertLevelSeen(ls[lower], ip, target, branchType);
      OneLevelIn(ls, ls1, lower, ip, last, loose);
      forall p: nat | p in away ensures !At(ls1, lower, p) {
        assert !At(ls, lower, p);
      }
      if e.ip != 0 {
        VictimFree(ls, ls1, lower, e, last, loose, upper, away + {ip});
        InsertKeeps(ls1, e.ip, e.target, e.branchType, lower + 1, upper, last, loose, away + {ip});
      }
      var r := InsertFrom(ls, ip, target, branchType, lower, upper);
      var more := lower + 1;
      assert r == if e.ip == 0 then ls1 else InsertFrom(ls1, e.ip, e.target, e.branchType, more, upper);
      hide InsertFrom;
      assert r[lower] == ls1[lower];
      forall p: nat, i: nat | p in away + {ip} && lower < i < upper ensures !At(r, i, p) {
        assert At(ls1, i, p) == At(ls, i, p);
      }
    }
  }

  /** What was pushed out of a level is in no level any more. */
  lemma {:induction false} VictimFree(ls: Levels, ls1: Levels, k: nat, e: Evicted, last: map<nat, nat>, loose: set<nat>,
                                      upper: nat, away: set<nat>)
    requires Inv(ls, last, loose) && k < upper <= |ls|
    requires |ls1| == |ls| && forall i | 0 <= i < |ls| && i != k :: ls1[i] == ls[i]
    requires |ls1[k].table| > 0 && Has(ls[k], e.ip) && !Has(ls1[k], e.ip) && e.target == Get(ls[k], e.ip).target
    requires loose <= away && forall p: nat, i: nat | p in away && k <= i < upper :: !At(ls, i, p)
    ensures e.ip in last && last[e.ip] == e.target && e.ip !in away
    ensures forall p: nat, i: nat | p in away + {e.ip} && k + 1 <= i < upper :: !At(ls1, i, p)
    ensures forall i: nat :: !At(ls1, i, e.ip)
  {
    hide LevelOk;
    assert At(ls, k, e.ip);
    forall i: nat ensures !At(ls1, i, e.ip) {
      assert i != k ==> At(ls1, i, e.ip) == At(ls, i, e.ip);
    }
    forall p: nat, i: nat | p in away && k + 1 <= i < upper ensures !At(ls1, i, p) {
      assert At(ls1, i, p) == At(ls, i, p);
    }
  }

  /** One level gains `ip` and may lose others. */
  lemma {:induction false} OneLevelIn(ls: Levels, ls1: Levels, k: nat, ip: nat, last: map<nat, nat>, loose: set<nat>)
    requires Inv(ls, last, loose) && k < |ls| && ip in last
    requires |ls1| == |ls| && forall i | 0 <= i < |ls| && i != k :: ls1[i] == ls[i]
    requires LevelOk(ls1[k]) && Has(ls1[k], ip) && Get(ls1[k], ip).target == last[ip]
    requires forall x: nat | x != ip && Has(ls1[k], x) :: Has(ls[k], x) && Get(ls1[k], x).target == Get(ls[k], x).target
    requires ip in loose || forall i: nat | i != k :: !At(ls, i, ip)
    ensures Inv(ls1, last, loose)
  {
    hide LevelOk;
    assert forall i: nat, x: nat | At(ls1, i, x) :: At(ls, i, x) || (i == k && x == ip);
  }

  lemma {:induction false} NoneBelow(ls: Levels, ip: nat)
    ensures forall i: nat | i < FindLevel(ls, ip, 0) :: !At(ls, i, ip)
  {
  }

  /** A promotion leaves the branch in level 0 only. */
  lemma {:induction false} UpdateKeeps(ls: Levels, ip: nat, last: map<nat, nat>)
    requires Inv(ls, last, {}) && FindLevel(ls, ip, 0) < |ls|
    ensures Shaped(ls) && Inv(Update(ls, ip), last, {}) && At(Update(ls, ip), 0, ip)
  {
    hide LevelOk, Inv, InsertFrom, UpdateLevel, RemoveLevel;
    OkOf(ls, last, {});
    LevelsShaped(ls);
    var i := FindLevel(ls, ip, 0);
    assert At(ls, i, ip);
    if i == 0 {
      RestampKeeps(ls, ip, last);
    } else {
      PromoteKeeps(ls, ip, i, last);
    }
  }

  lemma OkOf(ls: Levels, last: map<nat, nat>, loose: set<nat>)
    requires Inv(ls, last, loose)
    ensures LevelsOk(ls) && Agrees(ls, last) && Exclusive(ls, loose)
  {
  }

  lemma {:induction false} RestampKeeps(ls: Levels, ip: nat, last: map<nat, nat>)
    requires Inv(ls, last, {}) && At(ls, 0, ip)
    ensures Inv(ls[0 := UpdateLevel(ls[0], ip)], last, {}) && At(ls[0 := UpdateLevel(ls[0], ip)], 0, ip)
  {
    hide LevelOk, MaxStamp;
    UpdateOk(ls[0], ip);
    OneLevelIn(ls, ls[0 := UpdateLevel(ls[0], ip)], 0, ip, last, {});
  }

  lemma {:induction false} PromoteKeeps(ls: Levels, ip: nat, i: nat, last: map<nat, nat>)
    requires Inv(ls, last, {}) && 0 < i < |ls| && At(ls, i, ip) && Shaped(ls)
    ensures var e := Get(ls[i], ip);
            var ls1 := InsertFrom(ls, ip, e.target, e.branchType, 0, i);
            var ls2 := ls1[i := RemoveLevel(ls1[i], ip)];
            Inv(ls2, last, {}) && At(ls2, 0, ip)
  {
    hide LevelOk, InsertFrom, RemoveLevel, SetOf;
    var e := Get(ls[i], ip);
    var ls1 := InsertFrom(ls, ip, e.target, e.branchType, 0, i);
    var ls2 := ls1[i := RemoveLevel(ls1[i], ip)];
    InsertKeeps(ls, ip, e.target, e.branchType, 0, i, last, {ip}, {});
    assert ls1[i] == ls[i];
    RemoveOk(ls1[i], ip);
    RemovedOne(ls1, ls2, ip, i, last);
    forall j: nat | At(ls2, j, ip) ensures j == 0 {
      assert At(ls1, j, ip) && j != i;
      assert j > i ==> At(ls, j, ip);
    }
  }

  lemma {:induction false} RemovedOne(ls1: Levels, ls2: Levels, ip: nat, i: nat, last: map<nat, nat>)
    requires Shaped(ls1)
    requires Inv(ls1, last, {ip}) && i < |ls1| && ls2 == ls1[i := RemoveLevel(ls1[i], ip)] && LevelOk(ls2[i])
    ensures Inv(ls2, last, {ip})
    ensures forall j: nat, x: nat :: At(ls2, j, x) <==> At(ls1, j, x) && !(j == i && x == ip)
  {
    hide LevelOk, SetOf;
    forall j: nat, x: nat
      ensures At(ls2, j, x) <==> At(ls1, j, x) && !(j == i && x == ip)
      ensures At(ls2, j, x) ==> Get(ls2[j], x) == Get(ls1[j], x)
    {
    }
  }

  /** update_btb() on a direct branch: the buffer stays exclusive and agrees with the map of last taken
      targets, and a taken branch with a target is in level 0 afterwards. */
  lemma {:induction false} UpdateBtbKeeps(ls: Levels, ip: nat, target: nat, taken: bool, branchType: nat,
                                          last: map<nat, nat>)
    requires Inv(ls, last, {})
    ensures Shaped(ls)
    ensures var r := UpdateBtb(ls, ip, target, taken, branchType);
            && Inv(r, if taken then last[ip := target] else last, {})
            && (taken && (target != 0 || FindLevel(ls, ip, 0) < |ls|) ==> At(r, 0, ip))
  {
    hide LevelOk, Update, InsertFrom, SetEntry;
    LevelsShaped(ls);
    var i := FindLevel(ls, ip, 0);
    var last' := if taken then last[ip := target] else last;
    if i == |ls| {
      NoneBelow(ls, ip);
      assert Inv(ls, last', {});
      if target != 0 && taken {
        InsertKeeps(ls, ip, target, branchType, 0, |ls|, last', {}, {});
      }
    } else {
      var e := Get(ls[i], ip);
      if taken {
        WriteKeeps(ls, ip, i, e.(target := target), last);
        var ls1 := ls[i := SetEntry(ls[i], ip, e.(target := target))];
        FoundStill(ls, ls1, ip, i);
        UpdateKeeps(ls1, ip, last');
      } else {
        assert last[ip := e.target] == last;
        WriteKeeps(ls, ip, i, e.(alwaysTaken := false), last);
      }
    }
  }

  lemma {:induction false} WriteKeeps(ls: Levels, ip: nat, i: nat, e: Entry, last: map<nat, nat>)
    requires Inv(ls, last, {}) && At(ls, i, ip) && e.lru == Get(ls[i], ip).lru
    ensures Inv(ls[i := SetEntry(ls[i], ip, e)], last[ip := e.target], {})
    ensures forall j: nat, x: nat :: At(ls[i := SetEntry(ls[i], ip, e)], j, x) == At(ls, j, x)
  {
    hide LevelOk, SetOf;
    SetEntryOk(ls[i], ip, e);
    var ls1 := ls[i := SetEntry(ls[i], ip, e)];
    forall j: nat, x: nat
      ensures At(ls1, j, x) == At(ls, j, x)
      ensures At(ls1, j, x) && !(j == i && x == ip) ==> Get(ls1[j], x) == Get(ls[j], x)
    {
    }
  }

  // ---------------------------------------------------------------- whole runs

  datatype Branch = Branch(ip: nat, target: nat, taken: bool, branchType: nat)

  ghost function Run(ls: Levels, branches: seq<Branch>): (r: Levels)
    requires Shaped(ls)
    ensures Shaped(r) && |r| == |ls|
    decreases |branches|
  {
    if branches == [] then ls else
    var n := |branches| - 1;
    var b := branches[n];
    UpdateBtb(Run(ls, branches[..n]), b.ip, b.target, b.taken, b.branchType)
  }

  /** The map of last taken targets, straight from the trace. */
  function LastTaken(branches: seq<Branch>): map<nat, nat> {
    if branches == [] then map[] else
    var n := |branches| - 1;
    var b := branches[n];
    if b.taken then LastTaken(branches[..n])[b.ip := b.target] else LastTaken(branches[..n])
  }

  predicate AllEmpty(ls: Levels) {
    forall i, s | 0 <= i < |ls| && 0 <= s < |ls[i].table| :: ls[i].table[s] == map[]
  }

  /** From empty levels, after any trace: exclusive, within its ways, and every lookup that hits gives
      the last taken target of the branch. */
  lemma {:induction false} RunAgrees(ls: Levels, branches: seq<Branch>)
    requires Shaped(ls) && AllEmpty(ls)
    ensures Inv(Run(ls, branches), LastTaken(branches), {})
    decreases |branches|
  {
    hide UpdateBtb;
    if branches == [] {
      assert forall i: nat, x: nat :: !At(ls, i, x);
    } else {
      hide Inv;
      var n := |branches| - 1;
      var b := branches[n];
      RunAgrees(ls, branches[..n]);
      UpdateBtbKeeps(Run(ls, branches[..n]), b.ip, b.target, b.taken, b.branchType, LastTaken(branches[..n]));
    }
  }
}
