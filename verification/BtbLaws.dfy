/** Where the branches of the multi-level branch target buffer go (btb/multi_level_btb.h and update_btb of
    btb/multi_level_basic_btb/multi_level_basic_btb.cc), branch by branch: what stays, what moves one level out,
    what is lost, and what a stored entry remembers.
 */
module BtbLaws {
  import opened Arithmetic
  import opened Bits
  import opened Btb
  import opened MultiLevelBtb

  // ---------------------------------------------------------------- one level

  /** With 2^k sets two branches share a set exactly when bits 2 to k + 1 of their addresses are the same. */
  lemma SameSetExactly(x: nat, y: nat, k: nat)
    ensures SetOf(x, Pow2(k)) == SetOf(y, Pow2(k)) <==> SameBits(x, y, 2, k)
  {
    SameField(x, y, 2, k);
    assert Pow2(2) == 4 by { assert Pow2(1) == 2; }
    hide Pow2;
  }

  /** The branch is stored, in a full set, and no branch of the set has an older stamp. */
  ghost predicate OldestOfFull(l: Level, x: nat) {
    && |l.table| > 0 && Has(l, x)
    && |l.table[SetOf(x, |l.table|)]| >= l.ways
    && forall y: nat | Has(l, y) && SetOf(y, |l.table|) == SetOf(x, |l.table|) :: Get(l, x).lru <= Get(l, y).lru
  }

  /** The branch is stored as one that has only just been inserted. */
  ghost predicate JustIn(l: Level, x: nat, target: nat, branchType: nat) {
    && |l.table| > 0 && Has(l, x)
    && Get(l, x).target == target && Get(l, x).branchType == branchType && Get(l, x).alwaysTaken
    && forall y: nat | Has(l, y) && y != x && SetOf(y, |l.table|) == SetOf(x, |l.table|) ::
         Get(l, y).lru < Get(l, x).lru
  }

  ghost predicate SameShape(l: Level, l': Level) {
    |l'.table| == |l.table| > 0 && l'.ways == l.ways && l'.latency == l.latency
  }

  /** The level takes the branch; `e` is what it gives up. */
  ghost predicate Takes(l: Level, ip: nat, target: nat, branchType: nat, l': Level, e: Evicted) {
    && SameShape(l, l') && JustIn(l', ip, target, branchType)
    && (forall x: nat | Has(l', x) && x != ip :: Has(l, x))
    && (forall x: nat | Has(l, x) ::
          if Has(l', x) then Get(l', x) == Get(l, x)
          else OldestOfFull(l, x) && SetOf(x, |l.table|) == SetOf(ip, |l.table|)
               && e == Evicted(x, Get(l, x).target, Get(l, x).branchType))
    && (e.ip != 0 ==> Has(l, e.ip) && !Has(l', e.ip))
  }

  /** Takes, for the one set concerned. */
  ghost predicate SetTakes(m: Table, ways: nat, ip: nat, target: nat, branchType: nat, m': Table, e: Evicted) {
    && ip in m' && m'[ip].target == target && m'[ip].branchType == branchType && m'[ip].alwaysTaken
    && (forall y | y in m' && y != ip :: y in m && m'[y].lru < m'[ip].lru)
    && (forall x | x in m ::
          if x in m' then m'[x] == m[x]
          else |m| >= ways && IsOldest(m, x) && e == Evicted(x, m[x].target, m[x].branchType))
    && (e.ip != 0 ==> e.ip in m && e.ip !in m')
  }

  lemma {:induction false} SetInsertTakes(m: Table, ways: nat, ip: nat, target: nat, branchType: nat)
    requires ways > 0 && ip !in m
    ensures var (m', e) := SetInsert(m, ways, ip, target, branchType); SetTakes(m, ways, ip, target, branchType, m', e)
  {
    hide SetInsert;
    SetInsertKeys(m, ways, ip, target, branchType);
    SetInsertNewest(m, ways, ip, target, branchType);
  }

  lemma {:induction false} InsertTakes(l: Level, ip: nat, target: nat, branchType: nat)
    requires LevelOk(l) && !Has(l, ip)
    ensures var (l', e) := InsertLevel(l, ip, target, branchType); Takes(l, ip, target, branchType, l', e)
  {
    hide SetOf, SetInsert, StampsDistinct, SetTakes;
    var s := SetOf(ip, |l.table|);
    SetInsertTakes(l.table[s], l.ways, ip, target, branchType);
    var (m, e) := SetInsert(l.table[s], l.ways, ip, target, branchType);
    OneSetTakes(l, ip, target, branchType, s, m, e);
  }

  lemma {:induction false} OneSetTakes(l: Level, ip: nat, target: nat, branchType: nat, s: nat, m: Table, e: Evicted)
    requires LevelOk(l) && s == SetOf(ip, |l.table|) && SetTakes(l.table[s], l.ways, ip, target, branchType, m, e)
    ensures Takes(l, ip, target, branchType, l.(table := l.table[s := m]), e)
  {
    hide SetOf, StampsDistinct;
    var l' := l.(table := l.table[s := m]);
    forall x: nat | Has(l, x) && !Has(l', x) ensures SetOf(x, |l.table|) == s && OldestOfFull(l, x) {
    }
  }

  lemma {:induction false} SetInsertNewest(m: Table, ways: nat, ip: nat, target: nat, branchType: nat)
    requires ways > 0
    ensures var m' := SetInsert(m, ways, ip, target, branchType).0;
            forall y | y in m' && y != ip :: m'[y].lru < m'[ip].lru
  {
    hide Oldest;
  }

  // ---------------------------------------------------------------- the cascade

  /** The branch is in its level as it was. */
  ghost predicate Stays(ls: Levels, r: Levels, i: nat, x: nat) {
    At(ls, i, x) && At(r, i, x) && Get(r[i], x) == Get(ls[i], x)
  }

  /** The branch was the oldest of a full set, another branch of that set came into the level, and it is now in the
      next level, unless that is not to be touched. */
  ghost predicate MovedOut(ls: Levels, r: Levels, i: nat, upper: nat, x: nat) {
    && At(ls, i, x) && i < |r| && !At(r, i, x) && OldestOfFull(ls[i], x)
    && (exists y: nat :: At(r, i, y) && !At(ls, i, y) && SetOf(y, |ls[i].table|) == SetOf(x, |ls[i].table|))
    && (x != 0 && i + 1 < upper <= |r| ==>
          JustIn(r[i + 1], x, Get(ls[i], x).target, Get(ls[i], x).branchType))
  }

  /** The branch was in no level of the range; it is `ip` in the first level, or comes from the level before. */
  ghost predicate CameIn(ls: Levels, r: Levels, ip: nat, lower: nat, i: nat, x: nat) {
    if i == lower then x == ip else i > 0 && x != 0 && At(ls, i - 1, x) && !At(r, i - 1, x)
  }

  /** What an insertion does to the levels from `lower` up to `upper`. */
  ghost predicate Cascades(ls: Levels, ip: nat, target: nat, branchType: nat, lower: nat, upper: nat, r: Levels) {
    && |r| == |ls| && upper <= |ls|
    && (lower < upper ==> JustIn(r[lower], ip, target, branchType))
    && (forall i: nat | lower <= i < upper :: SameShape(ls[i], r[i]))
    && (forall i: nat, x: nat | lower <= i < upper && At(ls, i, x) ::
          Stays(ls, r, i, x) || MovedOut(ls, r, i, upper, x))
    && (forall i: nat, x: nat | lower <= i < upper && At(r, i, x) && !At(ls, i, x) :: CameIn(ls, r, ip, lower, i, x))
  }

  /** The branch is in no level of the range, and no branch is in two of them. */
  ghost predicate Free(ls: Levels, ip: nat, lower: nat, upper: nat) {
    && (forall i: nat | lower <= i < upper :: !At(ls, i, ip))
    && (forall x: nat, i: nat, j: nat | lower <= i < upper && lower <= j < upper && At(ls, i, x) && At(ls, j, x) ::
          i == j)
  }

  lemma {:induction false} InsertCascades(ls: Levels, ip: nat, target: nat, branchType: nat, lower: nat, upper: nat)
    requires LevelsOk(ls) && Shaped(ls) && upper <= |ls| && Free(ls, ip, lower, upper)
    ensures Cascades(ls, ip, target, branchType, lower, upper,
                     InsertFrom(ls, ip, target, branchType, lower, upper))
    decreases |ls| - lower
  {
    hide LevelOk, InsertLevel, Takes, Free, Cascades;
    if lower >= upper {
      NothingToDo(ls, ip, target, branchType, lower, upper);
    } else {
      FreeHere(ls, ip, lower, upper);
      InsertTakes(ls[lower], ip, target, branchType);
      var (l, e) := InsertLevel(ls[lower], ip, target, branchType);
      InsertLevelOk(ls[lower], ip, target, branchType);
      var ls1 := ls[lower := l];
      var next := lower + 1;
      var r := InsertFrom(ls, ip, target, branchType, lower, upper);
      TakesShape(ls, lower, ip, target, branchType, l, e);
      if e.ip == 0 {
        EndsHere(ls, ip, target, branchType, lower, upper, l, e);
      } else {
        VictimIsFree(ls, ip, target, branchType, lower, upper, l, e);
        InsertCascades(ls1, e.ip, e.target, e.branchType, next, upper);
        assert r == InsertFrom(ls1, e.ip, e.target, e.branchType, next, upper);
        CascadesOn(ls, ip, target, branchType, lower, next, upper, l, e, r);
      }
    }
  }

  lemma NothingToDo(ls: Levels, ip: nat, target: nat, branchType: nat, lower: nat, upper: nat)
    requires lower >= upper && upper <= |ls|
    ensures Cascades(ls, ip, target, branchType, lower, upper, ls)
  {
  }

  lemma CascadesIfFree(ls: Levels, ip: nat, target: nat, branchType: nat, lower: nat, upper: nat)
    requires LevelsOk(ls) && Shaped(ls) && upper <= |ls|
    ensures Free(ls, ip, lower, upper) ==>
              Cascades(ls, ip, target, branchType, lower, upper,
                       InsertFrom(ls, ip, target, branchType, lower, upper))
  {
    hide LevelOk, InsertFrom, Free, Cascades;
    if Free(ls, ip, lower, upper) {
      InsertCascades(ls, ip, target, branchType, lower, upper);
    }
  }

  lemma FreeHere(ls: Levels, ip: nat, lower: nat, upper: nat)
    requires Free(ls, ip, lower, upper) && lower < upper
    ensures !At(ls, lower, ip)
  {
  }

  lemma TakesShape(ls: Levels, k: nat, ip: nat, target: nat, branchType: nat, l: Level, e: Evicted)
    requires Shaped(ls) && k < |ls| && Takes(ls[k], ip, target, branchType, l, e)
    ensures Shaped(ls[k := l])
  {
  }

  /** An insertion that pushes nothing out changes one level. */
  lemma {:induction false} EndsHere(ls: Levels, ip: nat, target: nat, branchType: nat, lower: nat, upper: nat,
                                    l: Level, e: Evicted)
    requires Shaped(ls) && lower < upper <= |ls| && Takes(ls[lower], ip, target, branchType, l, e) && e.ip == 0
    requires !At(ls, lower, ip)
    ensures Cascades(ls, ip, target, branchType, lower, upper, ls[lower := l])
  {
    hide SetOf, OldestOfFull, JustIn;
    var r := ls[lower := l];
    forall x: nat | At(ls, lower, x) ensures Stays(ls, r, lower, x) || MovedOut(ls, r, lower, upper, x) {
      if !At(r, lower, x) {
        assert At(r, lower, ip) by { InIsIn(l, ip, target, branchType); }
      }
    }
  }

  lemma InIsIn(l: Level, x: nat, target: nat, branchType: nat)
    requires JustIn(l, x, target, branchType)
    ensures |l.table| > 0 && Has(l, x)
  {
  }

  lemma {:induction false} VictimIsFree(ls: Levels, ip: nat, target: nat, branchType: nat, lower: nat, upper: nat,
                                        l: Level, e: Evicted)
    requires lower < upper <= |ls| && Takes(ls[lower], ip, target, branchType, l, e) && e.ip != 0
    requires Free(ls, ip, lower, upper)
    ensures Free(ls[lower := l], e.ip, lower + 1, upper)
  {
    hide SetOf, OldestOfFull, JustIn;
    var ls1 := ls[lower := l];
    assert At(ls, lower, e.ip);
    forall i: nat, x: nat | lower < i < upper ensures At(ls1, i, x) == At(ls, i, x) {
    }
  }

  /** One level before the cascade from the next one. */
  lemma {:induction false} CascadesOn(ls: Levels, ip: nat, target: nat, branchType: nat, lower: nat, next: nat,
                                      upper: nat, l: Level, e: Evicted, r: Levels)
    requires Shaped(ls) && lower < upper <= |ls| && next == lower + 1
    requires Takes(ls[lower], ip, target, branchType, l, e) && e.ip != 0 && !At(ls, lower, ip)
    requires Cascades(ls[lower := l], e.ip, e.target, e.branchType, next, upper, r) && r[lower] == l
    ensures Cascades(ls, ip, target, branchType, lower, upper, r)
  {
    hide SetOf, OldestOfFull, JustIn;
    var ls1 := ls[lower := l];
    InIsIn(l, ip, target, branchType);
    forall x: nat | At(ls, lower, x) ensures Stays(ls, r, lower, x) || MovedOut(ls, r, lower, upper, x) {
      if !At(r, lower, x) {
        assert At(r, lower, ip);
      }
    }
    forall i: nat, x: nat | next <= i < upper && At(ls, i, x)
      ensures Stays(ls, r, i, x) || MovedOut(ls, r, i, upper, x)
    {
      assert At(ls1, i, x);
      if MovedOut(ls1, r, i, upper, x) {
        var y: nat :| At(r, i, y) && !At(ls1, i, y) && SetOf(y, |ls1[i].table|) == SetOf(x, |ls1[i].table|);
        assert !At(ls, i, y);
      }
    }
    forall i: nat, x: nat | lower <= i < upper && At(r, i, x) && !At(ls, i, x)
      ensures CameIn(ls, r, ip, lower, i, x)
    {
      if i > lower {
        assert !At(ls1, i, x);
        assert CameIn(ls1, r, e.ip, next, i, x);
        assert i > next ==> At(ls1, i - 1, x) == At(ls, i - 1, x);
      }
    }
  }

  // ---------------------------------------------------------------- update_btb

  /** Nothing changes but the entry of one branch. */
  ghost predicate Rewritten(ls: Levels, i: nat, ip: nat, e: Entry, r: Levels) {
    && |r| == |ls| && (forall j: nat | j < |ls| :: SameShape(ls[j], r[j]))
    && (forall j: nat, x: nat :: At(r, j, x) <==> At(ls, j, x))
    && (forall j: nat, x: nat | At(ls, j, x) :: Get(r[j], x) == if j == i && x == ip then e else Get(ls[j], x))
  }

  /** A taken hit in the first level: the branch gets the target and a stamp above all of its set. */
  ghost predicate Renewed(ls: Levels, ip: nat, target: nat, r: Levels) {
    && At(ls, 0, ip) && At(r, 0, ip) && JustAbove(r[0], ip)
    && Rewritten(ls, 0, ip, Get(ls[0], ip).(target := target, lru := Get(r[0], ip).lru), r)
  }

  ghost predicate JustAbove(l: Level, x: nat) {
    && |l.table| > 0 && Has(l, x)
    && forall y: nat | Has(l, y) && y != x && SetOf(y, |l.table|) == SetOf(x, |l.table|) ::
         Get(l, y).lru < Get(l, x).lru
  }

  /** A taken hit in an outer level: the branch goes into level 0 and leaves its own, where nothing else changes;
      what the level before pushes out is gone. */
  ghost predicate Promoted(ls: Levels, i: nat, ip: nat, target: nat, r: Levels) {
    && 0 < i && At(ls, i, ip) && |r| == |ls|
    && Cascades(ls, ip, target, Get(ls[i], ip).branchType, 0, i, r)
    && SameShape(ls[i], r[i])
    && (forall x: nat :: At(r, i, x) <==> At(ls, i, x) && x != ip)
    && (forall x: nat | At(r, i, x) :: Get(r[i], x) == Get(ls[i], x))
    && (forall j: nat | i < j < |ls| :: r[j] == ls[j])
  }

  /** What update_btb does, case by case. */
  ghost predicate Updated(ls: Levels, ip: nat, target: nat, taken: bool, branchType: nat, r: Levels) {
    && ((forall i: nat :: !At(ls, i, ip)) ==>
          if taken && target != 0 then Cascades(ls, ip, target, branchType, 0, |ls|, r) else r == ls)
    && (forall i: nat | At(ls, i, ip) ::
          if !taken then Rewritten(ls, i, ip, Get(ls[i], ip).(alwaysTaken := false), r)
          else if i == 0 then Renewed(ls, ip, target, r)
          else Promoted(ls, i, ip, target, r))
  }

  lemma {:induction false} UpdateBtbExactly(ls: Levels, ip: nat, target: nat, taken: bool, branchType: nat)
    requires LevelsOk(ls) && Shaped(ls) && Exclusive(ls, {})
    ensures Updated(ls, ip, target, taken, branchType, UpdateBtb(ls, ip, target, taken, branchType))
  {
    hide LevelOk, Update, InsertFrom, SetEntry, Cascades, Rewritten, Renewed, Promoted, Exclusive;
    var k := FindLevel(ls, ip, 0);
    NoneBelow(ls, ip);
    if k == |ls| {
      AllFree(ls, ip);
      if taken && target != 0 {
        InsertCascades(ls, ip, target, branchType, 0, |ls|);
      }
    } else {
      assert At(ls, k, ip);
      OnlyThere(ls, ip, k);
      var e := Get(ls[k], ip);
      if !taken {
        WrittenIs(ls, k, ip, e.(alwaysTaken := false));
      } else {
        TakenHit(ls, ip, target, k);
      }
    }
  }

  lemma AllFree(ls: Levels, ip: nat)
    requires Exclusive(ls, {}) && forall i: nat :: !At(ls, i, ip)
    ensures Free(ls, ip, 0, |ls|)
  {
  }

  lemma OnlyThere(ls: Levels, ip: nat, k: nat)
    requires Exclusive(ls, {}) && At(ls, k, ip)
    ensures forall i: nat | At(ls, i, ip) :: i == k
  {
  }

  lemma WrittenIs(ls: Levels, i: nat, ip: nat, e: Entry)
    requires Shaped(ls) && At(ls, i, ip)
    ensures Rewritten(ls, i, ip, e, ls[i := SetEntry(ls[i], ip, e)])
  {
    hide SetOf;
  }

  lemma {:induction false} TakenHit(ls: Levels, ip: nat, target: nat, i: nat)
    requires LevelsOk(ls) && Shaped(ls) && Exclusive(ls, {}) && i == FindLevel(ls, ip, 0) < |ls|
    ensures var ls1 := ls[i := SetEntry(ls[i], ip, Get(ls[i], ip).(target := target))];
            && Shaped(ls1) && FindLevel(ls1, ip, 0) == i
            && if i == 0 then Renewed(ls, ip, target, Update(ls1, ip)) else Promoted(ls, i, ip, target, Update(ls1, ip))
  {
    hide LevelOk, InsertFrom, Cascades, Rewritten, Renewed, Promoted, Exclusive, FindLevel;
    var e := Get(ls[i], ip).(target := target);
    var ls1 := ls[i := SetEntry(ls[i], ip, e)];
    WrittenIs(ls, i, ip, e);
    WrittenShaped(ls, i, ip, e);
    FoundStill(ls, ls1, ip, i);
    if i == 0 {
      RenewedIs(ls, ip, target);
    } else {
      PromotedIs(ls, ip, target, i);
    }
  }

  lemma WrittenShaped(ls: Levels, i: nat, ip: nat, e: Entry)
    requires Shaped(ls) && At(ls, i, ip)
    ensures var ls1 := ls[i := SetEntry(ls[i], ip, e)];
            Shaped(ls1) && At(ls1, i, ip) && Get(ls1[i], ip) == e
  {
    hide SetOf;
  }

  lemma {:induction false} RenewedIs(ls: Levels, ip: nat, target: nat)
    requires Shaped(ls) && At(ls, 0, ip)
    ensures var ls1 := ls[0 := SetEntry(ls[0], ip, Get(ls[0], ip).(target := target))];
            At(ls1, 0, ip) && Renewed(ls, ip, target, ls1[0 := UpdateLevel(ls1[0], ip)])
  {
    hide SetOf;
  }

  lemma {:induction false} PromotedIs(ls: Levels, ip: nat, target: nat, i: nat)
    requires LevelsOk(ls) && Shaped(ls) && Exclusive(ls, {}) && 0 < i && At(ls, i, ip)
    ensures var e := Get(ls[i], ip).(target := target);
            var ls1 := ls[i := SetEntry(ls[i], ip, e)];
            && Shaped(ls1)
            && var ls2 := InsertFrom(ls1, ip, target, e.branchType, 0, i);
            Promoted(ls, i, ip, target, ls2[i := RemoveLevel(ls2[i], ip)])
  {
    hide LevelOk, InsertFrom, Cascades, SetOf;
    var e := Get(ls[i], ip).(target := target);
    var ls1 := ls[i := SetEntry(ls[i], ip, e)];
    WrittenShaped(ls, i, ip, e);
    WrittenOk(ls, i, ip, e);
    FreeBelow(ls, ls1, ip, i);
    InsertCascades(ls1, ip, target, e.branchType, 0, i);
    var ls2 := InsertFrom(ls1, ip, target, e.branchType, 0, i);
    var r := ls2[i := RemoveLevel(ls2[i], ip)];
    SameBelow(ls1, ls, ls2, r, ip, target, e.branchType, i);
  }

  lemma WrittenOk(ls: Levels, i: nat, ip: nat, e: Entry)
    requires LevelsOk(ls) && Shaped(ls) && At(ls, i, ip) && e.lru == Get(ls[i], ip).lru
    ensures LevelsOk(ls[i := SetEntry(ls[i], ip, e)])
  {
    hide LevelOk, SetEntry;
    SetEntryOk(ls[i], ip, e);
  }

  lemma FreeBelow(ls: Levels, ls1: Levels, ip: nat, i: nat)
    requires Exclusive(ls, {}) && At(ls, i, ip) && |ls1| == |ls| && forall j: nat | j < i :: ls1[j] == ls[j]
    ensures Free(ls1, ip, 0, i)
  {
    forall j: nat, x: nat | j < i ensures At(ls1, j, x) == At(ls, j, x) {
    }
  }

  /** The cascade looks at its own levels only. */
  lemma {:induction false} SameBelow(ls: Levels, ls1: Levels, r: Levels, r1: Levels, ip: nat, target: nat,
                                     branchType: nat, upper: nat)
    requires Cascades(ls, ip, target, branchType, 0, upper, r) && |ls1| == |ls| && |r1| == |r|
    requires forall j: nat | j < upper :: ls1[j] == ls[j] && r1[j] == r[j]
    ensures Cascades(ls1, ip, target, branchType, 0, upper, r1)
  {
    hide SetOf, OldestOfFull, JustIn;
    forall j: nat, x: nat | j < upper ensures At(ls1, j, x) == At(ls, j, x) && At(r1, j, x) == At(r, j, x) {
    }
    forall i: nat, x: nat | i < upper && At(ls1, i, x)
      ensures Stays(ls1, r1, i, x) || MovedOut(ls1, r1, i, upper, x)
    {
      assert Stays(ls, r, i, x) || MovedOut(ls, r, i, upper, x);
      if MovedOut(ls, r, i, upper, x) {
        var y: nat :| At(r, i, y) && !At(ls, i, y) && SetOf(y, |ls[i].table|) == SetOf(x, |ls[i].table|);
        assert At(r1, i, y) && !At(ls1, i, y);
      }
    }
    forall i: nat, x: nat | i < upper && At(r1, i, x) && !At(ls1, i, x) ensures CameIn(ls1, r1, ip, 0, i, x) {
      assert CameIn(ls, r, ip, 0, i, x);
      if i > 0 {
        var before: nat := i - 1;
        assert At(ls1, before, x) == At(ls, before, x) && At(r1, before, x) == At(r, before, x);
      }
    }
  }

  /** A branch is lost only as the oldest of a full set: out of the last level on a taken miss, or out of the level
      before the one that a promotion takes its branch from, although a way is free there then. */
  lemma {:induction false} LostOnlyThere(ls: Levels, ip: nat, target: nat, taken: bool, branchType: nat, r: Levels,
                                         i: nat, x: nat)
    requires Shaped(ls) && Updated(ls, ip, target, taken, branchType, r) && At(ls, i, x) && x != 0
    ensures (exists j: nat :: At(r, j, x))
         || (taken && OldestOfFull(ls[i], x)
             && if i + 1 == |ls| then target != 0 && forall h: nat :: !At(ls, h, ip) else At(ls, i + 1, ip))
  {
    hide SetOf, OldestOfFull;
    hide Cascades, Rewritten, Renewed, Promoted, Get;
    if h: nat :| At(ls, h, ip) {
      if !taken {
        KeptByWrite(ls, h, ip, Get(ls[h], ip).(alwaysTaken := false), r, i, x);
      } else if h == 0 {
        KeptByRenewal(ls, ip, target, r, i, x);
      } else {
        KeptByPromotion(ls, h, ip, target, r, i, x);
      }
    } else if taken && target != 0 {
      MovesOn(ls, ip, target, branchType, |ls|, r, i, x);
    }
  }

  lemma KeptByWrite(ls: Levels, h: nat, ip: nat, e: Entry, r: Levels, i: nat, x: nat)
    requires Rewritten(ls, h, ip, e, r) && At(ls, i, x)
    ensures At(r, i, x)
  {
  }

  lemma KeptByRenewal(ls: Levels, ip: nat, target: nat, r: Levels, i: nat, x: nat)
    requires Renewed(ls, ip, target, r) && At(ls, i, x)
    ensures At(r, i, x)
  {
    hide Has, Get;
  }

  lemma KeptByPromotion(ls: Levels, h: nat, ip: nat, target: nat, r: Levels, i: nat, x: nat)
    requires Promoted(ls, h, ip, target, r) && At(ls, i, x) && x != 0
    ensures (exists j: nat :: At(r, j, x)) || (i + 1 == h && OldestOfFull(ls[i], x))
  {
    hide SetOf, OldestOfFull, Cascades;
    if x == ip {
      InsertedIn(ls, ip, target, Get(ls[h], ip).branchType, h, r);
    } else if i < h {
      MovesOn(ls, ip, target, Get(ls[h], ip).branchType, h, r, i, x);
    } else {
      assert At(r, i, x);
    }
  }

  lemma InsertedIn(ls: Levels, ip: nat, target: nat, branchType: nat, upper: nat, r: Levels)
    requires Cascades(ls, ip, target, branchType, 0, upper, r) && upper > 0
    ensures At(r, 0, ip)
  {
    hide SetOf, OldestOfFull;
  }

  lemma {:induction false} MovesOn(ls: Levels, ip: nat, target: nat, branchType: nat, upper: nat, r: Levels, i: nat,
                                   x: nat)
    requires Cascades(ls, ip, target, branchType, 0, upper, r) && At(ls, i, x) && i < upper && x != 0
    ensures At(r, i, x) || (if i + 1 < upper then At(r, i + 1, x) else OldestOfFull(ls[i], x))
  {
    hide SetOf, OldestOfFull;
  }

  /** A branch other than the updated one is lost exactly when its level pushes it out and that is the last level, or
      the one before the level that a promotion takes its branch from. */
  lemma {:induction false} LostExactly(ls: Levels, ip: nat, target: nat, taken: bool, branchType: nat, r: Levels,
                                       i: nat, x: nat)
    requires Shaped(ls) && Exclusive(ls, {}) && Updated(ls, ip, target, taken, branchType, r)
    requires At(ls, i, x) && x != 0 && x != ip
    ensures (forall j: nat :: !At(r, j, x)) <==> !At(r, i, x) && (i + 1 == |ls| || At(ls, i + 1, ip))
  {
    hide SetOf, OldestOfFull, Cascades, Rewritten, Renewed, Promoted, Get;
    LostOnlyThere(ls, ip, target, taken, branchType, r, i, x);
    if !At(r, i, x) && (i + 1 == |ls| || At(ls, i + 1, ip)) {
      if h: nat :| At(ls, h, ip) {
        if !taken {
          KeptByWrite(ls, h, ip, Get(ls[h], ip).(alwaysTaken := false), r, i, x);
        } else if h == 0 {
          KeptByRenewal(ls, ip, target, r, i, x);
        } else {
          GoneByPromotion(ls, h, ip, target, r, i, x);
        }
      } else if taken && target != 0 {
        OneLevelOn(ls, ip, target, branchType, |ls|, r, i, x);
      }
    }
  }

  lemma GoneByPromotion(ls: Levels, h: nat, ip: nat, target: nat, r: Levels, i: nat, x: nat)
    requires Exclusive(ls, {}) && Promoted(ls, h, ip, target, r) && At(ls, i, x) && x != 0 && x != ip
    requires !At(r, i, x) && (i + 1 == |ls| || At(ls, i + 1, ip))
    ensures forall j: nat :: !At(r, j, x)
  {
    hide SetOf, OldestOfFull, Cascades;
    OnlyThere(ls, ip, h);
    OnlyThere(ls, x, i);
    if i < h {
      OneLevelOn(ls, ip, target, Get(ls[h], ip).branchType, h, r, i, x);
    }
    forall j: nat | j >= h ensures !At(r, j, x) {
      assert At(r, j, x) ==> At(ls, j, x);
    }
  }

  /** A branch pushed out of its level is in no other level of the range but the next. */
  lemma {:induction false} OneLevelOn(ls: Levels, ip: nat, target: nat, branchType: nat, upper: nat, r: Levels,
                                      i: nat, x: nat)
    requires Exclusive(ls, {}) && Cascades(ls, ip, target, branchType, 0, upper, r)
    requires At(ls, i, x) && x != ip && i < upper && !At(r, i, x)
    ensures |r| == |ls| && forall j: nat | j < upper && At(r, j, x) :: j == i + 1
  {
    hide SetOf, OldestOfFull;
    OnlyThere(ls, x, i);
    forall j: nat | j < upper && At(r, j, x) ensures j == i + 1 {
      assert !At(ls, j, x) && CameIn(ls, r, ip, 0, j, x);
    }
  }

  /** A level of one way that holds one branch. */
  function Single(latency: nat, x: nat, target: nat): Level {
    Level(latency, 1, [map[x := Entry(target, 0, true, 1)]])
  }

  lemma SingleIs(latency: nat, x: nat, target: nat)
    ensures var l := Single(latency, x, target);
            && LevelOk(l) && |l.table| == 1 && l.ways == 1
            && (forall y: nat :: Has(l, y) <==> y == x) && Get(l, x) == Entry(target, 0, true, 1)
  {
  }

  const TWO: Levels := [Single(1, 4, 100), Single(2, 8, 200)]

  lemma TwoLevels()
    ensures Shaped(TWO) && Inv(TWO, map[4 := 100, 8 := 200], {})
    ensures Get(TWO[1], 8).branchType == 0 && TWO[0].ways == 1 && |TWO[0].table| == 1
    ensures forall i: nat, x: nat :: At(TWO, i, x) <==> (i == 0 && x == 4) || (i == 1 && x == 8)
  {
    hide LevelOk, Single, Has, Get;
    SingleIs(1, 4, 100);
    SingleIs(2, 8, 200);
    assert TWO[0] == Single(1, 4, 100) && TWO[1] == Single(2, 8, 200);
  }

  /** A promotion that loses a branch: a taken hit in the second level brings its branch into the first, and the
      branch that was there is in no level, although the second is empty then. */
  lemma {:induction false} PromotionLoses()
    ensures Shaped(TWO)
    ensures var r := UpdateBtb(TWO, 8, 200, true, 0);
            forall j: nat, x: nat :: At(r, j, x) <==> j == 0 && x == 8
  {
    hide UpdateBtb, LevelOk, Inv, Cascades, SetOf, Single;
    TwoLevels();
    OkOf(TWO, map[4 := 100, 8 := 200], {});
    UpdateBtbExactly(TWO, 8, 200, true, 0);
    UpdateBtbKeeps(TWO, 8, 200, true, 0, map[4 := 100, 8 := 200]);
    var r := UpdateBtb(TWO, 8, 200, true, 0);
    OkOf(r, map[4 := 100, 8 := 200][8 := 200], {});
    assert At(TWO, 1, 8);
    assert Promoted(TWO, 1, 8, 200, r);
    InsertedIn(TWO, 8, 200, 0, 1, r);
    OneWayLeft(TWO, 8, 200, 0, r);
    forall j: nat, x: nat ensures At(r, j, x) <==> j == 0 && x == 8 {
      if j == 1 {
        assert At(r, 1, x) <==> At(TWO, 1, x) && x != 8;
      }
    }
  }

  /** A set of one way holds one branch. */
  lemma OneWayLeft(ls: Levels, ip: nat, target: nat, branchType: nat, r: Levels)
    requires Cascades(ls, ip, target, branchType, 0, 1, r) && |r| > 0 && LevelOk(r[0]) && At(r, 0, ip)
    requires ls[0].ways == 1 && |ls[0].table| == 1
    ensures forall x: nat | At(r, 0, x) :: x == ip
  {
    hide OldestOfFull, JustIn;
    var m := r[0].table[0];
    forall x: nat | At(r, 0, x) ensures x == ip {
      assert x in m && ip in m && |m| <= 1;
      if x != ip {
        TwoIn(m, ip, x);
      }
    }
  }

  lemma TwoIn(m: Table, x: nat, y: nat)
    requires x in m && y in m && x != y
    ensures |m| >= 2
  {
    RemovedSize(m, x);
    assert y in m - {x};
  }

  // ---------------------------------------------------------------- the alwaysTaken flag

  /** A branch that stays in its level keeps the flag unless it is the one updated and was not taken; one that comes
      in has it. */
  lemma {:induction false} FlagStep(ls: Levels, ip: nat, target: nat, taken: bool, branchType: nat, r: Levels, i: nat,
                                    x: nat)
    requires Updated(ls, ip, target, taken, branchType, r) && At(r, i, x)
    ensures At(ls, i, x) ==> Get(r[i], x).alwaysTaken == (Get(ls[i], x).alwaysTaken && (x != ip || taken))
    ensures !At(ls, i, x) ==> Get(r[i], x).alwaysTaken
  {
    hide SetOf, OldestOfFull;
    if h: nat :| At(ls, h, ip) {
      if taken && h > 0 && i < h {
        FlagCascade(ls, ip, target, Get(ls[h], ip).branchType, h, r, i, x);
      }
    } else if taken && target != 0 {
      FlagCascade(ls, ip, target, branchType, |ls|, r, i, x);
    }
  }

  lemma {:induction false} FlagCascade(ls: Levels, ip: nat, target: nat, branchType: nat, upper: nat, r: Levels,
                                       i: nat, x: nat)
    requires Cascades(ls, ip, target, branchType, 0, upper, r) && At(r, i, x) && i < upper
    ensures if At(ls, i, x) then Get(r[i], x).alwaysTaken == Get(ls[i], x).alwaysTaken else Get(r[i], x).alwaysTaken
  {
    hide SetOf, OldestOfFull;
    if !At(ls, i, x) && i > 0 {
      var before: nat := i - 1;
      assert CameIn(ls, r, ip, 0, i, x);
      assert MovedOut(ls, r, before, upper, x);
    }
  }

  /** Since its access `k` the branch has been in level `i` without a break, and not before. */
  ghost predicate InSince(ls: Levels, branches: seq<Branch>, i: nat, x: nat, k: nat)
    requires Shaped(ls)
  {
    && k < |branches| && !At(Run(ls, branches[..k]), i, x)
    && forall n: nat | k < n <= |branches| :: At(Run(ls, branches[..n]), i, x)
  }

  /** A stored branch has the flag exactly when it was taken whenever it was seen since it came into its level. */
  lemma {:induction false} AlwaysTakenExactly(ls: Levels, branches: seq<Branch>, i: nat, x: nat) returns (k: nat)
    requires Shaped(ls) && AllEmpty(ls) && At(Run(ls, branches), i, x)
    ensures InSince(ls, branches, i, x, k)
    ensures Get(Run(ls, branches)[i], x).alwaysTaken <==>
              forall n | k < n < |branches| && branches[n].ip == x :: branches[n].taken
    decreases |branches|
  {
    hide UpdateBtb, Updated, SetOf;
    if branches == [] {
      assert false;
    } else {
      var n := |branches| - 1;
      var b := branches[n];
      var before := Run(ls, branches[..n]);
      RunUpdated(ls, branches);
      FlagStep(before, b.ip, b.target, b.taken, b.branchType, Run(ls, branches), i, x);
      if At(before, i, x) {
        k := AlwaysTakenExactly(ls, branches[..n], i, x);
        InStill(ls, branches, i, x, k, n);
        assert forall m | 0 <= m < n :: branches[..n][m] == branches[m];
      } else {
        k := n;
        assert branches[..|branches|] == branches;
      }
    }
  }

  lemma InStill(ls: Levels, branches: seq<Branch>, i: nat, x: nat, k: nat, n: nat)
    requires Shaped(ls) && n == |branches| - 1 && InSince(ls, branches[..n], i, x, k)
    requires At(Run(ls, branches), i, x)
    ensures InSince(ls, branches, i, x, k)
  {
    hide Run;
    forall m: nat | k < m <= |branches| ensures At(Run(ls, branches[..m]), i, x) {
      if m == |branches| {
        assert branches[..m] == branches;
      } else {
        assert branches[..n][..m] == branches[..m];
      }
    }
    assert branches[..n][..k] == branches[..k];
  }

  lemma {:induction false} RunUpdated(ls: Levels, branches: seq<Branch>)
    requires Shaped(ls) && AllEmpty(ls) && branches != []
    ensures var b := branches[|branches| - 1];
            Updated(Run(ls, branches[..|branches| - 1]), b.ip, b.target, b.taken, b.branchType, Run(ls, branches))
  {
    hide UpdateBtb, Updated, LevelOk, Exclusive;
    var n := |branches| - 1;
    var b := branches[n];
    RunAgrees(ls, branches[..n]);
    UpdateBtbExactly(Run(ls, branches[..n]), b.ip, b.target, b.taken, b.branchType);
  }
}
