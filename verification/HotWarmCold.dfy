/** Class HotWarmCold of btb/hot_warm_cold_btb.template/hot_warm_cold_btb.cc with LRU inside a class and no
    outcome prediction, for one cpu; random numbers and hit ratios come as parameters.
 */
module HotWarmCold {
  import opened Options
  import opened Recency
  import opened Btb
  import opened Thermometer

  lemma PlaceBounded(cfg: Config, ratio: Ratio, m: Table, ip: nat, x: nat)
    ensures PlaceIn(cfg, ratio, m, ip, x).In? ==> PlaceIn(cfg, ratio, m, ip, x).class_ <= |cfg.boundaries|
  {
  }

  class Buffer {
    const ways: nat
    const cfg: Config
    var btb: seq<Table>
    /** The recency list of each set. */
    ghost var lists: seq<seq<nat>>

    ghost predicate SetOk(s: nat)
      requires s < |btb| && s < |lists|
      reads this
    {
      |btb[s]| <= ways && 0 !in btb[s] && Listed(btb[s], lists[s])
    }

    ghost predicate Valid()
      reads this
    {
      ways > 0 && |btb| == |lists| > 0 && forall s: nat | s < |btb| :: SetOk(s)
    }

    constructor (sets: nat, ways: nat, cfg: Config)
      requires sets > 0 && ways > 0
      ensures Valid() && this.ways == ways && this.cfg == cfg && btb == seq(sets, _ => map[])
    {
      this.ways, this.cfg := ways, cfg;
      btb := seq(sets, _ => map[]);
      lists := seq(sets, _ => []);
    }

    method FindBtbEntry(ip: nat) returns (found: bool)
      requires Valid()
      ensures found == (ip in btb[SetOf(ip, |btb|)])
    {
      var s := SetOf(ip, |btb|);
      found := ip in btb[s];
    }

    /** update_lru(): one more than the largest stamp of the set. */
    method UpdateLru(ip: nat)
      requires |btb| > 0 && ip in btb[SetOf(ip, |btb|)]
      modifies this`btb
      ensures btb == old(btb[SetOf(ip, |btb|) := Stamped(btb[SetOf(ip, |btb|)], ip)])
    {
      var s := SetOf(ip, |btb|);
      var m := btb[s];
      var max := 0;
      var left := m.Keys;
      while left != {}
        invariant left <= m.Keys && btb == old(btb)
        invariant max <= MaxStamp(m)
        invariant forall x | x in m && x !in left :: m[x].lru <= max
        decreases left
      {
        var a :| a in left;
        if max < m[a].lru {
          max := m[a].lru;
        }
        left := left - {a};
      }
      var stamped: Table := m[ip := m[ip].(lru := max + 1)];
      assert max == MaxStamp(m);
      btb := btb[s := stamped];
    }

    /** A hit: the branch becomes the most recent one of its set. */
    method Touched(ip: nat)
      requires Valid() && ip in btb[SetOf(ip, |btb|)]
      modifies this
      ensures Valid()
      ensures btb == old(btb[SetOf(ip, |btb|) := Stamped(btb[SetOf(ip, |btb|)], ip)])
      ensures lists == old(lists[SetOf(ip, |btb|) := Touch(lists[SetOf(ip, |btb|)], ip)])
    {
      hide Listed, SetOf, Stamped, Touch;
      var s := SetOf(ip, |btb|);
      assert SetOk(s);
      UpdateListed(btb[s], lists[s], ip);
      SameKeysSize(btb[s], Stamped(btb[s], ip));
      assert 0 !in Stamped(btb[s], ip).Keys;
      ghost var was := btb;
      UpdateLru(ip);
      lists := lists[s := Touch(lists[s], ip)];
      forall t: nat | t < |btb| ensures SetOk(t) {
        assert t != s ==> old(SetOk(t)) && btb[t] == was[t];
      }
    }

    /** find_lru_min(): a random candidate, and the least recent resident candidate if that one is resident. */
    method FindLruMin(s: nat, candidates: seq<nat>, random: nat) returns (v: nat)
      requires s < |btb| && candidates != []
      ensures v in candidates
      ensures v in btb[s] ==> forall x | x in candidates && x in btb[s] :: btb[s][v].lru <= btb[s][x].lru
    {
      var randomIndex := random % |candidates|;
      if candidates[randomIndex] !in btb[s] {
        return candidates[randomIndex];
      }
      var min: Option<nat> := None;
      v := 0;
      var i := 0;
      while i < |candidates|
        invariant 0 <= i <= |candidates|
        invariant min.Some? ==> v in candidates[..i] && v in btb[s] && btb[s][v].lru == min.value
        invariant forall k | 0 <= k < i && candidates[k] in btb[s]
          :: (min.Some? && min.value <= btb[s][candidates[k]].lru)
      {
        var c := candidates[i];
        if c in btb[s] && (min.None? || min.value > btb[s][c].lru) {
          min := Some(btb[s][c].lru);
          v := c;
        }
        i := i + 1;
      }
      assert candidates[..i] == candidates;
    }

    /** add_to_candidate(), on vectors of candidates; false for a branch that does not matter. */
    method AddToCandidate(ip: nat, candidate: seq<seq<nat>>, raised: bool, ratio: Ratio)
      returns (cares: bool, candidate': seq<seq<nat>>)
      requires |candidate| == |cfg.boundaries| + 1
      ensures |candidate'| == |candidate|
      ensures cares <==> !PlaceOf(cfg.boundaries, ratio(ip), raised).DontCare?
      ensures forall c | 0 <= c < |candidate|
        :: (candidate'[c] == candidate[c] + (if PlaceOf(cfg.boundaries, ratio(ip), raised) == In(c) then [ip] else []))
    {
      var hitAccess := ratio(ip);
      candidate' := candidate;
      if hitAccess < 0.0 {
        return false, candidate;
      }
      var n := |cfg.boundaries|;
      var i := 0;
      while i < n
        invariant 0 <= i <= n && i <= ClassOf(cfg.boundaries, hitAccess)
      {
        if hitAccess <= cfg.boundaries[i] {
          assert ClassOf(cfg.boundaries, hitAccess) == i;
          if raised && i + 1 == n {
            return true, candidate[i + 1 := candidate[i + 1] + [ip]];
          }
          return true, candidate[i := candidate[i] + [ip]];
        }
        i := i + 1;
      }
      if raised {
        return true, candidate;
      }
      return true, candidate[n := candidate[n] + [ip]];
    }

    /** The vectors hold the branches of `seen`, each in its place. */
    ghost predicate Sorted(candidate: seq<seq<nat>>, dontCare: seq<nat>, ratio: Ratio, m: Table, ip: nat,
                           seen: set<nat>) {
      && |candidate| == |cfg.boundaries| + 1
      && (forall c: nat, x: nat | c < |candidate|
            :: (x in candidate[c] <==> x in seen && PlaceIn(cfg, ratio, m, ip, x) == In(c)))
      && (forall x: nat :: x in dontCare <==> x in seen && PlaceIn(cfg, ratio, m, ip, x) == DontCare)
    }

    lemma SortOne(candidate: seq<seq<nat>>, dontCare: seq<nat>, ratio: Ratio, m: Table, ip: nat, seen: set<nat>,
                  x: nat, candidate': seq<seq<nat>>)
      requires Sorted(candidate, dontCare, ratio, m, ip, seen) && |candidate'| == |candidate| && x !in seen
      requires forall c | 0 <= c < |candidate|
        :: (candidate'[c] == candidate[c] + (if PlaceIn(cfg, ratio, m, ip, x) == In(c) then [x] else []))
      ensures Sorted(candidate', if PlaceIn(cfg, ratio, m, ip, x).DontCare? then dontCare + [x] else dontCare,
                     ratio, m, ip, seen + {x})
    {
      hide PlaceIn;
    }

    /** Sort the residents, and the incoming branch if it competes, into classes. */
    method SortCandidates(ip: nat, s: nat, ratio: Ratio) returns (candidate: seq<seq<nat>>, dontCare: seq<nat>)
      requires s < |btb| && ip !in btb[s]
      ensures Sorted(candidate, dontCare, ratio, btb[s], ip, btb[s].Keys + {ip})
    {
      hide PlaceOf;
      var m := btb[s];
      candidate := seq(|cfg.boundaries| + 1, _ => []);
      dontCare := [];
      var left := m.Keys;
      while left != {}
        invariant left <= m.Keys && Sorted(candidate, dontCare, ratio, m, ip, m.Keys - left)
        decreases left
      {
        var x :| x in left;
        var cares, next := AddToCandidate(x, candidate, false, ratio);
        SortOne(candidate, dontCare, ratio, m, ip, m.Keys - left, x, next);
        assert m.Keys - left + {x} == m.Keys - (left - {x});
        candidate := next;
        if !cares {
          dontCare := dontCare + [x];
        }
        left := left - {x};
      }
      if cfg.keep {
        var cares, next := AddToCandidate(ip, candidate, cfg.hotter, ratio);
        SortOne(candidate, dontCare, ratio, m, ip, m.Keys - left, ip, next);
        candidate := next;
        if !cares {
          dontCare := dontCare + [ip];
        }
      } else {
        SortOne(candidate, dontCare, ratio, m, ip, m.Keys - left, ip, candidate);
      }
      assert m.Keys - left + {ip} == m.Keys + {ip};
    }

    /** choose_victim_general() */
    method ChooseVictimGeneral(ip: nat, s: nat, ratio: Ratio, random: nat) returns (v: nat)
      requires s < |btb| && ip !in btb[s] && btb[s] != map[]
      ensures IsVictim(cfg, ratio, btb[s], ip, v)
    {
      ghost var m := btb[s];
      var candidate, dontCare := SortCandidates(ip, s, ratio);
      var i := 0;
      while i < |candidate|
        invariant 0 <= i <= |candidate| && forall c | 0 <= c < i :: candidate[c] == []
      {
        if candidate[i] != [] {
          FirstIsColdest(candidate, dontCare, ratio, m, ip, i);
          EligibleList(candidate, dontCare, ratio, m, ip, i);
          assert forall x | x in dontCare :: x !in candidate[i];
          v := FindLruMin(s, candidate[i] + dontCare, random);
          return;
        }
        i := i + 1;
      }
      NoClass(candidate, dontCare, ratio, m, ip);
      assert dontCare != [];
      v := FindLruMin(s, dontCare, random);
    }

    lemma {:induction false} FirstIsColdest(candidate: seq<seq<nat>>, dontCare: seq<nat>, ratio: Ratio, m: Table,
                                            ip: nat, i: nat)
      requires Sorted(candidate, dontCare, ratio, m, ip, m.Keys + {ip}) && i < |candidate| && candidate[i] != []
      requires forall c | 0 <= c < i :: candidate[c] == []
      ensures Coldest(cfg, ratio, m, ip, i)
    {
      assert candidate[i][0] in candidate[i];
      assert PlaceIn(cfg, ratio, m, ip, candidate[i][0]) == In(i);
      forall d: nat | Inhabited(cfg, ratio, m, ip, d) ensures i <= d {
        var x: nat :| PlaceIn(cfg, ratio, m, ip, x) == In(d);
        assert d < |candidate| ==> x in candidate[d];
      }
    }

    lemma {:induction false} EligibleList(candidate: seq<seq<nat>>, dontCare: seq<nat>, ratio: Ratio, m: Table,
                                          ip: nat, i: nat)
      requires Sorted(candidate, dontCare, ratio, m, ip, m.Keys + {ip}) && i < |candidate|
      requires Coldest(cfg, ratio, m, ip, i)
      ensures forall x: nat :: Eligible(cfg, ratio, m, ip, x) <==> x in candidate[i] + dontCare
    {
      forall x: nat ensures Eligible(cfg, ratio, m, ip, x) <==> x in candidate[i] + dontCare {
        assert PlaceIn(cfg, ratio, m, ip, x) != Nowhere ==> x in m.Keys + {ip};
      }
    }

    /** Without any class, the set holds only branches that do not matter. */
    lemma {:induction false} NoClass(candidate: seq<seq<nat>>, dontCare: seq<nat>, ratio: Ratio, m: Table, ip: nat)
      requires Sorted(candidate, dontCare, ratio, m, ip, m.Keys + {ip}) && m != map[] && ip !in m
      requires forall c | 0 <= c < |candidate| :: candidate[c] == []
      ensures dontCare != [] && forall x: nat :: Eligible(cfg, ratio, m, ip, x) <==> x in dontCare
    {
      forall x: nat | x in m.Keys + {ip} ensures !PlaceIn(cfg, ratio, m, ip, x).In? {
        assert forall c: nat | c < |candidate| :: x !in candidate[c];
        PlaceBounded(cfg, ratio, m, ip, x);
      }
      var y :| y in m;
      assert PlaceIn(cfg, ratio, m, ip, y) == DontCare;
      forall x: nat ensures Eligible(cfg, ratio, m, ip, x) <==> x in dontCare {
        assert PlaceIn(cfg, ratio, m, ip, x) != Nowhere ==> x in m.Keys + {ip};
      }
    }

    /** insert() of a branch that is not in the buffer; the result is the victim of a full set. */
    method Insert(ip: nat, target: nat, branchType: nat, ratio: Ratio, random: nat) returns (victim: nat)
      requires Valid() && ip != 0 && ip !in btb[SetOf(ip, |btb|)]
      modifies this
      ensures Valid() && |btb| == old(|btb|)
      ensures var s := SetOf(ip, old(|btb|)); var m := old(btb)[s];
              && (|m| >= ways ==> victim != 0 && IsVictim(cfg, ratio, m, ip, victim))
              && btb == old(btb)[s := Inserted(m, ways, ip, target, branchType, victim)]
              && lists == old(lists)[s := InsertedList(old(lists)[s], |m| >= ways, ip, victim)]
    {
      hide SetOf, IsVictim, Listed, Stamped, InsertedList;
      var s := SetOf(ip, |btb|);
      ghost var before, m, q := btb, btb[s], lists[s];
      assert SetOk(s);
      victim := 0;
      var full := |btb[s]| >= ways;
      if full {
        assert m != map[];
        victim := ChooseVictimGeneral(ip, s, ratio, random);
      }
      InsertKeeps(cfg, ratio, m, q, ways, ip, target, branchType, victim);
      hide Inserted;
      InsertedIs(m, ways, ip, target, branchType, victim);
      if full {
        assert victim != 0;
      }
      if full && victim == ip {
        ListSame(q, ip);
        return;
      }
      if full {
        var fewer: Table := btb[s] - {victim};
        btb := btb[s := fewer];
        RemovedSize(m, victim);
      }
      assert |btb[s]| < ways;
      Emplace(ip, target, branchType);
      assert btb == before[s := Inserted(m, ways, ip, target, branchType, victim)];
      lists := lists[s := InsertedList(q, full, ip, victim)];
      forall t: nat | t < |btb| ensures SetOk(t) {
        assert t != s ==> old(SetOk(t)) && btb[t] == before[t];
      }
    }

    /** emplace() and update_lru() */
    method Emplace(ip: nat, target: nat, branchType: nat)
      requires |btb| > 0 && ip !in btb[SetOf(ip, |btb|)]
      modifies this`btb
      ensures btb == old(btb[SetOf(ip, |btb|) :=
                               Stamped(btb[SetOf(ip, |btb|)][ip := Entry(target, branchType, true, 0)], ip)])
    {
      hide SetOf, Stamped;
      var s := SetOf(ip, |btb|);
      ghost var before := btb;
      var more: Table := btb[s][ip := Entry(target, branchType, true, 0)];
      btb := btb[s := more];
      UpdateLru(ip);
      assert btb == before[s := Stamped(more, ip)];
    }
  }

  lemma InsertedIs(m: Table, ways: nat, ip: nat, target: nat, branchType: nat, v: nat)
    ensures Inserted(m, ways, ip, target, branchType, v)
         == if |m| >= ways && v == ip then m
            else Stamped((if |m| >= ways then m - {v} else m)[ip := Entry(target, branchType, true, 0)], ip)
  {
  }

  lemma ListSame(q: seq<nat>, ip: nat)
    ensures InsertedList(q, true, ip, ip) == q
  {
  }
}
