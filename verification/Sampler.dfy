/** The sampler of the Hawkeye policy (btb/hawkeye_btb/hawkeye_btb.cc): sets of eight tags whose lru values
    are a permutation in recency order.
 */
module Sampler {
  import opened Recency

  /** SAMPLER_WAYS. */
  const WAYS: nat := 8

  /** ADDR_INFO. */
  datatype Info = Info(lastQuanta: nat, pc: nat, prefetched: bool, lru: nat)

  type History = map<nat, Info>

  datatype Use = Use(tag: nat, timer: nat, pc: nat, prefetch: bool)

  /** update_addr_history_lru() */
  function Shifted(m: History, limit: nat): (r: History)
    ensures r.Keys == m.Keys
  {
    map x | x in m :: if m[x].lru < limit then m[x].(lru := m[x].lru + 1) else m[x]
  }

  /** The entry that replace_addr_history_element() looks for. */
  ghost predicate IsLast(m: History, x: nat) {
    x in m && m[x].lru == WAYS - 1
  }

  /** What the set is after a use, `out` being what a full set replaces. */
  function Used(m: History, u: Use, out: nat): History {
    if u.tag in m then
      Shifted(m, m[u.tag].lru)[u.tag := Info(u.timer, u.pc, u.prefetch, 0)]
    else
      var room := if |m| == WAYS then m - {out} else m;
      Shifted(room[u.tag := Info(0, 0, u.prefetch, 0)], WAYS - 1)[u.tag := Info(u.timer, u.pc, u.prefetch, 0)]
  }

  // ---------------------------------------------------------------- the permutation

  /** The tags of the set, the most recent first; each holds its position as lru value. */
  ghost predicate Permuted(m: History, q: seq<nat>) {
    && Distinct(q) && |q| <= WAYS && (forall x :: x in m <==> x in q)
    && (forall j | 0 <= j < |q| :: m[q[j]].lru == j)
  }

  lemma {:induction false} PermutedSize(m: History, q: seq<nat>)
    requires Permuted(m, q)
    ensures |m| == |q|
  {
    assert q[..|q|] == q;
    PrefixSize(q, |q|);
    assert m.Keys == Elements(q);
  }

  /** A full set has exactly one entry with the largest lru value, its least recently used tag. */
  lemma {:induction false} FullHasLast(m: History, q: seq<nat>)
    requires Permuted(m, q) && |m| == WAYS
    ensures |q| == WAYS && IsLast(m, q[WAYS - 1])
    ensures forall x | IsLast(m, x) :: x == q[WAYS - 1]
  {
    PermutedSize(m, q);
    forall x | IsLast(m, x) ensures x == q[WAYS - 1] {
      var j :| 0 <= j < |q| && q[j] == x;
    }
  }

  lemma {:induction false} HitPermuted(m: History, q: seq<nat>, u: Use, out: nat)
    requires Permuted(m, q) && u.tag in m
    ensures Permuted(Used(m, u, out), Touch(q, u.tag))
  {
    hide Touch, IndexOf, Used;
    var t, r := Touch(q, u.tag), Used(m, u, out);
    IndexIn(q, u.tag);
    TouchAt(q, u.tag);
    TouchDistinct(q, u.tag);
    HitOrder(m, q, u, out, IndexOf(q, u.tag), t);
    forall x ensures x in r <==> x in t {
      assert x in Elements(t) <==> x in Elements(q);
    }
  }

  lemma {:induction false} HitOrder(m: History, q: seq<nat>, u: Use, out: nat, k: nat, t: seq<nat>)
    requires Permuted(m, q) && k < |q| == |t| && q[k] == u.tag && u.tag in m
    requires forall j: nat | j < |q| :: t[j] == q[Before(k, j)]
    ensures var r := Used(m, u, out);
            r.Keys == m.Keys && forall j: nat | j < |t| :: t[j] in r && r[t[j]].lru == j
  {
    var r := Used(m, u, out);
    forall j: nat | j < |t| ensures t[j] in r && r[t[j]].lru == j {
      assert t[j] == q[Before(k, j)];
    }
  }

  /** The list of a set after a miss: a full set loses its last tag. */
  function Entered(q: seq<nat>, x: nat): seq<nat> {
    if |q| == WAYS then [x] + q[..WAYS - 1] else [x] + q
  }

  lemma {:induction false} MissPermuted(m: History, q: seq<nat>, u: Use, out: nat)
    requires Permuted(m, q) && u.tag !in m && (|m| == WAYS ==> IsLast(m, out))
    ensures Permuted(Used(m, u, out), Entered(q, u.tag))
  {
    PermutedSize(m, q);
    var rest := if |q| == WAYS then q[..WAYS - 1] else q;
    var room := if |m| == WAYS then m - {out} else m;
    if |m| == WAYS {
      FullHasLast(m, q);
      assert q == rest + [out];
    }
    RestIn(m, q, room, rest);
    EnterPermuted(room, rest, u);
  }

  lemma {:induction false} RestIn(m: History, q: seq<nat>, room: History, rest: seq<nat>)
    requires Permuted(m, q)
    requires (rest == q && room == m) || (|q| == WAYS && rest == q[..WAYS - 1] && room == m - {q[WAYS - 1]})
    ensures Permuted(room, rest)
  {
    if rest != q {
      assert q == rest + [q[WAYS - 1]];
      assert forall j | 0 <= j < |rest| :: rest[j] == q[j];
    }
  }

  lemma {:induction false} EnterPermuted(room: History, rest: seq<nat>, u: Use)
    requires Permuted(room, rest) && |rest| < WAYS && u.tag !in room
    ensures Permuted(Shifted(room[u.tag := Info(0, 0, u.prefetch, 0)], WAYS - 1)
                       [u.tag := Info(u.timer, u.pc, u.prefetch, 0)], [u.tag] + rest)
  {
    var t := [u.tag] + rest;
    assert forall j | 0 < j < |t| :: t[j] == rest[j - 1];
  }

  // ---------------------------------------------------------------- whole runs

  /** All tags used, the most recent first. */
  function Tags(uses: seq<Use>): seq<nat> {
    if uses == [] then [] else Touch(Tags(uses[..|uses| - 1]), uses[|uses| - 1].tag)
  }

  function Front(q: seq<nat>): seq<nat> {
    if |q| <= WAYS then q else q[..WAYS]
  }

  /** A state that a run of uses can reach, whatever entry is chosen among those to replace. */
  ghost predicate Reaches(uses: seq<Use>, m: History) {
    if uses == [] then m == map[] else
    var u := uses[|uses| - 1];
    exists before: History, out: nat :: Follows(before, u, out, m) && Reaches(uses[..|uses| - 1], before)
  }

  /** One use, which on a full set replaces an entry with the largest lru value. */
  ghost predicate Follows(before: History, u: Use, out: nat, m: History) {
    m == Used(before, u, out) && (u.tag !in before && |before| == WAYS ==> IsLast(before, out))
  }

  lemma {:induction false} TagsDistinct(uses: seq<Use>)
    ensures Distinct(Tags(uses))
    decreases |uses|
  {
    if uses == [] {
    } else {
      TagsDistinct(uses[..|uses| - 1]);
      TouchDistinct(Tags(uses[..|uses| - 1]), uses[|uses| - 1].tag);
    }
  }

  /** The front of the touched list is the touched or entered front. */
  lemma {:induction false} FrontTouch(q: seq<nat>, x: nat)
    requires Distinct(q)
    ensures Front(Touch(q, x)) == if x in Front(q) then Touch(Front(q), x) else Entered(Front(q), x)
  {
    hide IndexOf;
    if x in Front(q) {
      FrontIndex(q, x);
      TouchAt(q, x);
      TouchAt(Front(q), x);
      IndexIn(Front(q), x);
      hide Touch;
      SameFront(q, x, IndexOf(q, x), Touch(q, x), Touch(Front(q), x));
    } else if x in q {
      IndexIn(q, x);
      InPrefix(q, |Front(q)|, x);
      assert q[..|Front(q)|] == Front(q);
      TouchFresh(q, x, |Front(q)|);
      TouchDistinct(q, x);
      hide Touch;
      assert Front(Touch(q, x)) == Entered(Front(q), x);
    }
  }

  lemma SameFront(q: seq<nat>, x: nat, k: nat, t: seq<nat>, u: seq<nat>)
    requires |t| == |q| && |u| == |Front(q)| && k < |Front(q)|
    requires forall j: nat | j < |q| :: t[j] == q[Before(k, j)]
    requires forall j: nat | j < |u| :: u[j] == Front(q)[Before(k, j)]
    ensures Front(t) == u
  {
    assert forall j: nat | j < |u| :: Front(t)[j] == u[j];
  }

  lemma {:induction false} FrontIndex(q: seq<nat>, x: nat)
    requires Distinct(q) && x in Front(q)
    ensures x in q && IndexOf(Front(q), x) == IndexOf(q, x)
  {
    var f := Front(q);
    var k := IndexOf(f, x);
    assert f[k] == q[k];
    IndexUnique(q, k);
  }

  /** After every run the set holds the eight most recently used tags, with lru values 0, 1, 2, ... in
      recency order. */
  lemma {:induction false} SamplerIsRecent(uses: seq<Use>, m: History)
    requires Reaches(uses, m)
    ensures Permuted(m, Front(Tags(uses)))
    decreases |uses|
  {
    hide Used, Touch, Front, Permuted, Entered;
    if uses == [] {
      NothingPermuted();
    } else {
      var rest, u := uses[..|uses| - 1], uses[|uses| - 1];
      var before, out :| Follows(before, u, out, m) && Reaches(rest, before);
      SamplerIsRecent(rest, before);
      TagsDistinct(rest);
      var q := Front(Tags(rest));
      FrontTouch(Tags(rest), u.tag);
      KeysAre(before, q);
      if u.tag in before {
        HitPermuted(before, q, u, out);
      } else {
        MissPermuted(before, q, u, out);
      }
    }
  }

  lemma NothingPermuted()
    ensures Permuted(map[], Front([]))
  {
  }

  lemma KeysAre(m: History, q: seq<nat>)
    requires Permuted(m, q)
    ensures forall x :: x in m <==> x in q
  {
  }

  /** The distinct tags used since the last use of `x`. */
  function Since(uses: seq<Use>, x: nat): set<nat> {
    if uses == [] || uses[|uses| - 1].tag == x then {}
    else Since(uses[..|uses| - 1], x) + {uses[|uses| - 1].tag}
  }

  ghost predicate WasUsed(uses: seq<Use>, x: nat) {
    exists k :: 0 <= k < |uses| && uses[k].tag == x
  }

  lemma {:induction false} TagsAre(uses: seq<Use>, x: nat)
    ensures x in Tags(uses) <==> WasUsed(uses, x)
    ensures x in Tags(uses) ==> Since(uses, x) == Elements(Tags(uses)[..IndexOf(Tags(uses), x)])
    decreases |uses|
  {
    hide Touch, IndexOf;
    if uses == [] {
    } else {
      var rest, y := uses[..|uses| - 1], uses[|uses| - 1].tag;
      TagsAre(rest, x);
      TagsDistinct(rest);
      TouchDistinct(Tags(rest), y);
      assert x in Tags(uses) <==> x in Elements(Tags(rest)) + {y};
      UsedGrows(uses, x);
      if x == y {
        FrontOfTouch(Tags(rest), x);
      } else if x in Tags(rest) {
        TouchAbove(Tags(rest), y, x);
      }
    }
  }

  lemma UsedGrows(uses: seq<Use>, x: nat)
    requires |uses| > 0
    ensures WasUsed(uses, x) <==> WasUsed(uses[..|uses| - 1], x) || uses[|uses| - 1].tag == x
  {
    var rest := uses[..|uses| - 1];
    if WasUsed(rest, x) {
      var k :| 0 <= k < |rest| && rest[k].tag == x;
      assert uses[k].tag == x;
    }
    if WasUsed(uses, x) && uses[|uses| - 1].tag != x {
      var k :| 0 <= k < |uses| && uses[k].tag == x;
      assert rest[k].tag == x;
    }
  }

  lemma FrontOfTouch(q: seq<nat>, x: nat)
    ensures x in Touch(q, x) && Elements(Touch(q, x)[..IndexOf(Touch(q, x), x)]) == {}
  {
    assert Touch(q, x)[0] == x;
  }

  /** After every run a tag is in the sampler exactly when it was used and fewer than eight other tags have
      been used since; its lru value is their number. */
  lemma {:induction false} SamplerHits(uses: seq<Use>, m: History, x: nat)
    requires Reaches(uses, m)
    ensures x in m <==> WasUsed(uses, x) && |Since(uses, x)| < 8
    ensures x in m ==> m[x].lru == |Since(uses, x)|
  {
    hide Reaches, Tags, Since, IndexOf;
    SamplerIsRecent(uses, m);
    TagsDistinct(uses);
    TagsAre(uses, x);
    var q := Tags(uses);
    if x in q {
      var k := IndexOf(q, x);
      IndexIn(q, x);
      PrefixSize(q, k);
      InPrefix(q, |Front(q)|, x);
      assert q[..|Front(q)|] == Front(q);
      if k < WAYS {
        assert Front(q)[k] == x;
      }
    } else {
      assert x in Front(q) ==> x in q;
    }
  }

  /** Use `k` is the last one of the tag. */
  ghost predicate LastUse(uses: seq<Use>, x: nat, k: nat) {
    k < |uses| && uses[k].tag == x && forall j | k < j < |uses| :: uses[j].tag != x
  }

  /** What the sampler knows of a tag is what its last use brought: the time, the address and the kind. */
  ghost predicate Remembers(uses: seq<Use>, m: History, x: nat, k: nat) {
    && LastUse(uses, x, k) && x in m
    && m[x].lastQuanta == uses[k].timer && m[x].pc == uses[k].pc && m[x].prefetched == uses[k].prefetch
  }

  lemma {:induction false} SamplerRemembers(uses: seq<Use>, m: History, x: nat) returns (k: nat)
    requires Reaches(uses, m) && x in m
    ensures Remembers(uses, m, x, k)
    decreases |uses|
  {
    if uses == [] {
      assert false;
    } else {
      var rest, u := uses[..|uses| - 1], uses[|uses| - 1];
      var before, out :| Follows(before, u, out, m) && Reaches(rest, before);
      UseLeaves(before, u, out, m, x);
      hide Reaches, Follows, Remembers;
      if x == u.tag {
        k := |uses| - 1;
        JustUsed(uses, m);
      } else {
        k := SamplerRemembers(rest, before, x);
        StillRemembers(uses, before, m, x, k);
      }
    }
  }

  /** A use brings its own time, address and kind, and leaves those of the other tags. */
  lemma UseLeaves(before: History, u: Use, out: nat, m: History, x: nat)
    requires Follows(before, u, out, m) && x in m
    ensures if x == u.tag then m[x] == Info(u.timer, u.pc, u.prefetch, 0)
            else x in before && m[x] == before[x].(lru := m[x].lru)
  {
  }

  lemma JustUsed(uses: seq<Use>, m: History)
    requires uses != []
    requires var u := uses[|uses| - 1]; u.tag in m && m[u.tag] == Info(u.timer, u.pc, u.prefetch, 0)
    ensures Remembers(uses, m, uses[|uses| - 1].tag, |uses| - 1)
  {
  }

  lemma StillRemembers(uses: seq<Use>, before: History, m: History, x: nat, k: nat)
    requires uses != [] && uses[|uses| - 1].tag != x && Remembers(uses[..|uses| - 1], before, x, k)
    requires x in m && m[x] == before[x].(lru := m[x].lru)
    ensures Remembers(uses, m, x, k)
  {
    assert forall j | 0 <= j < |uses| - 1 :: uses[..|uses| - 1][j] == uses[j];
  }

  // ---------------------------------------------------------------- the sampler itself

  class AddressHistory {
    var sets: seq<History>
    /** The uses of each set so far. */
    ghost var runs: seq<seq<Use>>

    /** Every set is what its uses lead to. */
    ghost predicate Valid()
      reads this
    {
      |sets| == |runs| && forall s | 0 <= s < |sets| :: Reaches(runs[s], sets[s])
    }

    constructor (samplerSets: nat)
      ensures Valid() && sets == seq(samplerSets, _ => map[]) && runs == seq(samplerSets, _ => [])
    {
      sets := seq(samplerSets, _ => map[]);
      runs := seq(samplerSets, _ => []);
    }

    /** In every reachable state of every set: the tags are the eight used most recently, with lru values
        0, 1, 2, ... in recency order; a tag is there exactly when fewer than eight others were used since, with
        the time stamp, address and kind of its last use. */
    lemma SetsAreRecent(s: nat)
      requires Valid() && s < |sets|
      ensures Permuted(sets[s], Front(Tags(runs[s])))
      ensures forall x: nat :: x in sets[s] <==> WasUsed(runs[s], x) && |Since(runs[s], x)| < 8
      ensures forall x: nat | x in sets[s] :: sets[s][x].lru == |Since(runs[s], x)|
      ensures forall x: nat | x in sets[s] :: exists k: nat :: Remembers(runs[s], sets[s], x, k)
    {
      SamplerIsRecent(runs[s], sets[s]);
      forall x: nat
        ensures x in sets[s] <==> WasUsed(runs[s], x) && |Since(runs[s], x)| < 8
        ensures x in sets[s] ==> sets[s][x].lru == |Since(runs[s], x)|
        ensures x in sets[s] ==> exists k: nat :: Remembers(runs[s], sets[s], x, k)
      {
        SamplerHits(runs[s], sets[s], x);
        if x in sets[s] {
          var k := SamplerRemembers(runs[s], sets[s], x);
        }
      }
    }

    /** Erase the entry with the largest lru value; without one, the entry of tag 0 would go. */
    method ReplaceElement(s: nat) returns (ghost out: nat)
      requires Valid() && s < |sets| && |sets[s]| == WAYS
      modifies this`sets
      ensures IsLast(old(sets[s]), out) && sets == old(sets[s := sets[s] - {out}])
      ensures |Front(Tags(runs[s]))| == WAYS && out == Front(Tags(runs[s]))[WAYS - 1]
    {
      var m := sets[s];
      SetsAreRecent(s);
      FullHasLast(m, Front(Tags(runs[s])));
      var lruAddr := 0;
      var left := m.Keys;
      while left != {}
        invariant left <= m.Keys
        invariant !(exists x :: IsLast(m, x) && x !in left)
        decreases left
      {
        var x :| x in left;
        if m[x].lru == WAYS - 1 {
          lruAddr := x;
          break;
        }
        left := left - {x};
      }
      assert left != {};
      assert IsLast(m, lruAddr);
      out := lruAddr;
      var fewer: History := m - {lruAddr};
      sets := sets[s := fewer];
    }

    /** update_addr_history_lru(): values below the given one go up, and stay in range. */
    method UpdateLru(s: nat, currLru: nat)
      requires s < |sets| && currLru < WAYS
      modifies this`sets
      ensures sets == old(sets[s := Shifted(sets[s], currLru)])
    {
      ghost var m := sets[s];
      ghost var before := sets;
      var left := sets[s].Keys;
      while left != {}
        invariant left <= m.Keys && |sets| == |before| && sets == before[s := sets[s]] && sets[s].Keys == m.Keys
        invariant forall x | x in m :: sets[s][x] == if x in left then m[x] else Shifted(m, currLru)[x]
        decreases left
      {
        var x :| x in left;
        var i := sets[s][x];
        if i.lru < currLru {
          var raised: History := sets[s][x := i.(lru := i.lru + 1)];
          sets := sets[s := raised];
          assert sets[s][x].lru < WAYS;
        }
        left := left - {x};
      }
      assert sets[s] == Shifted(m, currLru);
    }

    /** The sampler part of UpdateReplacementState. */
    method Access(s: nat, u: Use)
      requires Valid() && s < |sets|
      modifies this
      ensures Valid() && |sets| == old(|sets|) && runs == old(runs[s := runs[s] + [u]])
      ensures exists out: nat :: Follows(old(sets[s]), u, out, sets[s]) && sets == old(sets)[s := sets[s]]
    {
      hide Reaches, Follows;
      ghost var before := sets;
      ghost var out := UseTag(s, u);
      ReachesNext(runs[s], u, before[s], out, sets[s]);
      runs := runs[s := runs[s] + [u]];
      assert sets == before[s := sets[s]];
    }

    /** One use of a tag: a hit, or a miss, which in a full set replaces an entry. */
    method UseTag(s: nat, u: Use) returns (ghost out: nat)
      requires Valid() && s < |sets|
      modifies this`sets
      ensures |sets| == old(|sets|) && Follows(old(sets[s]), u, out, sets[s]) && sets == old(sets)[s := sets[s]]
    {
      hide Permuted, Reaches, Front, Tags, Shifted;
      ghost var m := sets[s];
      out := 0;
      ReachedBounds(runs[s], m);
      if u.tag in sets[s] {
        UpdateLru(s, sets[s][u.tag].lru);
      } else {
        out := EnterTag(s, u);
      }
      var updated: History := sets[s][u.tag := Info(u.timer, u.pc, u.prefetch, 0)];
      sets := sets[s := updated];
    }

    /** A new entry, for which a full set gives up its last one; the others are aged. */
    method EnterTag(s: nat, u: Use) returns (ghost out: nat)
      requires Valid() && s < |sets| && u.tag !in sets[s]
      modifies this`sets
      ensures var m := old(sets[s]);
              && (|m| == WAYS ==> IsLast(m, out))
              && sets == old(sets)[s := Shifted(
                   (if |m| == WAYS then m - {out} else m)[u.tag := Info(0, 0, u.prefetch, 0)], WAYS - 1)]
    {
      hide Permuted, Shifted, Reaches, Front, Tags;
      out := 0;
      ReachedBounds(runs[s], sets[s]);
      if |sets[s]| == WAYS {
        out := ReplaceElement(s);
        RemovedOne(old(sets[s]), out);
      }
      assert |sets[s]| < WAYS;
      var entered: History := sets[s][u.tag := Info(0, 0, u.prefetch, 0)];
      sets := sets[s := entered];
      UpdateLru(s, WAYS - 1);
    }
  }

  lemma ReachedBounds(uses: seq<Use>, m: History)
    requires Reaches(uses, m)
    ensures |m| <= WAYS && forall x | x in m :: m[x].lru < WAYS
  {
    hide Reaches;
    SamplerIsRecent(uses, m);
    LruBelow(m, Front(Tags(uses)));
    PermutedBound(m, Front(Tags(uses)));
  }

  lemma ReachesNext(uses: seq<Use>, u: Use, before: History, out: nat, m: History)
    requires Reaches(uses, before) && Follows(before, u, out, m)
    ensures Reaches(uses + [u], m)
  {
    var more := uses + [u];
    assert more[..|uses|] == uses && more[|uses|] == u;
    assert Follows(before, more[|more| - 1], out, m) && Reaches(more[..|more| - 1], before);
  }

  lemma LruBelow(m: History, q: seq<nat>)
    requires Permuted(m, q)
    ensures forall x | x in m :: m[x].lru < WAYS
  {
    forall x | x in m ensures m[x].lru < WAYS {
      var j :| 0 <= j < |q| && q[j] == x;
    }
  }

  lemma PermutedBound(m: History, q: seq<nat>)
    requires Permuted(m, q)
    ensures |m| == |q| <= WAYS
  {
    PermutedSize(m, q);
  }

  lemma RemovedOne(m: History, x: nat)
    requires x in m
    ensures |m - {x}| == |m| - 1
  {
    assert (m - {x}).Keys == m.Keys - {x};
  }
}
