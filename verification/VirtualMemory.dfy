/** The allocator of physical frames (src/vmem.cc): a shuffled free list, data pages and page-table pages
    claimed on first use.
 */
module VirtualMemory {
  import opened Arithmetic
  import opened Bits
  import opened Options
  import opened Recency

  /** VMEM_RESERVE_CAPACITY, in bytes. */
  const RESERVE: nat := 1048576

  /** lg2 of inc/util.h. */
  function Lg2(n: nat): (k: nat)
    ensures n > 0 ==> Pow2(k) <= n < 2 * Pow2(k)
  {
    if n < 2 then 0 else 1 + Lg2(n / 2)
  }

  lemma {:induction false} Lg2OfPow2(k: nat)
    ensures Lg2(Pow2(k)) == k
  {
    if k == 0 {
    } else {
      Lg2OfPow2(k - 1);
    }
  }

  /** What a frame is claimed for: a page of data, or a page of the page table of some level. */
  datatype Key = Page(cpu: nat, vpage: nat) | Table(cpu: nat, level: nat, tag: nat)

  datatype Memory = Memory(free: seq<nat>, frames: map<Key, nat>)

  // ---------------------------------------------------------------- claiming a frame

  /** The frame of a key, claimed from the free list on first use; None when the program stops. */
  function Claim(m: Memory, key: Key): (Memory, Option<nat>) {
    if key in m.frames then (m, Some(m.frames[key]))
    else if m.free == [] then (m, None)
    else (Memory(m.free[1..], m.frames[key := m.free[0]]), Some(m.free[0]))
  }

  /** Claimed and free frames are all different, and lie outside the reserve. */
  ghost predicate Inv(m: Memory, reserve: nat, total: nat) {
    && Distinct(m.free)
    && (forall i | 0 <= i < |m.free| :: reserve <= m.free[i] < total)
    && (forall k | k in m.frames :: reserve <= m.frames[k] < total && m.frames[k] !in m.free)
    && (forall k, l | k in m.frames && l in m.frames && k != l :: m.frames[k] != m.frames[l])
  }

  lemma {:induction false} ClaimKeeps(m: Memory, key: Key, reserve: nat, total: nat)
    requires Inv(m, reserve, total)
    ensures Inv(Claim(m, key).0, reserve, total)
    ensures |Claim(m, key).0.free| + |Claim(m, key).0.frames| == |m.free| + |m.frames|
    ensures forall k | k in m.frames :: k in Claim(m, key).0.frames && Claim(m, key).0.frames[k] == m.frames[k]
    ensures Claim(m, key).1.None? <==> key !in m.frames && m.free == []
    ensures Claim(m, key).1.Some? ==>
              key in Claim(m, key).0.frames && Claim(m, key).0.frames[key] == Claim(m, key).1.value
  {
    if key !in m.frames && m.free != [] {
      var f := m.free[0];
      assert forall i | 0 <= i < |m.free[1..]| :: m.free[1..][i] == m.free[i + 1];
      assert m.frames[key := f].Keys == m.frames.Keys + {key};
      assert |m.frames.Keys| == |m.frames|;
      assert |m.frames[key := f].Keys| == |m.frames[key := f]|;
    }
  }

  /** Frames that are not reserved, in order. */
  function Unreserved(reserve: nat, total: nat): (s: seq<nat>)
    requires reserve <= total
    ensures |s| == total - reserve && forall i | 0 <= i < |s| :: s[i] == reserve + i
  {
    seq(total - reserve, i requires 0 <= i => reserve + i)
  }

  /** The memory as the constructor leaves it: nothing claimed, the unreserved frames in any order. */
  ghost predicate Booted(m: Memory, reserve: nat, total: nat) {
    reserve <= total && m.frames == map[] && multiset(m.free) == multiset(Unreserved(reserve, total))
  }

  /** A permutation of the unreserved frames is a memory with nothing claimed. */
  lemma {:induction false} SameFrames(free: seq<nat>, reserve: nat, total: nat)
    requires Booted(Memory(free, map[]), reserve, total)
    ensures |free| == total - reserve && Inv(Memory(free, map[]), reserve, total)
  {
    var all := Unreserved(reserve, total);
    assert |multiset(free)| == |free| && |multiset(all)| == |all|;
    forall i | 0 <= i < |free| ensures reserve <= free[i] < total {
      assert free[i] in multiset(all);
    }
    forall a, b | 0 <= a < b < |free| ensures free[a] != free[b] {
      if free[a] == free[b] {
        Twice(free, a, b);
        assert free[a] in multiset(all);
        Once(all, free[a]);
      }
    }
  }

  lemma {:induction false} Twice(s: seq<nat>, a: nat, b: nat)
    requires a < b < |s| && s[a] == s[b]
    ensures multiset(s)[s[a]] >= 2
  {
    assert s == s[..a] + [s[a]] + (s[a + 1..b] + [s[b]] + s[b + 1..]);
  }

  lemma {:induction false} Once(s: seq<nat>, x: nat)
    requires Distinct(s)
    ensures multiset(s)[x] <= 1
  {
    if i :| 0 <= i < |s| && s[i] == x {
      assert s == s[..i] + [x] + s[i + 1..];
      assert x !in s[..i] && x !in s[i + 1..];
      assert multiset(s) == multiset(s[..i]) + multiset([x]) + multiset(s[i + 1..]);
    } else {
      assert x !in s;
    }
  }

  // ---------------------------------------------------------------- requests and addresses

  /** A translation of an address, or of the page-table entry for it at some level. */
  datatype Request = Data(cpu: nat, vaddr: nat) | Pte(cpu: nat, vaddr: nat, level: nat)

  datatype Geometry = Geometry(pageSize: nat, levels: nat)

  /** The page size is a power of two and at least 1024. */
  ghost predicate Sane(g: Geometry) {
    g.pageSize >= 1024 && IsPower(g.pageSize)
  }

  function KeyOf(g: Geometry, r: Request): Key
    requires g.pageSize > 0 && (r.Pte? ==> r.level < g.levels)
  {
    var vpage := r.vaddr / g.pageSize;
    match r
    case Data(cpu, _) => Page(cpu, vpage)
    case Pte(cpu, _, level) => Table(cpu, level, ShiftRight(vpage, 9 + 9 * (g.levels - 1 - level)))
  }

  function Address(g: Geometry, r: Request, frame: nat): nat
    requires g.pageSize > 0
  {
    frame * g.pageSize + Offset(g, r)
  }

  function Offset(g: Geometry, r: Request): nat
    requires g.pageSize > 0
  {
    match r
    case Data(_, vaddr) => vaddr % g.pageSize
    case Pte(_, vaddr, _) => (vaddr / g.pageSize) % 512 * 8
  }

  predicate Known(g: Geometry, rs: seq<Request>) {
    g.pageSize > 0 && forall i | 0 <= i < |rs| :: rs[i].Pte? ==> rs[i].level < g.levels
  }

  /** The addresses a run returns, up to where the program stops. */
  function Answers(g: Geometry, m: Memory, rs: seq<Request>): (a: seq<nat>)
    requires Known(g, rs)
    ensures |a| <= |rs|
    decreases |rs|
  {
    if rs == [] then [] else
    match Claim(m, KeyOf(g, rs[0]))
    case (_, None) => []
    case (m', Some(f)) => [Address(g, rs[0], f)] + Answers(g, m', rs[1..])
  }

  function Final(g: Geometry, m: Memory, rs: seq<Request>): Memory
    requires Known(g, rs)
    decreases |rs|
  {
    if rs == [] then m else
    match Claim(m, KeyOf(g, rs[0]))
    case (_, None) => m
    case (m', Some(f)) => Final(g, m', rs[1..])
  }

  /** Frames stay with their keys: every answer of a run is the one the final memory gives. */
  lemma {:induction false} AnswersStable(g: Geometry, m: Memory, rs: seq<Request>, reserve: nat, total: nat)
    requires Known(g, rs) && Inv(m, reserve, total)
    ensures Inv(Final(g, m, rs), reserve, total)
    ensures forall k | k in m.frames :: k in Final(g, m, rs).frames && Final(g, m, rs).frames[k] == m.frames[k]
    ensures forall i | 0 <= i < |Answers(g, m, rs)| ::
              && KeyOf(g, rs[i]) in Final(g, m, rs).frames
              && Answers(g, m, rs)[i] == Address(g, rs[i], Final(g, m, rs).frames[KeyOf(g, rs[i])])
    decreases |rs|
  {
    hide Inv, KeyOf, Address;
    if rs == [] {
    } else {
      var key := KeyOf(g, rs[0]);
      ClaimKeeps(m, key, reserve, total);
      if Claim(m, key).1.Some? {
        var (m', _) := Claim(m, key);
        AnswersStable(g, m', rs[1..], reserve, total);
        var answers, last := Answers(g, m, rs), Final(g, m, rs);
        forall i | 0 <= i < |answers|
          ensures KeyOf(g, rs[i]) in last.frames && answers[i] == Address(g, rs[i], last.frames[KeyOf(g, rs[i])])
        {
          if i > 0 {
            assert rs[1..][i - 1] == rs[i] && answers[i] == Answers(g, m', rs[1..])[i - 1];
          }
        }
      }
    }
  }

  // ---------------------------------------------------------------- addresses differ

  lemma {:induction false} SplitAddress(p: nat, f: nat, o: nat)
    requires p > 0 && o < p
    ensures (f * p + o) / p == f && (f * p + o) % p == o
  {
    DivModUnique(f * p + o, p, f, o);
  }

  /** A virtual address is its page and its offset. */
  lemma {:induction false} SameVirtual(p: nat, x: nat, y: nat)
    requires p > 0 && x / p == y / p && x % p == y % p
    ensures x == y
  {
    assert x == p * (x / p) + x % p && y == p * (y / p) + y % p;
  }

  lemma SmallPage(p: nat)
    requires 1024 <= p < 4096 && IsPower(p)
    ensures p == 1024 || p == 2048
  {
    var k :| p == Pow2(k);
    PowersGrow(k, 10);
    PowersGrow(12, k);
    SmallPowers();
  }

  lemma SmallPowers()
    ensures Pow2(10) == 1024 && Pow2(11) == 2048 && Pow2(12) == 4096
  {
    assert Pow2(5) == 32;
    assert Pow2(8) == 256;
  }

  lemma {:induction false} PowersGrow(k: nat, l: nat)
    ensures k < l ==> Pow2(k) < Pow2(l)
    ensures k <= l ==> Pow2(k) <= Pow2(l)
  {
    if k >= l {
    } else {
      PowersGrow(k, l - 1);
    }
  }

  /** The table and entry of the last level determine the virtual page. */
  lemma {:induction false} LeafDetermines(vpage: nat, other: nat)
    requires ShiftRight(vpage, 9) == ShiftRight(other, 9) && vpage % 512 == other % 512
    ensures vpage == other
  {
    ShiftIsQuotient(vpage, 9);
    ShiftIsQuotient(other, 9);
    FiveTwelve();
    SameVirtual(512, vpage, other);
  }

  lemma FiveTwelve()
    ensures Pow2(9) == 512
  {
    assert Pow2(5) == 32;
  }

  /** The parts of an answer that stays inside its frame. */
  lemma {:induction false} AnswerSplit(g: Geometry, m: Memory, rs: seq<Request>, reserve: nat, total: nat, i: nat)
    requires Sane(g) && Known(g, rs) && Inv(m, reserve, total) && i < |Answers(g, m, rs)|
    requires g.pageSize >= 4096 || rs[i].Data?
    ensures Inv(Final(g, m, rs), reserve, total) && KeyOf(g, rs[i]) in Final(g, m, rs).frames
    ensures Answers(g, m, rs)[i] / g.pageSize == Final(g, m, rs).frames[KeyOf(g, rs[i])]
    ensures Answers(g, m, rs)[i] % g.pageSize == Offset(g, rs[i])
  {
    hide Answers, Final, Inv, KeyOf;
    AnswersStable(g, m, rs, reserve, total);
    SplitAddress(g.pageSize, Final(g, m, rs).frames[KeyOf(g, rs[i])], Offset(g, rs[i]));
  }

  /** Two data translations of one run agree exactly when they translate the same address of one cpu. */
  lemma {:induction false} DataInjective(g: Geometry, m: Memory, rs: seq<Request>, reserve: nat, total: nat, i: nat,
                                         j: nat)
    requires Sane(g) && Known(g, rs) && Inv(m, reserve, total)
    requires i < |Answers(g, m, rs)| && j < |Answers(g, m, rs)| && rs[i].Data? && rs[j].Data?
    ensures Answers(g, m, rs)[i] == Answers(g, m, rs)[j] <==> rs[i] == rs[j]
  {
    hide Answers, Final;
    AnswerSplit(g, m, rs, reserve, total, i);
    AnswerSplit(g, m, rs, reserve, total, j);
    if rs[i] == rs[j] {
      SameVirtual(g.pageSize, Answers(g, m, rs)[i], Answers(g, m, rs)[j]);
    }
    if Answers(g, m, rs)[i] == Answers(g, m, rs)[j] {
      assert KeyOf(g, rs[i]) == KeyOf(g, rs[j]);
      SameVirtual(g.pageSize, rs[i].vaddr, rs[j].vaddr);
    }
  }

  /** With pages of at least 4096 bytes, last-level entries of one run coincide exactly for the same virtual
      page of one cpu, and no entry of any level lies in a data page. */
  lemma {:induction false} EntriesInjective(g: Geometry, m: Memory, rs: seq<Request>, reserve: nat, total: nat,
                                            i: nat, j: nat)
    requires Sane(g) && g.pageSize >= 4096 && Known(g, rs) && Inv(m, reserve, total)
    requires i < |Answers(g, m, rs)| && j < |Answers(g, m, rs)| && rs[i].Pte?
    ensures rs[j].Pte? && rs[i].level == rs[j].level == g.levels - 1
        ==> (Answers(g, m, rs)[i] == Answers(g, m, rs)[j]
             <==> SamePage(g, rs[i], rs[j]))
    ensures rs[j].Data? ==> Answers(g, m, rs)[i] / g.pageSize != Answers(g, m, rs)[j] / g.pageSize
  {
    hide Answers, Final;
    AnswerSplit(g, m, rs, reserve, total, i);
    AnswerSplit(g, m, rs, reserve, total, j);
    if rs[j].Pte? && rs[i].level == rs[j].level == g.levels - 1 {
      LeafKeys(g, rs[i], rs[j]);
      if KeyOf(g, rs[i]) == KeyOf(g, rs[j]) && Offset(g, rs[i]) == Offset(g, rs[j]) {
        SameVirtual(g.pageSize, Answers(g, m, rs)[i], Answers(g, m, rs)[j]);
      }
    }
  }

  /** Whatever the shuffle and the requests: last-level entries coincide exactly for the same virtual page of
      one cpu. */
  ghost predicate LeavesApart(g: Geometry, reserve: nat, total: nat) {
    forall m: Memory, rs: seq<Request>, i: nat, j: nat |
      && Booted(m, reserve, total) && Known(g, rs) && i < |Answers(g, m, rs)| && j < |Answers(g, m, rs)|
      && IsLeaf(g, rs[i]) && IsLeaf(g, rs[j]) ::
      Answers(g, m, rs)[i] == Answers(g, m, rs)[j] <==> SamePage(g, rs[i], rs[j])
  }

  predicate IsLeaf(g: Geometry, r: Request) {
    r.Pte? && r.level == g.levels - 1
  }

  predicate SamePage(g: Geometry, r: Request, t: Request)
    requires g.pageSize > 0
  {
    r.cpu == t.cpu && r.vaddr / g.pageSize == t.vaddr / g.pageSize
  }

  /** Last-level entries stay apart in every run of every memory with two free frames or more, if and only if
      pages have at least 4096 bytes. */
  lemma {:induction false} LeavesApartExactly(g: Geometry, reserve: nat, total: nat)
    requires Sane(g) && g.levels > 0 && reserve + 2 <= total
    ensures LeavesApart(g, reserve, total) <==> g.pageSize >= 4096
  {
    hide Answers;
    if g.pageSize >= 4096 {
      forall m: Memory, rs: seq<Request>, i: nat, j: nat |
        && Booted(m, reserve, total) && Known(g, rs) && i < |Answers(g, m, rs)| && j < |Answers(g, m, rs)|
        && IsLeaf(g, rs[i]) && IsLeaf(g, rs[j])
        ensures Answers(g, m, rs)[i] == Answers(g, m, rs)[j] <==> SamePage(g, rs[i], rs[j])
      {
        assert m == Memory(m.free, map[]);
        SameFrames(m.free, reserve, total);
        hide Booted, Inv;
        EntriesInjective(g, m, rs, reserve, total, i, j);
      }
    } else {
      var m, rs := Memory(Unreserved(reserve, total), map[]), Colliding(g);
      CollidingAnswers(g, reserve, total);
      assert Booted(m, reserve, total) && IsLeaf(g, rs[0]) && IsLeaf(g, rs[1]);
      assert Answers(g, m, rs)[0] == Answers(g, m, rs)[1] && !SamePage(g, rs[0], rs[1]);
    }
  }

  /** Entry number pageSize / 8 of the first table, and entry 0 of the second. */
  function Colliding(g: Geometry): seq<Request>
    requires g.levels > 0
  {
    [Pte(0, g.pageSize / 8 * g.pageSize, g.levels - 1), Pte(0, 512 * g.pageSize, g.levels - 1)]
  }

  /** In small pages the first lies beyond its table, at the start of the next frame. */
  lemma {:induction false} CollidingAnswers(g: Geometry, reserve: nat, total: nat)
    requires Sane(g) && g.levels > 0 && g.pageSize < 4096 && reserve + 2 <= total
    ensures Known(g, Colliding(g))
    ensures Answers(g, Memory(Unreserved(reserve, total), map[]), Colliding(g))
         == [(reserve + 1) * g.pageSize, (reserve + 1) * g.pageSize]
    ensures !SamePage(g, Colliding(g)[0], Colliding(g)[1])
  {
    hide ShiftRight;
    var p, rs, m := g.pageSize, Colliding(g), Memory(Unreserved(reserve, total), map[]);
    SmallPage(p);
    SplitAddress(p, p / 8, 0);
    SplitAddress(p, 512, 0);
    CollidingKeys(g);
    var m1 := Claim(m, KeyOf(g, rs[0])).0;
    assert m1.free[0] == reserve + 1;
    assert rs[1..] == [rs[1]] && rs[1..][1..] == [];
    var m2 := Claim(m1, KeyOf(g, rs[1])).0;
    assert Answers(g, m2, []) == [];
    assert Answers(g, m1, [rs[1]]) == [Address(g, rs[1], reserve + 1)];
    assert Answers(g, m, rs) == [Address(g, rs[0], reserve)] + Answers(g, m1, rs[1..]);
    assert Address(g, rs[0], reserve) == reserve * p + p == (reserve + 1) * p;
  }

  lemma CollidingKeys(g: Geometry)
    requires g.pageSize == 1024 || g.pageSize == 2048
    requires g.levels > 0
    ensures Known(g, Colliding(g)) && KeyOf(g, Colliding(g)[0]) != KeyOf(g, Colliding(g)[1])
  {
    hide ShiftRight;
    var p := g.pageSize;
    SplitAddress(p, p / 8, 0);
    SplitAddress(p, 512, 0);
    ShiftIsQuotient(p / 8, 9);
    ShiftIsQuotient(512, 9);
    FiveTwelve();
  }

  lemma SameOffset(g: Geometry, r: Request, t: Request)
    requires g.pageSize > 0 && r.Pte? && t.Pte?
    ensures Offset(g, r) == Offset(g, t) <==> (r.vaddr / g.pageSize) % 512 == (t.vaddr / g.pageSize) % 512
  {
  }

  lemma {:induction false} LeafKeys(g: Geometry, r: Request, t: Request)
    requires g.pageSize > 0 && r.Pte? && t.Pte? && r.level == t.level == g.levels - 1
    ensures KeyOf(g, r) == KeyOf(g, t) && Offset(g, r) == Offset(g, t)
       <==> r.cpu == t.cpu && r.vaddr / g.pageSize == t.vaddr / g.pageSize
  {
    hide ShiftRight;
    var x, y := r.vaddr / g.pageSize, t.vaddr / g.pageSize;
    SameOffset(g, r, t);
    if KeyOf(g, r) == KeyOf(g, t) && Offset(g, r) == Offset(g, t) {
      LeafDetermines(x, y);
    }
  }

  /** Two entry addresses of one run lie in the same page of the page table, which begins an entry offset below
      each, exactly when they are of the same cpu and level and their virtual pages agree above nine bits for that
      level and nine for every level further in. */
  lemma {:induction false} TablesShared(g: Geometry, m: Memory, rs: seq<Request>, reserve: nat, total: nat, i: nat,
                                        j: nat, vi: nat, vj: nat)
    requires Sane(g) && Known(g, rs) && Inv(m, reserve, total)
    requires i < |Answers(g, m, rs)| && j < |Answers(g, m, rs)| && rs[i].Pte? && rs[j].Pte?
    requires vi == rs[i].vaddr / g.pageSize && vj == rs[j].vaddr / g.pageSize
    ensures Answers(g, m, rs)[i] - vi % 512 * 8 == Answers(g, m, rs)[j] - vj % 512 * 8 <==>
              && rs[i].cpu == rs[j].cpu && rs[i].level == rs[j].level
              && vi / Pow2(9 * (g.levels - rs[i].level)) == vj / Pow2(9 * (g.levels - rs[i].level))
  {
    hide Answers, Final, Pow2, ShiftRight, Inv, Sane;
    var a, b := Answers(g, m, rs)[i] - vi % 512 * 8, Answers(g, m, rs)[j] - vj % 512 * 8;
    var ki, kj := KeyOf(g, rs[i]), KeyOf(g, rs[j]);
    SameTable(g, m, rs, reserve, total, i, j, a, b, ki, kj);
    TableKey(g, rs[i], vi, 9 * (g.levels - rs[i].level));
    TableKey(g, rs[j], vj, 9 * (g.levels - rs[j].level));
    hide KeyOf;
    ShiftIsQuotient(vi, 9 * (g.levels - rs[i].level));
    ShiftIsQuotient(vj, 9 * (g.levels - rs[i].level));
  }

  lemma {:induction false} SameTable(g: Geometry, m: Memory, rs: seq<Request>, reserve: nat, total: nat, i: nat,
                                     j: nat, a: int, b: int, ki: Key, kj: Key)
    requires Sane(g) && Known(g, rs) && Inv(m, reserve, total)
    requires i < |Answers(g, m, rs)| && j < |Answers(g, m, rs)| && ki == KeyOf(g, rs[i]) && kj == KeyOf(g, rs[j])
    requires a == Answers(g, m, rs)[i] - Offset(g, rs[i]) && b == Answers(g, m, rs)[j] - Offset(g, rs[j])
    ensures a == b <==> ki == kj
  {
    hide Answers, Final, KeyOf, Offset;
    AnswersStable(g, m, rs, reserve, total);
    MulCancel(Final(g, m, rs).frames[ki], Final(g, m, rs).frames[kj], g.pageSize);
  }

  lemma TableKey(g: Geometry, r: Request, vpage: nat, bits: nat)
    requires g.pageSize > 0 && r.Pte? && r.level < g.levels
    requires vpage == r.vaddr / g.pageSize && bits == 9 * (g.levels - r.level)
    ensures KeyOf(g, r) == Table(r.cpu, r.level, ShiftRight(vpage, bits))
  {
    hide ShiftRight;
  }

  lemma MulCancel(a: nat, b: nat, p: nat)
    requires p > 0
    ensures a * p == b * p <==> a == b
  {
    SplitAddress(p, a, 0);
    SplitAddress(p, b, 0);
  }

  /** A translation keeps the offset in the page and the page it is in: two data addresses of one run are in the
      same frame exactly when they are of the same cpu and virtual page. */
  lemma {:induction false} PagesShared(g: Geometry, m: Memory, rs: seq<Request>, reserve: nat, total: nat, i: nat,
                                       j: nat)
    requires Sane(g) && Known(g, rs) && Inv(m, reserve, total)
    requires i < |Answers(g, m, rs)| && j < |Answers(g, m, rs)| && rs[i].Data? && rs[j].Data?
    ensures Answers(g, m, rs)[i] % g.pageSize == rs[i].vaddr % g.pageSize
    ensures Answers(g, m, rs)[i] / g.pageSize == Answers(g, m, rs)[j] / g.pageSize
       <==> rs[i].cpu == rs[j].cpu && rs[i].vaddr / g.pageSize == rs[j].vaddr / g.pageSize
  {
    hide Answers, Final;
    AnswerSplit(g, m, rs, reserve, total, i);
    AnswerSplit(g, m, rs, reserve, total, j);
  }

  /** No address of a run is in a reserved frame or, for pages of at least 4096 bytes, outside memory. */
  lemma {:induction false} AnswersInRange(g: Geometry, m: Memory, rs: seq<Request>, reserve: nat, total: nat, i: nat)
    requires Sane(g) && Known(g, rs) && Inv(m, reserve, total) && i < |Answers(g, m, rs)|
    ensures Answers(g, m, rs)[i] >= reserve * g.pageSize
    ensures g.pageSize >= 4096 || rs[i].Data? ==> Answers(g, m, rs)[i] < total * g.pageSize
  {
    hide Answers, Final, KeyOf, Offset;
    AnswersStable(g, m, rs, reserve, total);
    var f := Final(g, m, rs).frames[KeyOf(g, rs[i])];
    if g.pageSize >= 4096 || rs[i].Data? {
      OffsetBelow(g, rs[i]);
    }
    InFrames(f, g.pageSize, Offset(g, rs[i]), reserve, total);
  }

  lemma OffsetBelow(g: Geometry, r: Request)
    requires g.pageSize > 0 && (g.pageSize >= 4096 || r.Data?)
    ensures Offset(g, r) < g.pageSize
  {
  }

  lemma {:induction false} InFrames(f: nat, p: nat, o: nat, reserve: nat, total: nat)
    requires reserve <= f < total
    ensures f * p + o >= reserve * p && (o < p ==> f * p + o < total * p)
  {
    MulMono(reserve, f, p);
    MulMono(f + 1, total, p);
    assert (f + 1) * p == f * p + p;
  }

  // ---------------------------------------------------------------- running out

  function KeysOf(g: Geometry, rs: seq<Request>): set<Key>
    requires Known(g, rs)
  {
    if rs == [] then {} else {KeyOf(g, rs[0])} + KeysOf(g, rs[1..])
  }

  /** A run is answered to its end exactly when its new keys do not outnumber the free frames. */
  lemma {:induction false} RunsOutExactly(g: Geometry, m: Memory, rs: seq<Request>)
    requires Known(g, rs)
    ensures |Answers(g, m, rs)| == |rs| <==> |KeysOf(g, rs) - m.frames.Keys| <= |m.free|
    decreases |rs|
  {
    hide KeyOf, Address;
    if rs == [] {
      assert KeysOf(g, rs) - m.frames.Keys == {};
    } else {
      var key := KeyOf(g, rs[0]);
      var more := KeysOf(g, rs[1..]);
      assert KeysOf(g, rs) == {key} + more;
      AnswersNext(g, m, rs);
      hide KeysOf, Answers, Claim;
      RunsOutExactly(g, Claim(m, key).0, rs[1..]);
      NewKeys(key, more, m.frames.Keys);
    }
  }

  lemma AnswersNext(g: Geometry, m: Memory, rs: seq<Request>)
    requires Known(g, rs) && rs != []
    ensures var (m', f) := Claim(m, KeyOf(g, rs[0]));
            && |Answers(g, m, rs)| == (if f.Some? then 1 + |Answers(g, m', rs[1..])| else 0)
            && m'.frames.Keys == m.frames.Keys + (if f.Some? then {KeyOf(g, rs[0])} else {})
            && (f.None? <==> KeyOf(g, rs[0]) !in m.frames.Keys && m.free == [])
            && |m'.free| == |m.free| - (if f.Some? && KeyOf(g, rs[0]) !in m.frames.Keys then 1 else 0)
  {
    hide KeyOf, Address;
  }

  /** The new keys among these, with one more key. */
  lemma NewKeys(key: Key, more: set<Key>, taken: set<Key>)
    ensures |{key} + more - taken| == |more - (taken + {key})| + (if key in taken then 0 else 1)
  {
    if key in taken {
      assert {key} + more - taken == more - (taken + {key});
    } else {
      assert {key} + more - taken == more - (taken + {key}) + {key};
    }
  }
}
