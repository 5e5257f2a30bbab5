/** Class VirtualMemory of src/vmem.cc: the maps it fills on demand, proved against the functions of module
    VirtualMemory, and the shuffle that builds its free list.
 */
module FrameAllocator {
  import opened Arithmetic
  import opened Bits
  import opened Options
  import opened VirtualMemory

  /** The frames set aside: one page, or a megabyte. */
  function Reserved(pageSize: nat): (r: nat)
    requires pageSize > 0
    ensures r > 0
  {
    if RESERVE < pageSize then 1 else RESERVE / pageSize
  }

  /** The reserve is exactly 1048576 bytes, or one page if pages are larger than that. */
  lemma {:induction false} ReserveIsMegabyte(pageSize: nat)
    requires IsPower(pageSize)
    ensures if pageSize <= 1048576 then Reserved(pageSize) * pageSize == 1048576 else Reserved(pageSize) == 1
  {
    hide Pow2;
    var k: nat :| pageSize == Pow2(k);
    TwentyBits();
    PowersGrow(20, k);
    if k <= 20 {
      PowersMultiply(20 - k, k);
      DivModUnique(1048576, pageSize, Pow2(20 - k), 0);
    }
  }

  lemma TwentyBits()
    ensures Pow2(20) == 1048576
  {
    SmallPowers();
    PowersMultiply(10, 10);
  }

  lemma {:induction false} PowersMultiply(k: nat, l: nat)
    ensures Pow2(k + l) == Pow2(k) * Pow2(l)
  {
    if k == 0 {
    } else {
      PowersMultiply(k - 1, l);
    }
  }

  lemma PowerCheck(n: nat)
    ensures n > 0 && n == Pow2(Lg2(n)) <==> IsPower(n)
  {
    if k :| n == Pow2(k) {
      Lg2OfPow2(k);
    }
  }

  /** The per-cpu maps hold the claimed frames. */
  ghost predicate MapsHold(pages: seq<map<nat, nat>>, tables: seq<seq<map<nat, nat>>>, frames: map<Key, nat>,
                           cpus: nat, levels: nat) {
    && |pages| == cpus && |tables| == cpus
    && (forall c | 0 <= c < cpus :: |tables[c]| == levels)
    && (forall c: nat, v: nat | c < cpus :: PageHolds(pages[c], frames, c, v))
    && (forall c: nat, l: nat, t: nat | c < cpus && l < levels :: TableHolds(tables[c][l], frames, c, l, t))
  }

  ghost predicate PageHolds(m: map<nat, nat>, frames: map<Key, nat>, c: nat, v: nat) {
    (v in m <==> Page(c, v) in frames) && (v in m ==> frames[Page(c, v)] == m[v])
  }

  ghost predicate TableHolds(m: map<nat, nat>, frames: map<Key, nat>, c: nat, l: nat, t: nat) {
    (t in m <==> Table(c, l, t) in frames) && (t in m ==> frames[Table(c, l, t)] == m[t])
  }

  function Put(m: map<nat, nat>, k: nat, v: nat): map<nat, nat> {
    m[k := v]
  }

  lemma {:induction false} PageAdded(pages: seq<map<nat, nat>>, tables: seq<seq<map<nat, nat>>>, frames: map<Key, nat>,
                                     cpus: nat, levels: nat, c: nat, v: nat, f: nat)
    requires MapsHold(pages, tables, frames, cpus, levels) && c < cpus
    ensures MapsHold(pages[c := Put(pages[c], v, f)], tables, frames[Page(c, v) := f], cpus, levels)
  {
    var pages' := pages[c := Put(pages[c], v, f)];
    var frames' := frames[Page(c, v) := f];
    forall d: nat, w: nat | d < cpus ensures PageHolds(pages'[d], frames', d, w) {
      assert PageHolds(pages[d], frames, d, w);
    }
    forall d: nat, l: nat, t: nat | d < cpus && l < levels ensures TableHolds(tables[d][l], frames', d, l, t) {
      assert TableHolds(tables[d][l], frames, d, l, t);
    }
  }

  lemma {:induction false} TableAdded(pages: seq<map<nat, nat>>, tables: seq<seq<map<nat, nat>>>, frames: map<Key, nat>,
                                      cpus: nat, levels: nat, c: nat, l: nat, t: nat, f: nat)
    requires MapsHold(pages, tables, frames, cpus, levels) && c < cpus && l < levels
    ensures MapsHold(pages, tables[c := tables[c][l := Put(tables[c][l], t, f)]], frames[Table(c, l, t) := f],
                     cpus, levels)
  {
    var tables' := tables[c := tables[c][l := Put(tables[c][l], t, f)]];
    var frames' := frames[Table(c, l, t) := f];
    forall d: nat, w: nat | d < cpus ensures PageHolds(pages[d], frames', d, w) {
      assert PageHolds(pages[d], frames, d, w);
    }
    forall d: nat, k: nat, u: nat | d < cpus && k < levels ensures TableHolds(tables'[d][k], frames', d, k, u) {
      assert TableHolds(tables[d][k], frames, d, k, u);
    }
  }

  class Allocator {
    const cpus: nat
    const g: Geometry
    /** Frames set aside, and frames in all. */
    const reserve: nat
    const total: nat
    var free: seq<nat>
    var pages: seq<map<nat, nat>>
    var tables: seq<seq<map<nat, nat>>>
    /** All claimed frames by what they are claimed for. */
    ghost var frames: map<Key, nat>

    ghost function View(): Memory
      reads this
    {
      Memory(free, frames)
    }

    ghost predicate Valid()
      reads this
    {
      && Sane(g) && reserve == Reserved(g.pageSize)
      && MapsHold(pages, tables, frames, cpus, g.levels) && Inv(View(), reserve, total)
      && |free| + |frames| == total - reserve
    }

    /** A sane memory, for any random numbers; Boot checks that it is sane. */
    constructor (cpus: nat, g: Geometry, total: nat, random: nat -> nat)
      requires Sane(g) && Reserved(g.pageSize) <= total
      ensures Valid() && this.cpus == cpus && this.g == g && this.total == total
      ensures Booted(View(), reserve, total)
    {
      this.cpus, this.g, this.total := cpus, g, total;
      reserve := Reserved(g.pageSize);
      pages := seq(cpus, _ => map[]);
      tables := seq(cpus, _ => seq(g.levels, _ => map[]));
      frames := map[];
      free := [];
      new;
      Populate();
      Shuffle(random);
      SameFrames(free, reserve, total);
    }

    /** The free list: all frames, then without the reserve. */
    method Populate()
      requires reserve <= total
      modifies this`free
      ensures free == Unreserved(reserve, total)
    {
      free := seq(total, _ => 0);
      var i := 0;
      while i < total
        invariant 0 <= i <= total == |free| && forall k | 0 <= k < i :: free[k] == k
      {
        free := free[i := i];
        i := i + 1;
      }
      var popped := 0;
      while popped < reserve
        invariant 0 <= popped <= reserve && |free| == total - popped
        invariant forall k | 0 <= k < |free| :: free[k] == popped + k
      {
        free := free[1..];
        popped := popped + 1;
      }
    }

    /** Every frame is swapped with a random one. */
    method Shuffle(random: nat -> nat)
      modifies this`free
      ensures multiset(free) == multiset(old(free))
    {
      var i := 0;
      while i < |free|
        invariant 0 <= i <= |free| == |old(free)| && multiset(free) == multiset(old(free))
      {
        var target := random(i) % |free|;
        free := free[i := free[target]][target := free[i]];
        i := i + 1;
      }
    }

    /** get_next_free_ppage(); None when the program stops. */
    method NextFreePage() returns (frame: Option<nat>)
      modifies this`free
      ensures if old(free) == [] then frame == None && free == []
              else frame == Some(old(free)[0]) && free == old(free)[1..]
    {
      if |free| == 0 {
        return None;
      }
      frame := Some(free[0]);
      free := free[1..];
    }

    /** The frame of a data page. */
    method PageFrame(cpu: nat, vpage: nat) returns (frame: Option<nat>)
      requires Valid() && cpu < cpus
      modifies this
      ensures Valid() && (View(), frame) == Claim(old(View()), Page(cpu, vpage))
    {
      hide Inv, Sane, MapsHold;
      ClaimKeeps(View(), Page(cpu, vpage), reserve, total);
      PageIn(cpu, vpage);
      if vpage !in pages[cpu] {
        frame := NextFreePage();
        if frame.None? {
          return;
        }
        PageAdded(pages, tables, frames, cpus, g.levels, cpu, vpage, frame.value);
        pages := pages[cpu := Put(pages[cpu], vpage, frame.value)];
        frames := frames[Page(cpu, vpage) := frame.value];
        return;
      }
      frame := Some(pages[cpu][vpage]);
    }

    lemma PageIn(cpu: nat, vpage: nat)
      requires Valid() && cpu < cpus
      ensures |pages| == cpus && PageHolds(pages[cpu], frames, cpu, vpage)
    {
    }

    /** The frame of a page of the page table. */
    method TableFrame(cpu: nat, level: nat, tag: nat) returns (frame: Option<nat>)
      requires Valid() && cpu < cpus && level < g.levels
      modifies this
      ensures Valid() && (View(), frame) == Claim(old(View()), Table(cpu, level, tag))
    {
      hide Inv, Sane, MapsHold;
      ClaimKeeps(View(), Table(cpu, level, tag), reserve, total);
      TableIn(cpu, level, tag);
      if tag !in tables[cpu][level] {
        frame := NextFreePage();
        if frame.None? {
          return;
        }
        TableAdded(pages, tables, frames, cpus, g.levels, cpu, level, tag, frame.value);
        tables := tables[cpu := tables[cpu][level := Put(tables[cpu][level], tag, frame.value)]];
        frames := frames[Table(cpu, level, tag) := frame.value];
        return;
      }
      frame := Some(tables[cpu][level][tag]);
    }

    lemma TableIn(cpu: nat, level: nat, tag: nat)
      requires Valid() && cpu < cpus && level < g.levels
      ensures |tables| == cpus && |tables[cpu]| == g.levels && TableHolds(tables[cpu][level], frames, cpu, level, tag)
    {
    }

    /** va_to_pa() */
    method Translate(cpu: nat, vaddr: nat) returns (pa: Option<nat>)
      requires Valid() && cpu < cpus
      modifies this
      ensures Valid() && View() == Claim(old(View()), KeyOf(g, Data(cpu, vaddr))).0
      ensures pa == Answer(old(View()), Data(cpu, vaddr))
    {
      hide Inv, Claim, MapsHold, Lg2, Pow2;
      var bits := Lg2(g.pageSize);
      PageBits(g, vaddr);
      var vpage := ShiftRight(vaddr, bits);
      var offset := BitAnd(vaddr, Pow2(bits) - 1);
      var frame := PageFrame(cpu, vpage);
      if frame.None? {
        return None;
      }
      pa := Some(frame.value * Pow2(bits) + offset);
    }

    /** What a request answers in a memory state. */
    ghost function Answer(m: Memory, r: Request): Option<nat>
      requires g.pageSize > 0 && (r.Pte? ==> r.level < g.levels)
    {
      match Claim(m, KeyOf(g, r)).1
      case None => None
      case Some(f) => Some(Address(g, r, f))
    }

    /** get_pte_pa() */
    method PteAddress(cpu: nat, vaddr: nat, level: nat) returns (pa: Option<nat>)
      requires Valid() && cpu < cpus && level < g.levels
      modifies this
      ensures Valid() && View() == Claim(old(View()), KeyOf(g, Pte(cpu, vaddr, level))).0
      ensures pa == Answer(old(View()), Pte(cpu, vaddr, level))
    {
      hide Inv, Claim, MapsHold, Lg2, Pow2, BitAnd, ShiftRight;
      var bits := Lg2(g.pageSize);
      PageBits(g, vaddr);
      var vpage := ShiftRight(vaddr, bits);
      LowNine(vpage);
      var offset := BitAnd(vpage, 511);
      var tag := ShiftRight(vpage, 9 + 9 * (g.levels - 1 - level));
      var frame := TableFrame(cpu, level, tag);
      if frame.None? {
        return None;
      }
      pa := Some(frame.value * Pow2(bits) + offset * 8);
    }
  }

  lemma PageBits(g: Geometry, vaddr: nat)
    requires Sane(g)
    ensures Pow2(Lg2(g.pageSize)) == g.pageSize
    ensures ShiftRight(vaddr, Lg2(g.pageSize)) == vaddr / g.pageSize
    ensures BitAnd(vaddr, Pow2(Lg2(g.pageSize)) - 1) == vaddr % g.pageSize
  {
    hide Lg2, Pow2, IsPower, BitAnd, ShiftRight;
    var k := Lg2(g.pageSize);
    PowerCheck(g.pageSize);
    assert Pow2(k) == g.pageSize;
    ShiftIsQuotient(vaddr, k);
    MaskIsRemainder(vaddr, k);
  }

  lemma LowNine(x: nat)
    ensures BitAnd(x, 511) == x % 512
  {
    FiveTwelve();
    MaskIsRemainder(x, 9);
  }

  /** What constructing the memory comes to. Dividing by a page size of 0, and taking the reserve from a list
      that is shorter, is undefined behaviour. */
  datatype Outcome = Boots(vm: Allocator) | Exits | Undefined

  /** The constructor with its checks, in their order. */
  method Boot(cpus: nat, capacity: nat, pageSize: nat, levels: nat, random: nat -> nat) returns (outcome: Outcome)
    ensures pageSize == 0 ==> outcome.Undefined?
    ensures pageSize > 0 ==>
              && (outcome.Exits? <==> !(capacity % pageSize == 0 && Sane(Geometry(pageSize, levels))))
              && (outcome.Boots? ==> Reserved(pageSize) <= capacity / pageSize)
              && (outcome.Undefined? ==> Reserved(pageSize) > capacity / pageSize)
    ensures outcome.Boots? ==> var vm := outcome.vm;
              && fresh(vm) && vm.Valid() && vm.cpus == cpus && vm.g == Geometry(pageSize, levels)
              && vm.total == capacity / pageSize && Booted(vm.View(), vm.reserve, vm.total)
  {
    hide Inv, MapsHold, Booted, Pow2, Lg2, IsPower;
    if pageSize == 0 {
      return Undefined;
    }
    PowerCheck(pageSize);
    if capacity % pageSize != 0 {
      return Exits;
    }
    var pages := capacity / pageSize;
    if pageSize != Pow2(Lg2(pageSize)) || pageSize < 1024 {
      return Exits;
    }
    if Reserved(pageSize) > pages {
      return Undefined;
    }
    var vm := new Allocator(cpus, Geometry(pageSize, levels), pages, random);
    return Boots(vm);
  }
}
