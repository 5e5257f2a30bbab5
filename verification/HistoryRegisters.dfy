/** The registers and the history loops themselves: class folded_history and HistoryUpdate
    (branch/tage-sc-l/tage-sc-l.cc), struct CompressedHist and the history part of the tage.cc update.
 */
module HistoryRegisters {
  import opened Arithmetic
  import opened Bits
  import opened FoldedHistory

  class FoldedRegister {
    var comp: nat
    const clength: nat
    const olength: nat
    const outPoint: nat

    ghost predicate Shaped()
    {
      0 < clength < WORD && olength < RING && outPoint == olength % clength
    }

    /** The register holds the fold of a history. */
    ghost predicate Holds(bits: seq<bool>)
      reads this
    {
      Shaped() && IsFold(comp, bits, olength, clength)
    }

    constructor (originalLength: nat, compressedLength: nat)
      requires 0 < compressedLength < 32 && originalLength < 4096
      ensures Holds([]) && olength == originalLength && clength == compressedLength
    {
      comp := 0;
      olength, clength := originalLength, compressedLength;
      outPoint := originalLength % compressedLength;
      FoldOfNothing(originalLength, compressedLength);
    }

    method Update(h: array<bool>, pt: int)
      requires Shaped() && h.Length == RING
      modifies this`comp
      ensures comp == Shifted(old(comp), clength, outPoint, h[pt % RING], h[(pt + olength) % RING])
    {
      comp := Xor(ShiftLeft(comp, 1, WORD), Digit(h[pt % RING]));
      comp := Xor(comp, ShiftLeft(Digit(h[(pt + olength) % RING]), outPoint, WORD));
      comp := Xor(comp, ShiftRight(comp, clength));
      comp := BitAnd(comp, Pow2(clength) - 1);
    }
  }

  /** The outcomes that HistoryUpdate takes from the mixed branch bits, oldest first. */
  function DirectionBits(t: int, count: nat): seq<bool>
    decreases count
  {
    if count == 0 then [] else [t % 2 == 1] + DirectionBits(t / 2, count - 1)
  }

  /** Outcome `i` is bit `i` of the mixed word, in two's complement. */
  lemma {:induction false} DirectionBit(t: int, count: nat, i: nat)
    requires i < count
    ensures |DirectionBits(t, count)| == count && (DirectionBits(t, count)[i] <==> t / Pow2(i) % 2 == 1)
    decreases count
  {
    DirectionCount(t, count);
    if i == 0 {
    } else {
      DirectionBit(t / 2, count - 1, i - 1);
      HalfQuotient(t, Pow2(i - 1));
    }
  }

  lemma {:induction false} DirectionCount(t: int, count: nat)
    ensures |DirectionBits(t, count)| == count
    decreases count
  {
    if count == 0 {
    } else {
      DirectionCount(t / 2, count - 1);
    }
  }

  /** The ring and position describe the most recent RING bits. */
  ghost predicate RingHolds(ring: seq<bool>, y: int, bits: seq<bool>) {
    |ring| == RING && forall age: nat | age < RING :: ring[(y + age) % RING] == OfAge(bits, age)
  }

  lemma RingStep(ring: seq<bool>, y: int, bits: seq<bool>, b: bool)
    requires RingHolds(ring, y, bits)
    ensures RingHolds(ring[(y - 1) % RING := b], y - 1, bits + [b])
  {
    var ring' := ring[(y - 1) % RING := b];
    forall age: nat | age < RING ensures ring'[(y - 1 + age) % RING] == OfAge(bits + [b], age) {
      if age > 0 {
        assert ring[(y + (age - 1)) % RING] == OfAge(bits, age - 1);
        assert y - 1 + age == y + (age - 1);
        assert (y - 1 + age) % RING != (y - 1) % RING;
      }
    }
  }

  class GlobalHistory {
    const ghist: array<bool>
    var y: int
    const h: seq<FoldedRegister>
    const g: seq<FoldedRegister>
    const j: seq<FoldedRegister>
    /** All outcomes so far, oldest first. */
    ghost var bits: seq<bool>

    ghost function Registers(): (rs: seq<FoldedRegister>) {
      h + g + j
    }

    ghost function Owned(): set<object> {
      set r | r in Registers()
    }

    ghost predicate Separate() {
      && ghist.Length == RING && |h| == |g| == |j|
      && (forall p, q | 0 <= p < q < |Registers()| :: Registers()[p] != Registers()[q])
    }

    /** The ring holds the recent outcomes and every register the fold of its history length. */
    ghost predicate Valid()
      reads this, ghist, Owned()
    {
      && Separate() && RingHolds(ghist[..], y, bits)
      && forall p | 0 <= p < |Registers()| :: Registers()[p].Holds(bits)
    }

    constructor (h: seq<FoldedRegister>, g: seq<FoldedRegister>, j: seq<FoldedRegister>)
      requires |h| == |g| == |j|
      requires forall p, q | 0 <= p < q < |h + g + j| :: (h + g + j)[p] != (h + g + j)[q]
      requires forall p | 0 <= p < |h + g + j| :: (h + g + j)[p].Holds([])
      ensures Valid() && bits == [] && this.h == h && this.g == g && this.j == j
    {
      ghist := new bool[RING](_ => false);
      y := 0;
      this.h, this.g, this.j := h, g, j;
      bits := [];
    }

    /** The history loop of HistoryUpdate for `maxt` bits of the mixed branch word. */
    method HistoryUpdate(mixed: int, maxt: nat)
      requires Valid()
      modifies this, ghist, Owned()
      ensures Valid() && bits == old(bits) + DirectionBits(mixed, maxt) && y == old(y) - maxt
    {
      var t, left := mixed, maxt;
      while left > 0
        invariant 0 <= left <= maxt && Valid() && y == old(y) - (maxt - left)
        invariant bits + DirectionBits(t, left) == old(bits) + DirectionBits(mixed, maxt)
      {
        ghost var now := bits;
        Push(t % 2 == 1);
        assert now + DirectionBits(t, left) == bits + DirectionBits(t / 2, left - 1);
        t := t / 2;
        left := left - 1;
      }
    }

    /** One outcome: into the ring, then into every register. */
    method Push(dir: bool)
      requires Valid()
      modifies this, ghist, Owned()
      ensures Valid() && bits == old(bits) + [dir] && y == old(y) - 1
    {
      hide RingHolds, FoldedRegister.Holds, FoldedRegister.Shaped, OfAge;
      RingStep(ghist[..], y, bits, dir);
      ghost var before := bits;
      y := y - 1;
      ghist[y % RING] := dir;
      bits := bits + [dir];
      assert ghist[..] == old(ghist[..])[y % RING := dir];
      var i := 0;
      while i < |h|
        invariant 0 <= i <= |h| && bits == before + [dir] && y == old(y) - 1
        invariant RingHolds(ghist[..], y, bits)
        invariant forall p | 0 <= p < |Registers()|
          :: Registers()[p].Holds(if Reached(p, i) then before + [dir] else before)
      {
        assert Registers()[i] == h[i] && Registers()[|h| + i] == g[i] && Registers()[|h| + |h| + i] == j[i];
        UpdateRegister(i, dir, before);
        UpdateRegister(|h| + i, dir, before);
        UpdateRegister(|h| + |h| + i, dir, before);
        i := i + 1;
      }
    }

    /** Register `p` of the three banks has been updated once `i` of each bank have been. */
    ghost predicate Reached(p: int, i: int) {
      p < i || |h| <= p < |h| + i || |h| + |h| <= p < |h| + |h| + i
    }

    method UpdateRegister(p: nat, dir: bool, ghost before: seq<bool>)
      requires Separate() && p < |Registers()| && RingHolds(ghist[..], y, before + [dir])
      requires Registers()[p].Holds(before)
      modifies Registers()[p]
      ensures Registers()[p].Holds(before + [dir])
    {
      var r := if p < |h| then h[p] else if p < |h| + |h| then g[p - |h|] else j[p - |h| - |h|];
      assert r == Registers()[p];
      RingEnds(ghist[..], y, before + [dir], r.olength);
      ShiftedKeeps(r.comp, before, r.olength, r.clength, dir);
      r.Update(ghist, y);
    }
  }

  lemma RingEnds(ring: seq<bool>, y: int, bits: seq<bool>, length: nat)
    requires RingHolds(ring, y, bits) && length < RING && |bits| > 0
    ensures ring[y % RING] == bits[|bits| - 1] && ring[(y + length) % RING] == OfAge(bits, length)
  {
    assert ring[(y + 0) % RING] == OfAge(bits, 0);
  }

  /** tage.cc keeps its own global history register, a bitset. */
  class CompressedRegister {
    var compHist: nat
    const geomLength: nat
    const targetLength: nat

    ghost predicate Shaped()
    {
      0 < targetLength < WORD && geomLength < REGISTER
    }

    ghost predicate Holds(bits: seq<bool>)
      reads this
    {
      Shaped() && IsFold(compHist, bits, geomLength, targetLength)
    }

    constructor (geomLength: nat, targetLength: nat)
      requires 0 < targetLength < 32 && geomLength < 131
      ensures Holds([]) && this.geomLength == geomLength && this.targetLength == targetLength
    {
      compHist := 0;
      this.geomLength, this.targetLength := geomLength, targetLength;
      FoldOfNothing(geomLength, targetLength);
    }

    method UpdateCompHist(ghr: seq<bool>)
      requires Shaped() && |ghr| == REGISTER
      modifies this`compHist
      ensures compHist == Compressed(old(compHist), targetLength, geomLength % targetLength, ghr[0], ghr[geomLength])
    {
      var mask := Pow2(targetLength) - 1;
      var mask1 := ShiftLeft(Digit(ghr[geomLength]), geomLength % targetLength, WORD);
      var mask2 := Pow2(targetLength);
      compHist := (ShiftLeft(compHist, 1, WORD) + Digit(ghr[0])) % Pow2(WORD);
      compHist := Xor(compHist, ShiftRight(BitAnd(compHist, mask2), targetLength));
      compHist := Xor(compHist, mask1);
      compHist := BitAnd(compHist, mask);
    }
  }

  /** The bitset holds the most recent outcomes, the newest at bit 0. */
  ghost predicate BitsetHolds(ghr: seq<bool>, bits: seq<bool>) {
    |ghr| == REGISTER && forall age: nat | age < REGISTER :: ghr[age] == OfAge(bits, age)
  }

  class TageHistory {
    var ghr: seq<bool>
    const registers: seq<CompressedRegister>
    ghost var bits: seq<bool>

    ghost function Owned(): set<object> {
      set r | r in registers
    }

    ghost predicate Separate() {
      forall p, q | 0 <= p < q < |registers| :: registers[p] != registers[q]
    }

    ghost predicate Valid()
      reads this, Owned()
    {
      && Separate() && BitsetHolds(ghr, bits)
      && forall p | 0 <= p < |registers| :: registers[p].Holds(bits)
    }

    constructor (registers: seq<CompressedRegister>)
      requires forall p, q | 0 <= p < q < |registers| :: registers[p] != registers[q]
      requires forall p | 0 <= p < |registers| :: registers[p].Holds([])
      ensures Valid() && bits == [] && this.registers == registers
    {
      ghr := seq(REGISTER, _ => false);
      this.registers := registers;
      bits := [];
    }

    method UpdateHistory(taken: bool)
      requires Valid()
      modifies this, Owned()
      ensures Valid() && bits == old(bits) + [taken]
    {
      hide CompressedRegister.Holds, CompressedRegister.Shaped, BitsetHolds;
      ghost var before := bits;
      BitsetStep(ghr, bits, taken);
      ghr := [false] + ghr[..REGISTER - 1];
      if taken {
        ghr := ghr[0 := true];
      }
      assert ghr == [taken] + old(ghr)[..REGISTER - 1];
      bits := bits + [taken];
      var i := 0;
      while i < |registers|
        invariant 0 <= i <= |registers| && bits == before + [taken]
        invariant BitsetHolds(ghr, bits)
        invariant forall p | 0 <= p < |registers| :: registers[p].Holds(if p < i then before + [taken] else before)
      {
        UpdateRegister(registers[i], taken, before);
        i := i + 1;
      }
    }

    method UpdateRegister(r: CompressedRegister, taken: bool, ghost before: seq<bool>)
      requires BitsetHolds(ghr, before + [taken]) && r.Holds(before)
      modifies r
      ensures r.Holds(before + [taken])
    {
      ShiftedKeeps(r.compHist, before, r.geomLength, r.targetLength, taken);
      assert ghr[0] == OfAge(before + [taken], 0);
      r.UpdateCompHist(ghr);
    }
  }

  lemma BitsetStep(ghr: seq<bool>, bits: seq<bool>, taken: bool)
    requires BitsetHolds(ghr, bits)
    ensures |ghr| == REGISTER && BitsetHolds([taken] + ghr[..REGISTER - 1], bits + [taken])
  {
    forall age: nat | 0 < age < REGISTER ensures ghr[age - 1] == OfAge(bits + [taken], age) {
      assert ghr[age - 1] == OfAge(bits, age - 1);
    }
  }

  /** Both predictors hold the same register value for the same outcomes and lengths. */
  lemma SameFold(a: FoldedRegister, b: CompressedRegister, bits: seq<bool>)
    requires a.Holds(bits) && b.Holds(bits) && a.olength == b.geomLength && a.clength == b.targetLength
    ensures a.comp == b.compHist
  {
    FoldUnique(a.comp, b.compHist, bits, a.olength, a.clength);
  }
}
