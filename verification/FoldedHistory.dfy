/** Folded branch history: the cyclic shift registers of branch/tage-sc-l/tage-sc-l.cc and
    branch/tage/tage.cc hold the fold of the most recent history bits.
 */
module FoldedHistory {
  import opened Arithmetic
  import opened Bits

  /** HISTBUFFERLENGTH. */
  const RING := 4096
  /** Bits of an unsigned int. */
  const WORD := 32
  /** Size of the bitset GHR in tage.cc. */
  const REGISTER := 131

  // ---------------------------------------------------------------- the direct fold

  /** The outcome that is `age` branches old; nothing was taken before the start. */
  function OfAge(bits: seq<bool>, age: nat): bool {
    age < |bits| && bits[|bits| - 1 - age]
  }

  /** The exclusive or of those of the most recent `length` bits whose age is `k` modulo `width`. */
  function Fold(bits: seq<bool>, length: nat, width: nat, k: nat): bool
    requires width > 0
  {
    if length == 0 then false
    else Fold(bits, length - 1, width, k) != ((length - 1) % width == k && OfAge(bits, length - 1))
  }

  /** The ages below `length` that fold into bit `k`, where the branch was taken. */
  ghost function TakenAges(bits: seq<bool>, length: nat, width: nat, k: nat): set<nat>
    requires width > 0
  {
    set age: nat | age < length && age % width == k && OfAge(bits, age)
  }

  /** Bit `k` of the fold is the parity of the taken branches whose age is `k` modulo the width. */
  lemma {:induction false} FoldIsParity(bits: seq<bool>, length: nat, width: nat, k: nat)
    requires width > 0
    ensures Fold(bits, length, width, k) <==> |TakenAges(bits, length, width, k)| % 2 == 1
  {
    hide OfAge, Fold, TakenAges;
    if length == 0 {
      NoAges(bits, width, k);
    } else {
      FoldIsParity(bits, length - 1, width, k);
      OneMoreAge(bits, length - 1, length, width, k);
    }
  }

  lemma NoAges(bits: seq<bool>, width: nat, k: nat)
    requires width > 0
    ensures !Fold(bits, 0, width, k) && TakenAges(bits, 0, width, k) == {}
  {
  }

  lemma OneMoreAge(bits: seq<bool>, last: nat, length: nat, width: nat, k: nat)
    requires width > 0 && length == last + 1
    ensures Fold(bits, length, width, k) <==> Fold(bits, last, width, k) != (last % width == k && OfAge(bits, last))
    ensures |TakenAges(bits, length, width, k)|
         == |TakenAges(bits, last, width, k)| + (if last % width == k && OfAge(bits, last) then 1 else 0)
  {
    hide OfAge;
    var fewer := TakenAges(bits, last, width, k);
    assert TakenAges(bits, length, width, k)
        == fewer + (if last % width == k && OfAge(bits, last) then {last} else {});
  }

  /** The bit below `k` in a register of `width` bits that is shifted cyclically. */
  function Below(k: nat, width: nat): nat
    requires k < width
  {
    if k == 0 then width - 1 else k - 1
  }

  lemma NextResidue(n: nat, width: nat, k: nat)
    requires k < width
    ensures (n + 1) % width == k <==> n % width == Below(k, width)
  {
    var q, r := n / width, n % width;
    if r == width - 1 {
      assert n + 1 == width * (q + 1) + 0;
      DivModUnique(n + 1, width, q + 1, 0);
    } else {
      DivModUnique(n + 1, width, q, r + 1);
    }
  }

  /** A new bit moves every age up by one. */
  lemma {:induction false} FoldShifts(bits: seq<bool>, b: bool, length: nat, width: nat, k: nat)
    requires k < width
    ensures Fold(bits + [b], length + 1, width, k)
        <==> Fold(bits, length, width, Below(k, width)) != (k == 0 && b)
  {
    if length == 0 {
      DivModUnique(0, width, 0, 0);
      assert Fold(bits + [b], 1, width, k)
          == (Fold(bits + [b], 0, width, k) != (0 % width == k && OfAge(bits + [b], 0)));
    } else {
      FoldShifts(bits, b, length - 1, width, k);
      NextResidue(length - 1, width, k);
      assert OfAge(bits + [b], length) == OfAge(bits, length - 1);
    }
  }

  /** How the fold changes with one more bit: it rotates, takes in the new bit and drops the one that has
      become `length` old. */
  lemma FoldStep(bits: seq<bool>, b: bool, length: nat, width: nat, k: nat)
    requires k < width
    ensures Fold(bits + [b], length, width, k)
        <==> Fold(bits, length, width, Below(k, width))
             != ((k == 0 && b) != (k == length % width && OfAge(bits + [b], length)))
  {
    FoldShifts(bits, b, length, width, k);
  }

  // ---------------------------------------------------------------- the two shift registers

  /** folded_history::update on the register, the newest bit and the one leaving. */
  function Shifted(comp: nat, width: nat, outPoint: nat, newest: bool, leaving: bool): nat {
    var c1 := Xor(ShiftLeft(comp, 1, WORD), Digit(newest));
    var c2 := Xor(c1, ShiftLeft(Digit(leaving), outPoint, WORD));
    var c3 := Xor(c2, ShiftRight(c2, width));
    BitAnd(c3, Pow2(width) - 1)
  }

  /** CompressedHist::updateCompHist, which adds the new bit and wraps before it drops the old one. */
  function Compressed(comp: nat, width: nat, outPoint: nat, newest: bool, leaving: bool): nat {
    var c1 := (ShiftLeft(comp, 1, WORD) + Digit(newest)) % Pow2(WORD);
    var c2 := Xor(c1, ShiftRight(BitAnd(c1, Pow2(width)), width));
    var c3 := Xor(c2, ShiftLeft(Digit(leaving), outPoint, WORD));
    BitAnd(c3, Pow2(width) - 1)
  }

  lemma ShiftedBit(comp: nat, width: nat, outPoint: nat, newest: bool, leaving: bool, k: nat)
    requires outPoint < width < WORD && comp < Pow2(width) && k < width
    ensures Bit(Shifted(comp, width, outPoint, newest, leaving), k)
        <==> Bit(comp, Below(k, width)) != ((k == 0 && newest) != (k == outPoint && leaving))
  {
    hide Bit, Xor, ShiftLeft, Pow2, BitAnd;
    var c1 := Xor(ShiftLeft(comp, 1, WORD), Digit(newest));
    var c2 := Xor(c1, ShiftLeft(Digit(leaving), outPoint, WORD));
    BitOfMasked(Xor(c2, ShiftRight(c2, width)), width, k);
    BitOfXor(c2, ShiftRight(c2, width), k);
    BitOfShiftRight(c2, width, k);
    forall j | j == k || j == k + width
      ensures Bit(c2, j) <==> (1 <= j < WORD && Bit(comp, j - 1)) != ((j == 0 && newest) != (j == outPoint && leaving))
    {
      ShiftedPart(comp, outPoint, newest, leaving, j);
    }
    if k > 0 {
      HighBits(comp, width, k + width - 1);
    }
  }

  lemma ShiftedPart(comp: nat, outPoint: nat, newest: bool, leaving: bool, j: nat)
    requires outPoint < WORD
    ensures Bit(Xor(Xor(ShiftLeft(comp, 1, WORD), Digit(newest)), ShiftLeft(Digit(leaving), outPoint, WORD)), j)
        <==> (1 <= j < WORD && Bit(comp, j - 1)) != ((j == 0 && newest) != (j == outPoint && leaving))
  {
    hide Bit, Xor, ShiftLeft, Pow2, Digit;
    var c1 := Xor(ShiftLeft(comp, 1, WORD), Digit(newest));
    BitOfXor(c1, ShiftLeft(Digit(leaving), outPoint, WORD), j);
    BitOfXor(ShiftLeft(comp, 1, WORD), Digit(newest), j);
    BitOfShiftLeft(comp, 1, WORD, j);
    BitOfDigit(newest, j);
    BitOfShiftLeft(Digit(leaving), outPoint, WORD, j);
    if j >= outPoint {
      BitOfDigit(leaving, j - outPoint);
    }
  }

  /** Both registers take the same step. */
  lemma CompressedIsShifted(comp: nat, width: nat, outPoint: nat, newest: bool, leaving: bool)
    requires outPoint < width < WORD && comp < Pow2(width)
    ensures Compressed(comp, width, outPoint, newest, leaving) == Shifted(comp, width, outPoint, newest, leaving)
  {
    hide Bit, Xor, ShiftLeft, Pow2, Shifted, Compressed;
    forall k: nat | k < width
      ensures Bit(Compressed(comp, width, outPoint, newest, leaving), k)
           == Bit(Shifted(comp, width, outPoint, newest, leaving), k)
    {
      ShiftedBit(comp, width, outPoint, newest, leaving, k);
      CompressedBit(comp, width, outPoint, newest, leaving, k);
    }
    StepsFit(comp, width, outPoint, newest, leaving);
    BitsDetermine(Compressed(comp, width, outPoint, newest, leaving),
                  Shifted(comp, width, outPoint, newest, leaving), width);
  }

  lemma StepsFit(comp: nat, width: nat, outPoint: nat, newest: bool, leaving: bool)
    ensures Shifted(comp, width, outPoint, newest, leaving) < Pow2(width)
    ensures Compressed(comp, width, outPoint, newest, leaving) < Pow2(width)
  {
    hide Bit, Xor, ShiftLeft, Pow2, BitAnd;
    var c1 := Xor(ShiftLeft(comp, 1, WORD), Digit(newest));
    var c2 := Xor(c1, ShiftLeft(Digit(leaving), outPoint, WORD));
    BitOfMasked(Xor(c2, ShiftRight(c2, width)), width, 0);
    var d1 := (ShiftLeft(comp, 1, WORD) + Digit(newest)) % Pow2(WORD);
    var d2 := Xor(d1, ShiftRight(BitAnd(d1, Pow2(width)), width));
    BitOfMasked(Xor(d2, ShiftLeft(Digit(leaving), outPoint, WORD)), width, 0);
  }

  lemma CompressedBit(comp: nat, width: nat, outPoint: nat, newest: bool, leaving: bool, k: nat)
    requires outPoint < width < WORD && comp < Pow2(width) && k < width
    ensures Bit(Compressed(comp, width, outPoint, newest, leaving), k)
        <==> Bit(comp, Below(k, width)) != ((k == 0 && newest) != (k == outPoint && leaving))
  {
    hide Bit, Xor, ShiftLeft, Pow2, Digit, BitAnd;
    var c1 := (ShiftLeft(comp, 1, WORD) + Digit(newest)) % Pow2(WORD);
    var top := BitAnd(c1, Pow2(width));
    var c2 := Xor(c1, ShiftRight(top, width));
    BitOfMasked(Xor(c2, ShiftLeft(Digit(leaving), outPoint, WORD)), width, k);
    BitOfXor(c2, ShiftLeft(Digit(leaving), outPoint, WORD), k);
    BitOfShiftLeft(Digit(leaving), outPoint, WORD, k);
    if k >= outPoint {
      BitOfDigit(leaving, k - outPoint);
    }
    BitOfXor(c1, ShiftRight(top, width), k);
    BitOfShiftRight(top, width, k);
    BitOfAnd(c1, Pow2(width), k + width);
    BitOfPow2(width, k + width);
    AddedBit(comp, newest, k);
    AddedBit(comp, newest, k + width);
  }

  /** The sum of an even word and a bit has that bit at the bottom. */
  lemma AddedBit(comp: nat, newest: bool, j: nat)
    ensures Bit((ShiftLeft(comp, 1, WORD) + Digit(newest)) % Pow2(WORD), j)
        <==> if j == 0 then newest else j < WORD && Bit(comp, j - 1)
  {
    hide Bit, Pow2, Digit;
    var half := comp % Pow2(WORD - 1);
    DoubledWord(comp, WORD);
    BitOfRemainder(2 * half + Digit(newest), WORD, j);
    DigitBelow(newest);
    BitOfPair(half, Digit(newest), j);
    if j > 0 {
      BitOfRemainder(comp, WORD - 1, j - 1);
    }
  }

  lemma DigitBelow(b: bool)
    ensures Digit(b) < 2 && (Digit(b) == 1 <==> b)
  {
  }

  lemma DoubledWord(comp: nat, width: nat)
    requires width > 0
    ensures ShiftLeft(comp, 1, width) == 2 * (comp % Pow2(width - 1))
  {
    HalfRemainder(2 * comp, Pow2(width - 1));
    assert Pow2(1) == 2;
    assert 2 * comp / 2 == comp && (2 * comp) % 2 == 0;
  }

  // ---------------------------------------------------------------- the register is the fold

  ghost predicate IsFold(comp: nat, bits: seq<bool>, length: nat, width: nat)
    requires width > 0
  {
    && comp < Pow2(width)
    && forall k: nat | k < width :: Bit(comp, k) == Fold(bits, length, width, k)
  }

  /** At most one register value is the fold of a history. */
  lemma FoldUnique(x: nat, y: nat, bits: seq<bool>, length: nat, width: nat)
    requires width > 0 && IsFold(x, bits, length, width) && IsFold(y, bits, length, width)
    ensures x == y
  {
    hide Bit, Fold;
    BitsDetermine(x, y, width);
  }

  lemma {:induction false} FoldOfNothing(length: nat, width: nat)
    requires width > 0
    ensures IsFold(0, [], length, width)
  {
    forall k: nat | k < width ensures Bit(0, k) == Fold([], length, width, k) {
      NoBits(k);
      EmptyFold(length, width, k);
    }
  }

  lemma {:induction false} EmptyFold(length: nat, width: nat, k: nat)
    requires width > 0
    ensures !Fold([], length, width, k)
  {
    if length == 0 {
    } else {
      EmptyFold(length - 1, width, k);
    }
  }

  /** One step of either register follows the fold. */
  lemma ShiftedKeeps(comp: nat, bits: seq<bool>, length: nat, width: nat, b: bool)
    requires 0 < width < WORD && IsFold(comp, bits, length, width)
    ensures IsFold(Shifted(comp, width, length % width, b, OfAge(bits + [b], length)), bits + [b], length, width)
    ensures IsFold(Compressed(comp, width, length % width, b, OfAge(bits + [b], length)), bits + [b], length, width)
  {
    hide Bit, Fold, Shifted, Compressed, OfAge;
    var leaving := OfAge(bits + [b], length);
    var comp' := Shifted(comp, width, length % width, b, leaving);
    forall k: nat | k < width ensures Bit(comp', k) == Fold(bits + [b], length, width, k) {
      ShiftedBit(comp, width, length % width, b, leaving, k);
      FoldStep(bits, b, length, width, k);
    }
    StepsFit(comp, width, length % width, b, leaving);
    CompressedIsShifted(comp, width, length % width, b, leaving);
  }

  /** The register after a whole history, by the updates of the one predictor or the other. */
  function AfterRun(bits: seq<bool>, length: nat, width: nat, adding: bool): nat
    requires width > 0
  {
    if bits == [] then 0 else
    var n := |bits| - 1;
    var comp := AfterRun(bits[..n], length, width, adding);
    if adding then Compressed(comp, width, length % width, bits[n], OfAge(bits, length))
    else Shifted(comp, width, length % width, bits[n], OfAge(bits, length))
  }

  /** After every history the register of either predictor is the direct fold, so both are equal. */
  lemma {:induction false} RunIsFold(bits: seq<bool>, length: nat, width: nat)
    requires 0 < width < 32
    ensures forall adding :: IsFold(AfterRun(bits, length, width, adding), bits, length, width)
    ensures AfterRun(bits, length, width, true) == AfterRun(bits, length, width, false)
  {
    hide IsFold, Shifted, Compressed, OfAge;
    if bits == [] {
      FoldOfNothing(length, width);
    } else {
      var n := |bits| - 1;
      RunIsFold(bits[..n], length, width);
      assert bits[..n] + [bits[n]] == bits;
      ShiftedKeeps(AfterRun(bits[..n], length, width, true), bits[..n], length, width, bits[n]);
    }
    FoldUnique(AfterRun(bits, length, width, true), AfterRun(bits, length, width, false), bits, length, width);
  }
}
