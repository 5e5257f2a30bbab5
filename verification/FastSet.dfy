/** The set of small numbers of inc/set.h: a sorted array of up to twelve values that turns into 512 bits
    at the thirteenth.
 */
module FastSet {
  import opened Arithmetic
  import opened Bits
  import opened Recency

  /** MAX_SIZE, SMALL_SIZE and SMALLER_SIZE. */
  const MAX := 512
  const SMALL := 13
  const SMALLER := 6

  ghost predicate AllBelow(s: seq<nat>, n: int) {
    forall a | 0 <= a < |s| :: s[a] < n
  }

  /** The numbers below `n` whose bits are set in the words. */
  ghost function BitMembers(words: seq<nat>, n: nat): set<nat>
    requires n <= 64 * |words|
  {
    set x: nat | x < n && Bit(words[x / 64], x % 64)
  }

  ghost predicate WordsOk(words: seq<nat>) {
    |words| == MAX / 64 && forall w | 0 <= w < |words| :: words[w] < Pow2(64)
  }

  lemma {:induction false} RisingSize(s: seq<nat>)
    requires Rising(s)
    ensures |Elements(s)| == |s|
  {
    assert s[..|s|] == s;
    PrefixSize(s, |s|);
  }

  /** A value put in its place keeps the array rising. */
  lemma {:induction false} PlacedRising(s: seq<nat>, i: nat, x: nat)
    requires Rising(s) && i <= |s| && (forall k | 0 <= k < i :: s[k] < x) && (i < |s| ==> x < s[i])
    ensures Rising(s[..i] + [x] + s[i..]) && Elements(s[..i] + [x] + s[i..]) == Elements(s) + {x}
    ensures x !in s
  {
    var t := s[..i] + [x] + s[i..];
    forall y ensures y in t <==> y in s || y == x {
      if y in s {
        var k :| 0 <= k < |s| && s[k] == y;
        assert t[if k < i then k else k + 1] == y;
      } else if y == x {
        assert t[i] == x;
      }
    }
  }

  /** A value written into the gap that shifting leaves. */
  lemma Assembled(v: seq<nat>, i: nat, x: nat, n: nat, s: seq<nat>)
    requires i < n <= |v| && i <= |s| && v[..i] == s[..i] && v[i + 1..n] == s[i..]
    ensures v[i := x][..n] == s[..i] + [x] + s[i..]
  {
    var w := v[i := x];
    assert w[..i] == v[..i] && w[i + 1..n] == v[i + 1..n];
    assert w[..n] == w[..i] + [w[i]] + w[i + 1..n];
  }

  /** Setting one bit adds one number. */
  lemma {:induction false} SetBitAdds(words: seq<nat>, x: nat)
    requires WordsOk(words) && x < MAX
    ensures var words' := words[x / 64 := Or(words[x / 64], ShiftLeft(1, x % 64, 64))];
            WordsOk(words') && BitMembers(words', MAX) == BitMembers(words, MAX) + {x}
  {
    hide Bit, Or, ShiftLeft, Pow2;
    var words' := words[x / 64 := Or(words[x / 64], ShiftLeft(1, x % 64, 64))];
    forall y: nat | y < MAX
      ensures Bit(words'[y / 64], y % 64) <==> Bit(words[y / 64], y % 64) || y == x
    {
      if y / 64 == x / 64 {
        BitOfOr(words[x / 64], ShiftLeft(1, x % 64, 64), y % 64);
        SingleBit(x % 64, y % 64);
      }
    }
    ShiftFits(x % 64);
    OrFits(words[x / 64], ShiftLeft(1, x % 64, 64), 64);
  }

  lemma SingleBit(s: nat, k: nat)
    requires s < 64 && k < 64
    ensures Bit(ShiftLeft(1, s, 64), k) <==> k == s
  {
    hide Bit, ShiftLeft;
    BitOfShiftLeft(1, s, 64, k);
    if k >= s {
      BitOfDigit(true, k - s);
    }
  }

  lemma ShiftFits(s: nat)
    ensures ShiftLeft(1, s, 64) < Pow2(64)
  {
    hide Pow2;
  }

  lemma {:induction false} OrFits(x: nat, y: nat, n: nat)
    requires x < Pow2(n) && y < Pow2(n)
    ensures Or(x, y) < Pow2(n)
  {
    if n == 0 {
    } else {
      assert Pow2(n) == 2 * Pow2(n - 1);
      OrFits(x / 2, y / 2, n - 1);
    }
  }

  lemma {:induction false} NoWordNoMember(words: seq<nat>, w: nat)
    requires WordsOk(words) && w < |words| && words[w] == 0
    ensures forall x: nat | x < MAX && x / 64 == w :: !Bit(words[x / 64], x % 64)
  {
    forall x: nat | x < MAX && x / 64 == w ensures !Bit(words[x / 64], x % 64) {
      NoBits(x % 64);
    }
  }

  lemma {:induction false} NoWords()
    ensures WordsOk(seq(MAX / 64, _ => 0)) && BitMembers(seq(MAX / 64, _ => 0), MAX) == {}
  {
    forall x: nat | x < MAX ensures !Bit(seq(MAX / 64, _ => 0)[x / 64], x % 64) {
      NoBits(x % 64);
    }
  }

  /** The multiple of `p` at or below `x`. */
  function RoundDown(x: nat, p: nat): nat
    requires p > 0
  {
    x / p * p
  }

  lemma HalfRoundDown(x: nat, p: nat)
    requires p > 0
    ensures RoundDown(x, 2 * p) == 2 * RoundDown(x / 2, p)
  {
    HalfQuotient(x, p);
    var q := (x / 2) / p;
    assert q * (2 * p) == 2 * (q * p);
  }

  /** Filling the low bits rounds up to the next multiple, less one. */
  lemma {:induction false} OrMask(x: nat, k: nat)
    ensures Or(x, Pow2(k) - 1) == RoundDown(x, Pow2(k)) + Pow2(k) - 1
  {
    if k == 0 {
      OrZero(x);
    } else {
      var p := Pow2(k - 1);
      assert Pow2(k) == 2 * p;
      hide Or, Pow2, RoundDown;
      OrMask(x / 2, k - 1);
      OrOdd(x, p);
      HalfRoundDown(x, p);
    }
  }

  lemma HalfAndOdd(p: nat)
    requires p > 0
    ensures (2 * p - 1) / 2 == p - 1 && (2 * p - 1) % 2 == 1
  {
  }

  lemma OrOdd(x: nat, p: nat)
    requires p > 0
    ensures Or(x, 2 * p - 1) == 2 * Or(x / 2, p - 1) + 1
  {
    HalfAndOdd(p);
  }

  lemma {:induction false} OrZero(x: nat)
    ensures Or(x, 0) == x
  {
    if x == 0 {
    } else {
      OrZero(x / 2);
    }
  }

  class Set {
    const values: array<nat>
    const bits: array<nat>
    var card: nat

    ghost predicate Valid()
      reads this, values, bits
    {
      && values.Length == SMALL && bits.Length == MAX / 64 && values != bits && card <= SMALL
      && (card < SMALL ==> Rising(values[..card]) && AllBelow(values[..card], MAX))
      && (card == SMALL ==> WordsOk(bits[..]))
    }

    ghost function Members(): set<nat>
      requires Valid()
      reads this, values, bits
    {
      if card < SMALL then Elements(values[..card]) else BitMembers(bits[..], MAX)
    }

    /** The count is exact until it reaches 13, and then it stays. */
    ghost predicate Counted(before: nat)
      requires Valid()
      reads this, values, bits
    {
      card == if before == 13 || |Members()| >= 13 then 13 else |Members()|
    }

    constructor ()
      ensures Valid() && Members() == {} && card == 0 && fresh(values) && fresh(bits)
    {
      values := new nat[SMALL];
      bits := new nat[MAX / 64];
      card := 0;
    }

    method SetBit(x: nat)
      requires WordsOk(bits[..]) && x < MAX
      modifies bits
      ensures WordsOk(bits[..]) && BitMembers(bits[..], MAX) == BitMembers(old(bits[..]), MAX) + {x}
    {
      SetBitAdds(bits[..], x);
      ghost var before := bits[..];
      var word, bit := x / 64, x % 64;
      bits[word] := Or(bits[word], ShiftLeft(1, bit, 64));
      assert bits[..] == before[word := Or(before[word], ShiftLeft(1, bit, 64))];
    }

    method GetBit(x: nat) returns (b: bool)
      requires WordsOk(bits[..]) && x < MAX
      ensures b <==> x in BitMembers(bits[..], MAX)
    {
      var word, bit := x / 64, x % 64;
      BitOfShiftRight(bits[word], bit, 0);
      b := ShiftRight(bits[word], bit) % 2 == 1;
    }

    /** Insertion into the sorted array; a value that is present changes nothing. */
    method InsertSmall(x: nat)
      requires values.Length == SMALL && card < SMALL && Rising(values[..card])
      modifies this`card, values
      ensures card <= SMALL && Rising(values[..card]) && Elements(values[..card]) == Elements(old(values[..card])) + {x}
      ensures card == old(card) + (if x in old(values[..card]) then 0 else 1)
      ensures x in old(values[..card]) ==> values[..] == old(values[..])
    {
      hide Rising, Elements;
      ghost var s := values[..card];
      var i := 0;
      while i < card
        invariant 0 <= i <= card && forall k | 0 <= k < i :: s[k] < x
      {
        var y := values[i];
        assert y == s[i];
        if y == x {
          Present(s, i);
          return;
        }
        if y > x {
          break;
        }
        i := i + 1;
      }
      PlacedRising(s, i, x);
      ShiftFrom(i);
      ghost var v := values[..];
      assert v[..i] == s[..i] && v[i + 1..card + 1] == s[i..];
      values[i] := x;
      card := card + 1;
      assert values[..] == v[i := x];
      assert values[..card] == values[..][..card];
      Assembled(v, i, x, card, s);
    }

    /** The values from place `i` on move up by one. */
    method ShiftFrom(i: nat)
      requires i <= card < values.Length
      modifies values
      ensures values[..i] == old(values[..i]) && values[i + 1..card + 1] == old(values[i..card])
    {
      ghost var s := values[..card];
      var j: int := card - 1;
      while j >= i
        invariant i - 1 <= j < card == |s|
        invariant forall k | 0 <= k <= j :: values[k] == s[k]
        invariant forall k | j + 1 < k <= card :: values[k] == s[k - 1]
      {
        values[j + 1] := values[j];
        j := j - 1;
      }
      ghost var moved := values[i + 1..card + 1];
      forall k | 0 <= k < |moved| ensures moved[k] == s[i..card][k] {
        assert values[i + 1 + k] == s[i + k];
      }
      assert moved == s[i..card];
      assert values[..i] == s[..i];
    }

    method SearchSmallLinear(x: nat) returns (found: bool)
      requires card <= values.Length && Rising(values[..card])
      ensures found <==> x in values[..card]
    {
      ghost var s := values[..card];
      var i := 0;
      while i < card
        invariant 0 <= i <= card && forall k | 0 <= k < i :: s[k] < x
      {
        var y := values[i];
        assert y == s[i];
        if y > x {
          return false;
        }
        if y == x {
          return true;
        }
        i := i + 1;
      }
      return false;
    }

    method SearchSmall(x: nat) returns (found: bool)
      requires card <= values.Length && Rising(values[..card])
      ensures found <==> x in values[..card]
    {
      if card == 0 {
        return false;
      }
      if card < SMALLER {
        found := SearchSmallLinear(x);
        return;
      }
      ghost var s := values[..card];
      var begin, end: int, middle := 0, card - 1, (card - 1) / 2;
      while true
        invariant 0 <= begin <= middle <= end < card
        invariant forall k | 0 <= k < begin :: s[k] < x
        invariant forall k | end < k < card :: x < s[k]
        decreases end - begin
      {
        var y := values[middle];
        assert y == s[middle];
        if x < y {
          end := middle - 1;
        } else if x > y {
          begin := middle + 1;
        } else {
          return true;
        }
        if end < begin {
          break;
        }
        middle := (begin + end) / 2;
      }
      return false;
    }

    /** The switch from values to bits. */
    method SmallToBit()
      requires values.Length == SMALL && bits.Length == MAX / 64 && card <= SMALL && AllBelow(values[..card], MAX)
      modifies bits
      ensures WordsOk(bits[..]) && BitMembers(bits[..], MAX) == Elements(values[..card])
    {
      var w := 0;
      while w < MAX / 64
        invariant 0 <= w <= MAX / 64 && forall k | 0 <= k < w :: bits[k] == 0
      {
        bits[w] := 0;
        w := w + 1;
      }
      assert bits[..] == seq(MAX / 64, _ => 0);
      NoWords();
      var i := 0;
      while i < card
        invariant 0 <= i <= card && WordsOk(bits[..]) && BitMembers(bits[..], MAX) == Elements(values[..i])
      {
        assert values[i] == values[..card][i];
        SetBit(values[i]);
        assert values[..i + 1] == values[..i] + [values[i]];
        i := i + 1;
      }
    }

    method Insert(x: nat)
      requires Valid() && x < 512
      modifies this, values, bits
      ensures Valid() && Members() == old(Members()) + {x}
      ensures Counted(old(card))
      ensures old(card) < SMALL && x in old(Members()) ==> card == old(card) && values[..] == old(values[..])
    {
      hide Rising, AllBelow, WordsOk, BitMembers, Elements;
      if card == 0 {
        values[card] := x;
        card := card + 1;
        assert values[..1] == [x];
        NoElements();
        Singleton(x);
        return;
      }
      if card < SMALL {
        ghost var s := values[..card];
        InsertSmall(x);
        StillBelow(s, x, values[..card], MAX);
        RisingSize(values[..card]);
        if card == SMALL {
          SmallToBit();
        }
      } else {
        SetBit(x);
      }
    }

    method Search(x: nat) returns (found: bool)
      requires Valid() && x < 512
      ensures found <==> x in Members()
    {
      if card == 0 {
        return false;
      }
      if card == 1 {
        return values[0] == x;
      }
      if card < SMALL {
        found := SearchSmall(x);
        return;
      }
      found := GetBit(x);
    }

    /** Different sets have different arrays. */
    ghost predicate Apart(other: Set) {
      other == this || {other.values, other.bits} !! {values, bits}
    }

    /** The union with another set; of a large one only the words that `n` reaches are taken. */
    method Join(other: Set, n: nat)
      requires Valid() && other.Valid() && Apart(other) && n < 512
      modifies this, values, bits
      ensures Valid()
      ensures Members() == old(Members()) + (if old(other.card) < SMALL then old(other.Members())
                                             else ReachedBy(old(other.Members()), n))
      ensures Counted(if old(other.card) == SMALL then SMALL else old(card))
    {
      if other.card == 0 {
        if card < SMALL {
          RisingSize(values[..card]);
        }
        return;
      }
      if other.card < SMALL {
        JoinSmall(other);
        return;
      } else if card < SMALL {
        SmallToBit();
        card := SMALL;
      }
      JoinWords(other, n);
    }

    /** The words of the other set, or-ed into this one. */
    method JoinWords(other: Set, n: nat)
      requires Valid() && other.Valid() && card == SMALL == other.card && n < MAX
      requires Apart(other)
      modifies bits
      ensures Valid() && Members() == old(Members()) + ReachedBy(old(other.Members()), n)
    {
      hide Bit, Or, Pow2, BitMembers, ReachedBy;
      var lim := (Or(n, 63) + 1) / 64;
      LimitIs(n);
      ghost var before, others := bits[..], other.bits[..];
      var i := 0;
      while i < lim
        invariant 0 <= i <= lim && card == SMALL && WordsOk(bits[..])
        invariant forall k | 0 <= k < i :: bits[k] == Or(before[k], others[k])
        invariant forall k | i <= k < bits.Length :: bits[k] == before[k] && other.bits[k] == others[k]
      {
        assert bits[..][i] == before[i] && other.bits[i] == others[i];
        assert before[i] < Pow2(64);
        assert others[i] < Pow2(64);
        OrFits(before[i], others[i], 64);
        bits[i] := Or(bits[i], other.bits[i]);
        i := i + 1;
      }
      OredWords(before, others, bits[..], n);
    }

    method JoinSmall(other: Set)
      requires Valid() && other.Valid() && Apart(other) && 0 < other.card < SMALL
      modifies this, values, bits
      ensures Valid() && Members() == old(Members()) + old(other.Members())
      ensures Counted(old(card))
    {
      hide Valid, Members, Joining, Apart, Elements, Counted;
      ghost var before, mine := card, Members();
      StartJoining(other);
      ghost var others := other.values[..other.card];
      var i := 0;
      while i < other.card
        invariant Valid() && Joining(other, others)
        invariant 0 <= i <= |others| == other.card
        invariant Members() == mine + Elements(others[..i])
        invariant Counted(before)
      {
        ElementsNext(others, i);
        JoinOne(other, i, others, before);
        i := i + 1;
      }
      assert others[..i] == others;
    }

    /** The other set still holds the values that are being inserted. */
    ghost predicate Joining(other: Set, others: seq<nat>)
      requires Valid()
      reads this, values, bits, other, other.values
    {
      && Apart(other) && other.card == |others| < SMALL == other.values.Length && other.values[..other.card] == others
      && AllBelow(others, MAX) && (this == other ==> Members() == Elements(others))
    }

    lemma StartJoining(other: Set)
      requires Valid() && other.Valid() && Apart(other) && 0 < other.card < SMALL
      ensures Joining(other, other.values[..other.card])
      ensures other.card < SMALL == other.values.Length && other.Members() == Elements(other.values[..other.card])
      ensures Elements([]) == {} && Counted(card)
    {
      hide Rising, WordsOk, BitMembers, Elements, AllBelow;
      NoElements();
      if card < SMALL {
        RisingSize(values[..card]);
      }
    }

    method JoinOne(other: Set, i: nat, ghost others: seq<nat>, ghost before: nat)
      requires Valid() && Joining(other, others) && i < |others| && Counted(before)
      modifies this, values, bits
      ensures Valid() && Joining(other, others) && Members() == old(Members()) + {others[i]}
      ensures other.card == |others|
      ensures Counted(before)
    {
      hide Rising, WordsOk, BitMembers;
      assert others[i] in Elements(others);
      assert other.values[i] == other.values[..other.card][i];
      assert other.values[i] < MAX;
      hide AllBelow, Elements;
      ghost var now := Members();
      Insert(other.values[i]);
      SubsetSize(now, Members());
      assert this == other ==> Members() == old(Members());
      assert other.values[..other.card] == others by {
        if other == this {
          assert values[..card] == values[..][..card];
          assert old(values[..card]) == old(values[..])[..card];
        }
      }
    }

    /** The members below `n` in rising order, in front of `v`; a small set is copied whole. */
    method Expand(v: array<nat>, n: nat) returns (k: nat)
      requires Valid() && n <= 512 && n <= v.Length && (card < 13 ==> card <= v.Length)
      requires v != values && v != bits
      modifies v
      ensures k <= v.Length && Rising(v[..k])
      ensures Elements(v[..k]) == if card < 13 then Members() else set x | x in Members() && x < n
      ensures (forall x | x in Members() :: x < n) ==> v[..k] == InOrder(Members(), n)
    {
      hide Rising, AllBelow, Elements, WordsOk, BitMembers;
      if card == 0 {
        k := 0;
        assert v[..0] == values[..0];
      } else if card < SMALL {
        k := CopySmall(v);
      } else {
        k := ExpandBits(v, n);
        MembersUpTo(bits[..], n);
      }
      if forall x | x in Members() :: x < n {
        Listed(v[..k], Members(), n);
      }
    }

    /** A small set is copied. */
    method CopySmall(v: array<nat>) returns (k: nat)
      requires card <= values.Length && card <= v.Length && v != values
      modifies v
      ensures k == card && v[..k] == values[..card]
    {
      k := 0;
      while k < card
        invariant k <= card && v[..k] == values[..k]
      {
        v[k] := values[k];
        k := k + 1;
      }
    }

    method ExpandBits(v: array<nat>, n: nat) returns (k: nat)
      requires Valid() && card == SMALL && n <= MAX && n <= v.Length && v != values && v != bits
      modifies v
      ensures k <= v.Length && Collected(v[..k], bits[..], n)
    {
      hide Rising, Elements, BitMembers, Bit;
      NothingCollected(bits[..]);
      k := 0;
      assert v[..0] == [];
      var i := 0;
      while i < n
        invariant i % 64 == 0 && i < n + 64 && k <= i && k <= n && Collected(v[..k], bits[..], if i < n then i else n)
      {
        if bits[i / 64] != 0 {
          k := ExpandWord(v, n, i, k);
        } else {
          EmptyWord(v[..k], bits[..], i, if i + 64 < n then i + 64 else n);
        }
        i := i + 64;
      }
    }

    /** One word of 64 members. */
    method ExpandWord(v: array<nat>, n: nat, i: nat, k0: nat) returns (k: nat)
      requires Valid() && card == SMALL && n <= MAX && n <= v.Length && v != values && v != bits
      requires i % 64 == 0 && i < n && k0 <= i && Collected(v[..k0], bits[..], i)
      modifies v
      ensures k <= i + 64 && k <= n && Collected(v[..k], bits[..], if i + 64 < n then i + 64 else n)
    {
      k := k0;
      var j := 0;
      while j < 64
        invariant 0 <= j <= 64 && k <= i + j && k <= n && i + j <= n
        invariant Collected(v[..k], bits[..], i + j)
      {
        var l := i + j;
        if l >= n {
          break;
        }
        var b := GetBit(l);
        Collect(v[..k], bits[..], l);
        if b {
          v[k] := l;
          k := k + 1;
          assert v[..k] == v[..k - 1] + [l];
        }
        j := j + 1;
      }
    }
  }

  /** The members that `n` lets a join of words reach. */
  ghost function ReachedBy(members: set<nat>, n: nat): set<nat> {
    set x | x in members && x < 64 * (n / 64 + 1)
  }

  lemma LimitIs(n: nat)
    ensures (Or(n, 63) + 1) / 64 == n / 64 + 1
  {
    hide Or, Pow2;
    OrMask(n, 6);
    SixtyFour();
    var q := n / 64;
    assert Or(n, 63) + 1 == 64 * (q + 1) + 0;
    DivModUnique(Or(n, 63) + 1, 64, q + 1, 0);
  }

  lemma SixtyFour()
    ensures Pow2(6) == 64
  {
    assert Pow2(3) == 8;
  }

  lemma {:induction false} OredWords(before: seq<nat>, others: seq<nat>, after: seq<nat>, n: nat)
    requires WordsOk(before) && WordsOk(others) && WordsOk(after) && n < MAX
    requires forall k | 0 <= k < n / 64 + 1 :: after[k] == Or(before[k], others[k])
    requires forall k | n / 64 + 1 <= k < |after| :: after[k] == before[k]
    ensures BitMembers(after, MAX) == BitMembers(before, MAX) + ReachedBy(BitMembers(others, MAX), n)
  {
    forall x: nat | x < MAX
      ensures Bit(after[x / 64], x % 64)
          <==> Bit(before[x / 64], x % 64) || (x < 64 * (n / 64 + 1) && Bit(others[x / 64], x % 64))
    {
      BitOfOr(before[x / 64], others[x / 64], x % 64);
    }
  }

  /** The rising list holds the members below `n`. */
  ghost predicate Collected(list: seq<nat>, words: seq<nat>, n: nat) {
    n <= 64 * |words| && Rising(list) && Elements(list) == BitMembers(words, n)
  }

  lemma NothingCollected(words: seq<nat>)
    ensures Collected([], words, 0)
  {
    assert BitMembers(words, 0) == {};
  }

  lemma EmptyWord(list: seq<nat>, words: seq<nat>, i: nat, next: nat)
    requires WordsOk(words) && Collected(list, words, i) && i < next <= i + 64 && next <= MAX && i % 64 == 0
    requires words[i / 64] == 0
    ensures Collected(list, words, next)
  {
    hide Bit;
    NoWordNoMember(words, i / 64);
    assert BitMembers(words, next) == BitMembers(words, i);
  }

  lemma Collect(list: seq<nat>, words: seq<nat>, l: nat)
    requires Collected(list, words, l) && l < 64 * |words|
    ensures Collected(if Bit(words[l / 64], l % 64) then list + [l] else list, words, l + 1)
  {
    hide Bit;
    MoreMembers(words, l);
    ElementsSnoc(list, l);
    hide BitMembers;
    if Bit(words[l / 64], l % 64) {
      forall a | 0 <= a < |list| ensures list[a] < l {
        assert list[a] in Elements(list);
        MemberBelow(words, l, list[a]);
      }
    }
  }

  lemma MoreMembers(words: seq<nat>, l: nat)
    requires l < 64 * |words|
    ensures BitMembers(words, l + 1) == BitMembers(words, l) + (if Bit(words[l / 64], l % 64) then {l} else {})
  {
    hide Bit;
  }

  lemma MemberBelow(words: seq<nat>, n: nat, x: nat)
    requires n <= 64 * |words| && x in BitMembers(words, n)
    ensures x < n
  {
    hide Bit;
  }

  lemma ElementsNext(s: seq<nat>, i: nat)
    requires i < |s|
    ensures Elements(s[..i + 1]) == Elements(s[..i]) + {s[i]}
  {
    assert s[..i + 1] == s[..i] + [s[i]];
    ElementsSnoc(s[..i], s[i]);
  }

  lemma Present(s: seq<nat>, i: nat)
    requires i < |s|
    ensures s[i] in s && Elements(s) == Elements(s) + {s[i]}
  {
  }

  lemma NoElements()
    ensures Elements([]) == {}
  {
  }

  lemma Singleton(x: nat)
    requires x < MAX
    ensures Rising([x]) && AllBelow([x], MAX) && Elements([x]) == {x} && |Elements([x])| == 1
  {
    assert Elements([x]) == {x};
  }

  lemma StillBelow(s: seq<nat>, x: nat, t: seq<nat>, n: nat)
    requires AllBelow(s, n) && x < n && Elements(t) == Elements(s) + {x}
    ensures AllBelow(t, n)
  {
    forall a | 0 <= a < |t| ensures t[a] < n {
      assert t[a] in Elements(t);
    }
  }

  lemma ElementsSnoc(s: seq<nat>, x: nat)
    ensures Elements(s + [x]) == Elements(s) + {x}
  {
    forall y ensures y in s + [x] <==> y in s || y == x {
    }
  }

  /** A join of large sets is the union if and only if every new member is in a word that `n` reaches; members
      below `n` always are. */
  lemma JoinIsUnion(mine: set<nat>, others: set<nat>, n: nat)
    ensures mine + ReachedBy(others, n) == mine + others
       <==> forall x | x in others - mine :: x < 64 * (n / 64 + 1)
    ensures (forall x | x in others :: x < n) ==> ReachedBy(others, n) == others
  {
    if mine + ReachedBy(others, n) == mine + others {
      forall x | x in others - mine ensures x < 64 * (n / 64 + 1) {
        assert x in mine + ReachedBy(others, n);
      }
    }
    if forall x | x in others - mine :: x < 64 * (n / 64 + 1) {
      forall x ensures x in mine + ReachedBy(others, n) <==> x in mine + others {
        assert x in others && x !in mine ==> x in others - mine;
      }
    }
  }

  /** What expand() lists is the walk through 0, ..., n - 1 that stops at the members. */
  lemma {:induction false} ExpandIsWalk(list: seq<nat>, n: nat)
    requires Rising(list) && AllBelow(list, n)
    ensures list == InOrder(Elements(list), n)
  {
    hide Rising, AllBelow, Elements, InOrder;
    OrderNext(Elements(list), n);
    if n == 0 {
      FirstBelow(list, n);
    } else {
      LastIsLargest(list, n);
      if list != [] && list[|list| - 1] == n - 1 {
        var shorter := list[..|list| - 1];
        assert list == shorter + [n - 1];
        ElementsSnoc(shorter, n - 1);
        ExpandIsWalk(shorter, n - 1);
        SameWalk(Elements(shorter), Elements(list), n - 1);
      } else {
        ExpandIsWalk(list, n - 1);
      }
    }
  }

  lemma OrderNext(members: set<nat>, n: nat)
    ensures InOrder(members, n)
         == if n == 0 then [] else InOrder(members, n - 1) + (if n - 1 in members then [n - 1] else [])
  {
  }

  lemma FirstBelow(list: seq<nat>, n: nat)
    requires AllBelow(list, n)
    ensures list != [] ==> n > 0
  {
    if list != [] {
      assert list[0] < n;
    }
  }

  lemma MembersUpTo(words: seq<nat>, n: nat)
    requires n <= MAX <= 64 * |words|
    ensures (set x | x in BitMembers(words, MAX) && x < n) == BitMembers(words, n)
  {
    hide Bit;
  }

  lemma Listed(list: seq<nat>, members: set<nat>, n: nat)
    requires Rising(list) && forall x | x in members :: x < n
    requires Elements(list) == members || Elements(list) == set x | x in members && x < n
    ensures list == InOrder(members, n)
  {
    ListBelow(list, members, n);
    ExpandIsWalk(list, n);
    assert (set x | x in members && x < n) == members;
  }

  lemma ListBelow(list: seq<nat>, members: set<nat>, n: nat)
    requires Elements(list) <= members && forall x | x in members :: x < n
    ensures AllBelow(list, n)
  {
    forall a | 0 <= a < |list| ensures list[a] < n {
      assert list[a] in Elements(list);
    }
  }

  /** Only the last element can be the largest number below `n`. */
  lemma LastIsLargest(list: seq<nat>, n: nat)
    requires n > 0 && Rising(list) && AllBelow(list, n)
    ensures if list != [] && list[|list| - 1] == n - 1
            then Rising(list[..|list| - 1]) && AllBelow(list[..|list| - 1], n - 1)
            else AllBelow(list, n - 1) && n - 1 !in Elements(list)
  {
    forall a | 0 <= a < |list| - 1 ensures list[a] < n - 1 {
      assert list[a] < list[|list| - 1];
    }
  }

  lemma {:induction false} SameWalk(a: set<nat>, b: set<nat>, n: nat)
    requires forall x: nat | x < n :: x in a <==> x in b
    ensures InOrder(a, n) == InOrder(b, n)
  {
    if n == 0 {
    } else {
      SameWalk(a, b, n - 1);
    }
  }
}
