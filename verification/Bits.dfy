/** The bits of natural numbers: exclusive or, or, shifts and masks of machine words. */
module Bits {
  import opened Arithmetic

  function Bit(x: nat, k: nat): bool {
    if k == 0 then x % 2 == 1 else Bit(x / 2, k - 1)
  }

  function Digit(b: bool): nat {
    if b then 1 else 0
  }

  function Xor(x: nat, y: nat): nat
    decreases x + y
  {
    if x == 0 && y == 0 then 0 else 2 * Xor(x / 2, y / 2) + Digit(x % 2 != y % 2)
  }

  function Or(x: nat, y: nat): nat
    decreases x + y
  {
    if x == 0 && y == 0 then 0 else 2 * Or(x / 2, y / 2) + Digit(x % 2 == 1 || y % 2 == 1)
  }

  /** Left shift in words of `width` bits. */
  function ShiftLeft(x: nat, s: nat, width: nat): nat {
    (x * Pow2(s)) % Pow2(width)
  }

  /** Right shift: `s` halvings. */
  function ShiftRight(x: nat, s: nat): nat {
    if s == 0 then x else ShiftRight(x / 2, s - 1)
  }

  lemma {:induction false} NoBits(k: nat)
    ensures !Bit(0, k)
  {
    if k == 0 {
    } else {
      NoBits(k - 1);
    }
  }

  /** The bits of a double with a lowest bit. */
  lemma {:induction false} BitOfPair(q: nat, r: nat, k: nat)
    requires r < 2
    ensures Bit(2 * q + r, k) == if k == 0 then r == 1 else Bit(q, k - 1)
  {
    DivModUnique(2 * q + r, 2, q, r);
  }

  lemma {:induction false} BitOfDigit(b: bool, k: nat)
    ensures Bit(Digit(b), k) <==> b && k == 0
  {
    if k > 0 {
      NoBits(k - 1);
    }
  }

  lemma {:induction false} BitOfXor(x: nat, y: nat, k: nat)
    ensures Bit(Xor(x, y), k) <==> Bit(x, k) != Bit(y, k)
  {
    if x == 0 && y == 0 {
      NoBits(k);
    } else if k > 0 {
      BitOfXor(x / 2, y / 2, k - 1);
    }
  }

  lemma {:induction false} BitOfOr(x: nat, y: nat, k: nat)
    ensures Bit(Or(x, y), k) <==> Bit(x, k) || Bit(y, k)
  {
    if x == 0 && y == 0 {
      NoBits(k);
    } else if k > 0 {
      BitOfOr(x / 2, y / 2, k - 1);
    }
  }

  lemma {:induction false} BitOfAnd(x: nat, y: nat, k: nat)
    ensures Bit(BitAnd(x, y), k) <==> Bit(x, k) && Bit(y, k)
  {
    if x == 0 || y == 0 {
      NoBits(k);
    } else if k > 0 {
      BitOfAnd(x / 2, y / 2, k - 1);
    }
  }

  lemma {:induction false} BitOfRemainder(x: nat, n: nat, k: nat)
    ensures Bit(x % Pow2(n), k) <==> k < n && Bit(x, k)
  {
    if n == 0 {
      NoBits(k);
    } else {
      var p := Pow2(n - 1);
      HalfRemainder(x, p);
      assert Pow2(n) == 2 * p;
      hide Pow2, Bit;
      BitOfPair((x / 2) % p, x % 2, k);
      BitOfPair(x / 2, x % 2, k);
      if k > 0 {
        BitOfRemainder(x / 2, n - 1, k - 1);
      }
    }
  }

  lemma {:induction false} BitOfProduct(x: nat, s: nat, k: nat)
    ensures Bit(x * Pow2(s), k) <==> k >= s && Bit(x, k - s)
  {
    if s == 0 {
    } else {
      var half := x * Pow2(s - 1);
      assert x * Pow2(s) == 2 * half;
      if k > 0 {
        BitOfProduct(x, s - 1, k - 1);
      }
    }
  }

  lemma {:induction false} BitOfShiftRight(x: nat, s: nat, k: nat)
    ensures Bit(ShiftRight(x, s), k) == Bit(x, k + s)
  {
    if s == 0 {
    } else {
      BitOfShiftRight(x / 2, s - 1, k);
    }
  }

  lemma BitOfShiftLeft(x: nat, s: nat, width: nat, k: nat)
    ensures Bit(ShiftLeft(x, s, width), k) <==> s <= k < width && Bit(x, k - s)
  {
    BitOfRemainder(x * Pow2(s), width, k);
    BitOfProduct(x, s, k);
  }

  lemma BitOfMasked(x: nat, n: nat, k: nat)
    ensures Bit(BitAnd(x, Pow2(n) - 1), k) <==> k < n && Bit(x, k)
    ensures BitAnd(x, Pow2(n) - 1) < Pow2(n)
  {
    MaskIsRemainder(x, n);
    BitOfRemainder(x, n, k);
  }

  lemma BitOfPow2(n: nat, k: nat)
    ensures Bit(Pow2(n), k) <==> k == n
  {
    BitOfProduct(1, n, k);
    if k >= n {
      BitOfDigit(true, k - n);
    }
  }

  lemma HighBits(x: nat, n: nat, k: nat)
    requires x < Pow2(n) && k >= n
    ensures !Bit(x, k)
  {
    DivModUnique(x, Pow2(n), 0, x);
    BitOfRemainder(x, n, k);
  }

  /** A number below 2^n is its n lowest bits. */
  lemma {:induction false} BitsDetermine(x: nat, y: nat, n: nat)
    requires x < Pow2(n) && y < Pow2(n) && forall k: nat | k < n :: Bit(x, k) == Bit(y, k)
    ensures x == y
  {
    if n == 0 {
    } else {
      assert Bit(x, 0) == Bit(y, 0);
      forall k: nat | k < n - 1 ensures Bit(x / 2, k) == Bit(y / 2, k) {
        assert Bit(x, k + 1) == Bit(y, k + 1);
      }
      BitsDetermine(x / 2, y / 2, n - 1);
    }
  }

  lemma {:induction false} ShiftIsQuotient(x: nat, k: nat)
    ensures ShiftRight(x, k) == x / Pow2(k)
  {
    if k == 0 {
    } else {
      ShiftIsQuotient(x / 2, k - 1);
      HalfQuotient(x, Pow2(k - 1));
    }
  }

  /** The bits from `low` on, `width` of them, are the same. */
  ghost predicate SameBits(a: nat, b: nat, low: nat, width: nat) {
    forall k: nat | low <= k < low + width :: Bit(a, k) == Bit(b, k)
  }

  /** A field of a number is a run of its bits. */
  lemma {:induction false} SameField(a: nat, b: nat, low: nat, width: nat)
    ensures (a / Pow2(low)) % Pow2(width) == (b / Pow2(low)) % Pow2(width) <==> SameBits(a, b, low, width)
  {
    hide Bit, Pow2;
    var f, g := (a / Pow2(low)) % Pow2(width), (b / Pow2(low)) % Pow2(width);
    forall k: nat | k < width ensures Bit(f, k) == Bit(a, low + k) && Bit(g, k) == Bit(b, low + k) {
      FieldBit(a, low, width, k);
      FieldBit(b, low, width, k);
    }
    if SameBits(a, b, low, width) {
      BitsDetermine(f, g, width);
    }
    if f == g {
      forall k: nat | low <= k < low + width ensures Bit(a, k) == Bit(b, k) {
        FieldBit(a, low, width, k - low);
        FieldBit(b, low, width, k - low);
      }
    }
  }

  lemma {:induction false} FieldBit(a: nat, low: nat, width: nat, k: nat)
    requires k < width
    ensures Bit((a / Pow2(low)) % Pow2(width), k) == Bit(a, low + k)
  {
    hide Bit, Pow2;
    BitOfRemainder(a / Pow2(low), width, k);
    ShiftIsQuotient(a, low);
    BitOfShiftRight(a, low, k);
  }
}
