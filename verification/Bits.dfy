/** Unsigned machine words as natural numbers, with the C shift and mask
    operators defined bit by bit so that no nonlinear arithmetic is needed. */
module Bits {
  type byte = n: nat | n < 256

  /** `x << n` before any truncation. */
  function Shl(x: int, n: nat): int {
    if n == 0 then x else 2 * Shl(x, n - 1)
  }

  /** `x >> n`. */
  function Shr(x: nat, n: nat): nat {
    if n == 0 then x else Shr(x / 2, n - 1)
  }

  /** `x & ((1 << n) - 1)`: the low n bits. */
  function Low(x: nat, n: nat): nat {
    if n == 0 then 0 else x % 2 + 2 * Low(x / 2, n - 1)
  }

  function Bit(x: nat, i: nat): nat {
    Shr(x, i) % 2
  }

  lemma BitCons(b: nat, x: nat, i: nat)
    requires b < 2
    ensures Bit(b + 2 * x, i) == if i == 0 then b else Bit(x, i - 1)
  {}

  /** `x & y`. */
  function And(x: nat, y: nat): nat {
    if x == 0 || y == 0 then 0 else 2 * And(x / 2, y / 2) + (x % 2) * (y % 2)
  }

  /** `x | y`. */
  function Or(x: nat, y: nat): nat
    decreases x + y
  {
    if x == 0 then y
    else if y == 0 then x
    else 2 * Or(x / 2, y / 2) + (if x % 2 == 1 || y % 2 == 1 then 1 else 0)
  }

  /** The low n bits of x in the opposite order. */
  function Rev(x: nat, n: nat): nat
    ensures n == 0 ==> Rev(x, n) == 0
  {
    if n == 0 then 0 else 2 * Rev(x, n - 1) + Bit(x, n - 1)
  }

  // ----- shifts

  lemma {:induction false} ShlNonNegative(x: nat, n: nat)
    ensures Shl(x, n) >= x
  {
    if n > 0 { ShlNonNegative(x, n - 1); }
  }

  lemma {:induction false} ShlAdd(x: int, y: int, n: nat)
    ensures Shl(x + y, n) == Shl(x, n) + Shl(y, n)
  {
    if n > 0 { ShlAdd(x, y, n - 1); }
  }

  lemma {:induction false} ShlShl(x: int, m: nat, n: nat)
    ensures Shl(Shl(x, m), n) == Shl(x, m + n)
  {
    if n > 0 { ShlShl(x, m, n - 1); }
  }

  lemma {:induction false} ShlMonotone(x: int, y: int, n: nat)
    requires x <= y
    ensures Shl(x, n) <= Shl(y, n)
  {
    if n > 0 { ShlMonotone(x, y, n - 1); }
  }

  lemma {:induction false} ShrShr(x: nat, m: nat, n: nat)
    ensures Shr(Shr(x, m), n) == Shr(x, m + n)
  {
    if m > 0 { ShrShr(x / 2, m - 1, n); }
  }

  /** A word is its low part plus its shifted high part. */
  lemma {:induction false} Split(x: nat, n: nat)
    ensures x == Low(x, n) + Shl(Shr(x, n), n)
    ensures Low(x, n) < Shl(1, n)
  {
    if n > 0 {
      Split(x / 2, n - 1);
    }
  }

  /** The split is unique: it recovers both parts of a packed word. */
  lemma {:induction false} Unpack(lo: nat, hi: nat, n: nat)
    requires lo < Shl(1, n)
    ensures Shl(hi, n) >= 0
    ensures Low(lo + Shl(hi, n), n) == lo && Shr(lo + Shl(hi, n), n) == hi
  {
    ShlNonNegative(hi, n);
    if n > 0 {
      ShlNonNegative(hi, n - 1);
      Unpack(lo / 2, hi, n - 1);
      var x := lo + Shl(hi, n);
      assert x / 2 == lo / 2 + Shl(hi, n - 1) && x % 2 == lo % 2;
    }
  }

  lemma {:induction false} ShrBound(k: nat, e: nat, n: nat)
    ensures k < Shl(e, n) <==> Shr(k, n) < e
  {
    Split(k, n);
    var h := Shr(k, n);
    if h < e {
      ShlMonotone(h + 1, e, n);
      ShlAdd(h, 1, n);
    } else {
      ShlMonotone(e, h, n);
    }
  }

  lemma {:induction false} LowOfSmall(x: nat, n: nat)
    requires x < Shl(1, n)
    ensures Low(x, n) == x && Shr(x, n) == 0
  {
    ShlZero(n);
    Unpack(x, 0, n);
  }

  lemma {:induction false} ShlZero(n: nat)
    ensures Shl(0, n) == 0
  {
    if n > 0 { ShlZero(n - 1); }
  }

  /** Words with the same low n bits that differ by less than 2^n are equal. */
  lemma SameResidue(x: nat, y: nat, n: nat)
    requires Low(x, n) == Low(y, n) && x <= y < x + Shl(1, n)
    ensures x == y
  {
    Split(x, n);
    Split(y, n);
    if Shr(y, n) > Shr(x, n) {
      ShlMonotone(Shr(x, n) + 1, Shr(y, n), n);
      ShlAdd(Shr(x, n), 1, n);
    } else {
      ShlMonotone(Shr(y, n), Shr(x, n), n);
    }
  }

  /** Adding a multiple of 2^n keeps the low n bits. */
  lemma LowStep(x: nat, n: nat)
    ensures Shl(1, n) >= 1
    ensures Low(x + Shl(1, n), n) == Low(x, n)
  {
    ShlNonNegative(1, n);
    Split(x, n);
    ShlAdd(Shr(x, n), 1, n);
    Unpack(Low(x, n), Shr(x, n) + 1, n);
  }

  lemma {:induction false} BitOfShr(x: nat, n: nat, i: nat)
    ensures Bit(Shr(x, n), i) == Bit(x, n + i)
  {
    ShrShr(x, n, i);
  }

  lemma {:induction false} BitOfLow(x: nat, n: nat, i: nat)
    ensures Bit(Low(x, n), i) == if i < n then Bit(x, i) else 0
  {
    if n == 0 {
      ShrOfZero(i);
    } else if i > 0 {
      BitOfLow(x / 2, n - 1, i - 1);
    }
  }

  lemma {:induction false} ShrOfZero(n: nat)
    ensures Shr(0, n) == 0
  {
    if n > 0 { ShrOfZero(n - 1); }
  }

  lemma {:induction false} BitOfShl(x: nat, n: nat, i: nat)
    ensures Shl(x, n) >= 0
    ensures Bit(Shl(x, n), i) == if i < n then 0 else Bit(x, i - n)
  {
    ShlNonNegative(x, n);
    if n > 0 && i > 0 {
      ShlNonNegative(x, n - 1);
      BitOfShl(x, n - 1, i - 1);
      assert Shl(x, n) / 2 == Shl(x, n - 1);
    }
  }

  // ----- masks

  /** `x & y` and `x | y` act on each bit separately. */
  lemma {:induction false} BitOfAnd(x: nat, y: nat, i: nat)
    ensures Bit(And(x, y), i) == Bit(x, i) * Bit(y, i)
  {
    if x == 0 || y == 0 {
      ShrOfZero(i);
    } else if i > 0 {
      BitOfAnd(x / 2, y / 2, i - 1);
      assert And(x, y) / 2 == And(x / 2, y / 2);
    }
  }

  lemma {:induction false} BitOfOr(x: nat, y: nat, i: nat)
    ensures Bit(Or(x, y), i) == if Bit(x, i) == 1 || Bit(y, i) == 1 then 1 else 0
    decreases x + y
  {
    if x == 0 || y == 0 {
      ShrOfZero(i);
    } else if i > 0 {
      BitOfOr(x / 2, y / 2, i - 1);
      assert Or(x, y) / 2 == Or(x / 2, y / 2);
    }
  }

  /** Masking with an all-ones word keeps the low bits. */
  lemma {:induction false} AndMask(x: nat, n: nat)
    ensures Shl(1, n) >= 1
    ensures And(x, Shl(1, n) - 1) == Low(x, n)
  {
    ShlNonNegative(1, n);
    if n == 0 || x == 0 {
      if x == 0 { LowOfZero(n); }
    } else {
      AndMask(x / 2, n - 1);
      var m := Shl(1, n) - 1;
      assert m / 2 == Shl(1, n - 1) - 1 && m % 2 == 1;
    }
  }

  lemma {:induction false} LowOfZero(n: nat)
    ensures Low(0, n) == 0
  {
    if n > 0 { LowOfZero(n - 1); }
  }

  /** OR-ing in bits above every set bit is addition. */
  lemma {:induction false} OrIsAdd(lo: nat, hi: nat, n: nat)
    requires lo < Shl(1, n)
    ensures Shl(hi, n) >= 0
    ensures Or(lo, Shl(hi, n)) == lo + Shl(hi, n)
  {
    ShlNonNegative(hi, n);
    if n > 0 && lo > 0 {
      ShlNonNegative(hi, n - 1);
      OrIsAdd(lo / 2, hi, n - 1);
      var h := Shl(hi, n);
      assert h / 2 == Shl(hi, n - 1) && h % 2 == 0;
    }
  }

  lemma {:induction false} OrCommutes(x: nat, y: nat)
    ensures Or(x, y) == Or(y, x)
    decreases x + y
  {
    if x > 0 && y > 0 { OrCommutes(x / 2, y / 2); }
  }

  /** Words below 2^n with the same n bits are the same word. */
  lemma {:induction false} SameBits(x: nat, y: nat, n: nat)
    requires x < Shl(1, n) && y < Shl(1, n)
    requires forall i :: 0 <= i < n ==> Bit(x, i) == Bit(y, i)
    ensures x == y
  {
    if n > 0 {
      assert Bit(x, 0) == Bit(y, 0);
      forall i | 0 <= i < n - 1 ensures Bit(x / 2, i) == Bit(y / 2, i) {
        assert Bit(x, i + 1) == Bit(y, i + 1);
      }
      SameBits(x / 2, y / 2, n - 1);
    }
  }

  // ----- reversal

  lemma {:induction false} RevBound(x: nat, n: nat)
    ensures Rev(x, n) < Shl(1, n)
  {
    if n > 0 { RevBound(x, n - 1); }
  }

  lemma {:induction false} BitOfRev(x: nat, n: nat, i: nat)
    ensures Bit(Rev(x, n), i) == if i < n then Bit(x, n - 1 - i) else 0
  {
    if n == 0 {
      ShrOfZero(i);
    } else if i > 0 {
      assert Rev(x, n) / 2 == Rev(x, n - 1);
      BitOfRev(x, n - 1, i - 1);
    }
  }

  /** Reversing twice gives the low bits back. */
  lemma {:induction false} RevRev(x: nat, n: nat)
    ensures Rev(Rev(x, n), n) == Low(x, n)
  {
    RevBound(Rev(x, n), n);
    Split(x, n);
    forall i | 0 <= i < n ensures Bit(Rev(Rev(x, n), n), i) == Bit(Low(x, n), i) {
      BitOfRev(Rev(x, n), n, i);
      BitOfRev(x, n, n - 1 - i);
      BitOfLow(x, n, i);
    }
    SameBits(Rev(Rev(x, n), n), Low(x, n), n);
  }

  /** The top s of n reversed bits are the low s bits reversed. */
  lemma {:induction false} RevTop(x: nat, s: nat, n: nat)
    requires s <= n
    ensures Shr(Rev(x, n), n - s) == Rev(x, s)
  {
    if s < n {
      RevTop(x, s, n - 1);
      assert Rev(x, n) / 2 == Rev(x, n - 1);
    }
  }

  lemma {:induction false} RevOfLow(x: nat, s: nat, n: nat)
    requires s <= n
    ensures Rev(Low(x, n), s) == Rev(x, s)
  {
    if s > 0 {
      RevOfLow(x, s - 1, n);
      BitOfLow(x, n, s - 1);
    }
  }
}
