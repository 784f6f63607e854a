/** The mask-and-shift reversal of 16 bits used by the inflater. */
module BitReverse {
  import opened Bits

  /** Exchange neighbouring groups of k bits: `((n & hi) >> k) | ((n & lo) << k)`. */
  function Swap(n: nat, hi: nat, lo: nat, k: nat): nat {
    ShlNonNegative(And(n, lo), k);
    Or(Shr(And(n, hi), k), Shl(And(n, lo), k))
  }

  function BitReverse16(n: nat): nat {
    var n := Swap(n, 0xAAAA, 0x5555, 1);
    var n := Swap(n, 0xCCCC, 0x3333, 2);
    var n := Swap(n, 0xF0F0, 0x0F0F, 4);
    Swap(n, 0xFF00, 0x00FF, 8)
  }

  function BitReversal(v: nat, bits: nat): nat
    requires bits <= 16
  {
    Shr(BitReverse16(v), 16 - bits)
  }

  lemma BitOfSwap(n: nat, hi: nat, lo: nat, k: nat, i: nat)
    ensures Bit(Swap(n, hi, lo, k), i) ==
            if Bit(n, i + k) * Bit(hi, i + k) == 1 || (i >= k && Bit(n, i - k) * Bit(lo, i - k) == 1) then 1 else 0
  {
    ShlNonNegative(And(n, lo), k);
    BitOfOr(Shr(And(n, hi), k), Shl(And(n, lo), k), i);
    BitOfShr(And(n, hi), k, i);
    BitOfAnd(n, hi, i + k);
    BitOfShl(And(n, lo), k, i);
    if i >= k { BitOfAnd(n, lo, i - k); }
  }

  /** The four mask pairs of the routine, by group size. */
  ghost predicate MaskPair(hi: nat, lo: nat, k: nat) {
    || (k == 1 && hi == 0xAAAA && lo == 0x5555)
    || (k == 2 && hi == 0xCCCC && lo == 0x3333)
    || (k == 4 && hi == 0xF0F0 && lo == 0x0F0F)
    || (k == 8 && hi == 0xFF00 && lo == 0x00FF)
  }

  /** Does position i < 16 lie in an odd group of k bits? */
  predicate OddGroup(i: nat, k: nat) {
    if k == 1 then i == 1 || i == 3 || i == 5 || i == 7 || i == 9 || i == 11 || i == 13 || i == 15
    else if k == 2 then 2 <= i < 4 || 6 <= i < 8 || 10 <= i < 12 || 14 <= i < 16
    else if k == 4 then 4 <= i < 8 || 12 <= i < 16
    else 8 <= i < 16
  }

  /** Each pair selects alternate groups of k bits below bit 16. */
  ghost predicate Alternates(hi: nat, lo: nat, k: nat, i: nat) {
    && Bit(hi, i) == (if i < 16 && OddGroup(i, k) then 1 else 0)
    && Bit(lo, i) == (if i < 16 && !OddGroup(i, k) then 1 else 0)
  }

  lemma MaskBits(hi: nat, lo: nat, k: nat, i: nat)
    requires MaskPair(hi, lo, k)
    ensures Alternates(hi, lo, k, i)
  {
    BitOfWord(hi, i);
    BitOfWord(lo, i);
    if k == 1 { MaskDigits1(i); } else if k == 2 { MaskDigits2(i); }
    else if k == 4 { MaskDigits4(i); } else { MaskDigits8(i); }
  }

  /** Bit i of a 16-bit word, found in its hexadecimal digits. */
  function DigitBit(x: nat, i: nat): nat {
    if i < 4 then NibbleBit(x, i)
    else if i < 8 then NibbleBit(x / 16, i - 4)
    else if i < 12 then NibbleBit(x / 256, i - 8)
    else if i < 16 then NibbleBit(x / 4096, i - 12)
    else 0
  }

  function NibbleBit(x: nat, j: nat): nat {
    if j == 0 then x % 2 else if j == 1 then x / 2 % 2 else if j == 2 then x / 4 % 2 else x / 8 % 2
  }

  lemma MaskDigits1(i: nat)
    ensures DigitBit(0xAAAA, i) == if i < 16 && OddGroup(i, 1) then 1 else 0
    ensures DigitBit(0x5555, i) == if i < 16 && !OddGroup(i, 1) then 1 else 0
  {}

  lemma MaskDigits2(i: nat)
    ensures DigitBit(0xCCCC, i) == if i < 16 && OddGroup(i, 2) then 1 else 0
    ensures DigitBit(0x3333, i) == if i < 16 && !OddGroup(i, 2) then 1 else 0
  {}

  lemma MaskDigits4(i: nat)
    ensures DigitBit(0xF0F0, i) == if i < 16 && OddGroup(i, 4) then 1 else 0
    ensures DigitBit(0x0F0F, i) == if i < 16 && !OddGroup(i, 4) then 1 else 0
  {}

  lemma MaskDigits8(i: nat)
    ensures DigitBit(0xFF00, i) == if i < 16 && OddGroup(i, 8) then 1 else 0
    ensures DigitBit(0x00FF, i) == if i < 16 && !OddGroup(i, 8) then 1 else 0
  {}

  lemma BitOfWord(x: nat, i: nat)
    requires x < 0x10000
    ensures Bit(x, i) == DigitBit(x, i)
  {
    BitOfDigit(x, i);
    if i >= 4 { BitOfDigit(x / 16, i - 4); }
    if i >= 8 { BitOfDigit(x / 256, i - 8); }
    if i >= 12 { BitOfDigit(x / 4096, i - 12); }
    if i >= 16 { ShrOfZero(i - 16); }
  }

  lemma BitOfDigit(x: nat, i: nat)
    ensures i < 4 ==> Bit(x, i) == NibbleBit(x, i)
    ensures i >= 4 ==> Bit(x, i) == Bit(x / 16, i - 4)
  {
    assert i >= 1 ==> Shr(x, i) == Shr(x / 2, i - 1);
    assert i >= 2 ==> Shr(x / 2, i - 1) == Shr(x / 2 / 2, i - 2);
    assert i >= 3 ==> Shr(x / 2 / 2, i - 2) == Shr(x / 2 / 2 / 2, i - 3);
    assert i >= 4 ==> Shr(x / 2 / 2 / 2, i - 3) == Shr(x / 2 / 2 / 2 / 2, i - 4);
  }

  lemma SwapLevel(n: nat, hi: nat, lo: nat, k: nat, i: nat)
    requires MaskPair(hi, lo, k)
    ensures i < 16 && !OddGroup(i, k) ==> Bit(Swap(n, hi, lo, k), i) == Bit(n, i + k)
    ensures i < 16 && OddGroup(i, k) ==> i >= k && Bit(Swap(n, hi, lo, k), i) == Bit(n, i - k)
    ensures 16 <= i ==> Bit(Swap(n, hi, lo, k), i) == 0
  {
    BitOfSwap(n, hi, lo, k, i);
    MaskBits(hi, lo, k, i + k);
    if i >= k { MaskBits(hi, lo, k, i - k); }
  }

  lemma BitOfBitReverse16(n: nat, i: nat)
    ensures Bit(BitReverse16(n), i) == if i < 16 then Bit(n, 15 - i) else 0
  {
    var n1 := Swap(n, 0xAAAA, 0x5555, 1);
    var n2 := Swap(n1, 0xCCCC, 0x3333, 2);
    var n3 := Swap(n2, 0xF0F0, 0x0F0F, 4);
    SwapLevel(n3, 0xFF00, 0x00FF, 8, i);
    if i < 16 {
      var i3 := if OddGroup(i, 8) then i - 8 else i + 8;
      SwapLevel(n2, 0xF0F0, 0x0F0F, 4, i3);
      var i2 := if OddGroup(i3, 4) then i3 - 4 else i3 + 4;
      SwapLevel(n1, 0xCCCC, 0x3333, 2, i2);
      var i1 := if OddGroup(i2, 2) then i2 - 2 else i2 + 2;
      SwapLevel(n, 0xAAAA, 0x5555, 1, i1);
    }
  }

  /** The reversal used for table indices reverses exactly the low `bits` bits. */
  lemma BitReversalIsRev(v: nat, bits: nat)
    requires bits <= 16
    ensures BitReverse16(v) == Rev(v, 16)
    ensures BitReversal(v, bits) == Rev(v, bits)
  {
    forall i: nat | i >= 16 ensures Bit(BitReverse16(v), i) == 0 { BitOfBitReverse16(v, i); }
    NoHighBits(BitReverse16(v), 16);
    RevBound(v, 16);
    forall i | 0 <= i < 16 ensures Bit(BitReverse16(v), i) == Bit(Rev(v, 16), i) {
      BitOfBitReverse16(v, i);
      BitOfRev(v, 16, i);
    }
    SameBits(BitReverse16(v), Rev(v, 16), 16);
    RevTop(v, bits, 16);
  }

  /** A word with no bit from position n up is below 2^n. */
  lemma {:induction false} NoHighBits(r: nat, n: nat)
    requires forall i: nat :: i >= n ==> Bit(r, i) == 0
    ensures r < Shl(1, n)
    decreases r
  {
    if r > 0 {
      if n == 0 {
        assert Bit(r, 0) == 0;
        forall i: nat ensures Bit(r / 2, i) == 0 { assert Bit(r, i + 1) == 0; }
        NoHighBits(r / 2, 0);
      } else {
        forall i: nat | i >= n - 1 ensures Bit(r / 2, i) == 0 { assert Bit(r, i + 1) == 0; }
        NoHighBits(r / 2, n - 1);
      }
    } else {
      ShlNonNegative(1, n);
    }
  }
}
