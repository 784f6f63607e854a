/** The inflater's Huffman tables: a 9-bit direct table plus range counters. */
module ZHuffman {
  import opened Bits
  import opened BitReverse
  import opened Canonical

  const FAST_BITS: nat := 9
  const FAST_SIZE: nat := 512

  function Cast16(x: nat): nat { x % 0x10000 }

  /** Code lengths that the tables can hold. */
  ghost predicate Sizes(lens: seq<nat>) {
    |lens| <= 288 && forall i :: 0 <= i < |lens| ==> lens[i] <= 15
  }

  /** Symbol i has a short code, and it stands in the low bits of k. */
  ghost predicate Hits(lens: seq<nat>, i: nat, k: nat)
    requires i < |lens|
  {
    0 < lens[i] <= FAST_BITS && Rev(k, lens[i]) == Code(lens, i)
  }

  function Packed(s: nat, i: nat): nat { 512 * s + i }

  /** Entry k of the direct table, once the symbols below n are entered. */
  ghost predicate FastEntry(lens: seq<nat>, n: nat, k: nat, v: nat)
    requires n <= |lens|
  {
    && (forall i: nat :: i < n && Hits(lens, i, k) ==> v == Packed(lens[i], i))
    && (v != 0 ==> exists i: nat :: i < n && Hits(lens, i, k))
  }

  /** The range counters of the canonical code for length t. */
  ghost predicate RangeEntry(lens: seq<nat>, t: nat, firstcode: nat, maxcode: nat, firstsymbol: nat)
    requires 1 <= t <= 16
  {
    && firstcode == First(lens, t)
    && maxcode == Shl(End(lens, t), 16 - t)
    && firstsymbol == Below(lens, |lens|, t)
  }

  /** One round of the range loop: the counters stay in 16 bits and advance to
      the next length. */
  lemma RangeStep(lens: seq<nat>, i: nat)
    requires Sizes(lens) && 1 <= i < 16 && End(lens, i - 1) <= Shl(1, i - 1)
    ensures Cast16(First(lens, i)) == First(lens, i)
    ensures Cast16(Below(lens, |lens|, i)) == Below(lens, |lens|, i)
    ensures Shl(End(lens, i), 16 - i) >= 0
    ensures Shl(End(lens, i), 1) == First(lens, i + 1)
    ensures First(lens, i) + Count(lens, |lens|, i) == End(lens, i)
    ensures Below(lens, |lens|, i) + Count(lens, |lens|, i) == Below(lens, |lens|, i + 1)
    ensures Count(lens, |lens|, i) == 0 ==> End(lens, i) <= Shl(1, i)
    ensures End(lens, i) > Shl(1, i) ==> !Fits(lens, 15)
  {
    ShlMonotoneExp(i, 15);
    assert Shl(1, 15) == 0x8000;
    BelowBound(lens, |lens|, i);
    ShlNonNegative(End(lens, i), 16 - i);
    BelowStep(lens, |lens|, i);
    assert Shl(End(lens, i), 1) == 2 * Shl(End(lens, i), 0);
    if Fits(lens, 15) { FitsEarlier(lens, i, 15); }
  }

  lemma FirstRange(lens: seq<nat>)
    ensures First(lens, 1) == 0 && Below(lens, |lens|, 1) == 0 && End(lens, 0) <= Shl(1, 0)
  {
    BelowStep(lens, |lens|, 1);
  }

  lemma LastRange(lens: seq<nat>)
    ensures Fits(lens, 15) <==> End(lens, 15) <= Shl(1, 15)
  {
    EndIsKraft(lens, 15);
  }

  class Table {
    const fast: array<nat>
    const firstcode: array<nat>
    const maxcode: array<nat>
    const firstsymbol: array<nat>
    const size: array<nat>
    const value: array<nat>

    /** The six arrays. */
    ghost const Repr: set<object>

    ghost predicate Shape() {
      && Repr == {fast, firstcode, maxcode, firstsymbol, size, value}
      && fast.Length == FAST_SIZE && firstcode.Length == 16 && maxcode.Length == 17
      && firstsymbol.Length == 16 && size.Length == 288 && value.Length == 288
      && firstcode != firstsymbol && size != value
    }

    /** The range counters are those of the canonical code, for lengths below s. */
    ghost predicate Ranges(lens: seq<nat>, s: nat)
      requires Shape() && s <= 16
      reads firstcode, maxcode, firstsymbol
    {
      forall t :: 1 <= t < s ==> RangeEntry(lens, t, firstcode[t], maxcode[t], firstsymbol[t])
    }

    /** The symbols below n stand at their sorted positions. */
    ghost predicate Sorted(lens: seq<nat>, n: nat)
      requires Shape() && Sizes(lens) && n <= |lens|
      reads size, value
    {
      forall i: nat {:trigger SortedIndex(lens, i)} :: i < n && lens[i] > 0 ==>
        && SortedIndex(lens, i) < 288
        && size[SortedIndex(lens, i)] == lens[i]
        && value[SortedIndex(lens, i)] == i
    }

    ghost predicate Fast(lens: seq<nat>, n: nat)
      requires Shape() && n <= |lens|
      reads fast
    {
      forall k :: 0 <= k < FAST_SIZE ==> FastEntry(lens, n, k, fast[k])
    }

    /** The tables decode the canonical code of these lengths. */
    ghost predicate For(lens: seq<nat>)
      reads Repr
    {
      && Shape() && Sizes(lens)
      && Fits(lens, 15)
      && Ranges(lens, 16) && maxcode[16] == 0x10000
      && Sorted(lens, |lens|)
      && Fast(lens, |lens|)
    }

    constructor ()
      ensures Shape() && fresh(Repr)
    {
      fast := new nat[FAST_SIZE];
      firstcode := new nat[16];
      maxcode := new nat[17];
      firstsymbol := new nat[16];
      size := new nat[288];
      value := new nat[288];
      Repr := {fast, firstcode, maxcode, firstsymbol, size, value};
    }

    /** Accepts a list of lengths exactly when its Kraft sum is at most 1, and
        then builds the tables of its canonical code. */
    method Build(sizelist: seq<byte>) returns (ok: bool)
      requires Shape() && Sizes(sizelist)
      modifies Repr
      ensures ok <==> Fits(sizelist, 15)
      ensures ok ==> For(sizelist)
    {
      var sizes := CountSizes(sizelist);
      var nextCode;
      ok, nextCode := AssignRanges(sizelist, sizes);
      if ok {
        EnterSymbols(sizelist, nextCode);
      }
    }

    /** `++sizes[sizelist[i]]`, then `sizes[0] = 0`. */
    method CountSizes(sizelist: seq<byte>) returns (sizes: array<nat>)
      requires Sizes(sizelist)
      ensures fresh(sizes) && sizes.Length == 17 && sizes[0] == 0
      ensures forall s :: 1 <= s < 16 ==> sizes[s] == Count(sizelist, |sizelist|, s)
    {
      sizes := new nat[17](_ => 0);
      for i := 0 to |sizelist|
        invariant forall s :: 0 <= s < 16 ==> sizes[s] == Count(sizelist, i, s)
      {
        sizes[sizelist[i]] := sizes[sizelist[i]] + 1;
      }
      sizes[0] := 0;
    }

    method AssignRanges(sizelist: seq<byte>, sizes: array<nat>) returns (ok: bool, nextCode: array<nat>)
      requires Shape() && Sizes(sizelist)
      requires sizes.Length == 17 && sizes !in Repr
      requires forall s :: 1 <= s < 16 ==> sizes[s] == Count(sizelist, |sizelist|, s)
      modifies firstcode, maxcode, firstsymbol
      ensures ok <==> Fits(sizelist, 15)
      ensures ok ==> Ranges(sizelist, 16) && maxcode[16] == 0x10000
      ensures fresh(nextCode) && nextCode.Length == 16
      ensures ok ==> forall s :: 1 <= s < 16 ==> nextCode[s] == First(sizelist, s)
    {
      hide Fits, Below, Count, Shl, End;
      nextCode := new nat[16](_ => 0);
      var code, k := 0, 0;
      FirstRange(sizelist);
      var i := 1;
      while i < 16
        invariant 1 <= i <= 16
        invariant code == First(sizelist, i) && k == Below(sizelist, |sizelist|, i)
        invariant End(sizelist, i - 1) <= Shl(1, i - 1)
        invariant Ranges(sizelist, i)
        invariant forall t :: 1 <= t < i ==> nextCode[t] == First(sizelist, t)
      {
        RangeStep(sizelist, i);
        nextCode[i] := code;
        firstcode[i] := Cast16(code);
        firstsymbol[i] := Cast16(k);
        code := code + sizes[i];
        if sizes[i] != 0 {
          if code - 1 >= Shl(1, i) {
            return false, nextCode;
          }
        }
        maxcode[i] := Shl(code, 16 - i);
        code := Shl(code, 1);
        k := k + sizes[i];
        i := i + 1;
      }
      LastRange(sizelist);
      maxcode[16] := 0x10000;
      ok := true;
    }

    method EnterSymbols(sizelist: seq<byte>, nextCode: array<nat>)
      requires Shape() && Sizes(sizelist) && Fits(sizelist, 15)
      requires nextCode.Length == 16 && nextCode !in Repr
      requires Ranges(sizelist, 16)
      requires forall s :: 1 <= s < 16 ==> nextCode[s] == First(sizelist, s)
      modifies nextCode, fast, size, value
      ensures Sorted(sizelist, |sizelist|)
      ensures Fast(sizelist, |sizelist|)
    {
      hide Fits, Below, Shl, End, Rev, Or, Sorted, Fast;
      forall k | 0 <= k < FAST_SIZE { fast[k] := 0; }
      NoneEntered(sizelist);
      for i := 0 to |sizelist|
        invariant forall s :: 1 <= s < 16 ==> nextCode[s] == First(sizelist, s) + Count(sizelist, i, s)
        invariant Sorted(sizelist, i)
        invariant Fast(sizelist, i)
      {
        var s := sizelist[i];
        NotEntered(sizelist, i);
        if s != 0 {
          var c := nextCode[s] - firstcode[s] + firstsymbol[s];
          PackedValue(s, i);
          var fastv := Cast16(Or(Shl(s, 9), i));
          assert RangeEntry(sizelist, s, firstcode[s], maxcode[s], firstsymbol[s]);
          EnterSorted(sizelist, i, c);
          if s <= FAST_BITS {
            EnterFast(sizelist, i, nextCode[s], fastv);
          }
          nextCode[s] := nextCode[s] + 1;
        }
      }
    }

    lemma NoneEntered(lens: seq<nat>)
      requires Shape() && Sizes(lens) && forall k :: 0 <= k < FAST_SIZE ==> fast[k] == 0
      ensures Sorted(lens, 0) && Fast(lens, 0)
    {}

    /** Symbols without a code are not entered, those with a long one not in the fast table. */
    lemma NotEntered(lens: seq<nat>, i: nat)
      requires Shape() && Sizes(lens) && i < |lens|
      ensures lens[i] == 0 && Sorted(lens, i) ==> Sorted(lens, i + 1)
      ensures (lens[i] == 0 || lens[i] > FAST_BITS) && Fast(lens, i) ==> Fast(lens, i + 1)
    {
      hide FastEntry;
      if Fast(lens, i) && (lens[i] == 0 || lens[i] > FAST_BITS) {
        forall k | 0 <= k < FAST_SIZE ensures FastEntry(lens, i + 1, k, fast[k]) {
          assert FastEntry(lens, i, k, fast[k]);
          NoFastEntry(lens, i, k, fast[k]);
        }
      }
    }

    static lemma NoFastEntry(lens: seq<nat>, i: nat, k: nat, v: nat)
      requires i < |lens| && (lens[i] == 0 || lens[i] > FAST_BITS) && FastEntry(lens, i, k, v)
      ensures FastEntry(lens, i + 1, k, v)
    {}

    method EnterSorted(lens: seq<nat>, i: nat, c: nat)
      requires Shape() && Sizes(lens) && i < |lens| && lens[i] > 0
      requires c == SortedIndex(lens, i) && Sorted(lens, i)
      modifies size, value
      ensures Sorted(lens, i + 1)
    {
      SortedIndexBound(lens, i);
      forall j: nat | j < i && lens[j] > 0 ensures SortedIndex(lens, j) != c {
        SortedIndexInjective(lens, i, j);
      }
      size[c] := lens[i];
      value[c] := i;
    }

    /** Enter one short code at every index whose low bits are the code. */
    method EnterFast(lens: seq<nat>, i: nat, code: nat, fastv: nat)
      requires Shape() && Sizes(lens) && Fits(lens, 15)
      requires i < |lens| && 0 < lens[i] <= FAST_BITS && code == Code(lens, i)
      requires fastv == Packed(lens[i], i)
      requires Fast(lens, i)
      modifies fast
      ensures Fast(lens, i + 1)
    {
      var s := lens[i];
      BitReversalIsRev(code, s);
      RevBound(code, s);
      FillResidue(BitReversal(code, s), s, fastv);
      forall j: nat | j < FAST_SIZE ensures FastEntry(lens, i + 1, j, fast[j]) {
        assert FastEntry(lens, i, j, old(fast[j]));
        FastEntryStep(lens, i, j, old(fast[j]));
        HitsResidue(lens, i, j);
      }
    }

    /** The stride loop: writes v at the indices with low bits r, and nowhere else. */
    method FillResidue(r: nat, s: nat, v: nat)
      requires Shape() && r < Shl(1, s)
      modifies fast
      ensures forall j :: 0 <= j < FAST_SIZE ==> fast[j] == if Low(j, s) == r then v else old(fast[j])
    {
      LowOfSmall(r, s);
      var k := r;
      forall j: nat | Low(j, s) == r && j < k ensures false {
        SameResidue(j, k, s);
      }
      while k < FAST_SIZE
        invariant Low(k, s) == r
        invariant forall j :: 0 <= j < FAST_SIZE ==>
          fast[j] == if Low(j, s) == r && j < k then v else old(fast[j])
        decreases FAST_SIZE - k
      {
        fast[k] := v;
        LowStep(k, s);
        forall j: nat | k <= j < k + Shl(1, s) && Low(j, s) == r ensures j == k { SameResidue(k, j, s); }
        k := k + Shl(1, s);
      }
    }
  }

  lemma {:induction false} ShlMonotoneExp(m: nat, n: nat)
    requires m <= n
    ensures 1 <= Shl(1, m) <= Shl(1, n)
  {
    ShlNonNegative(1, m);
    if m < n {
      ShlMonotoneExp(m, n - 1);
    }
  }

  lemma ShlNine(x: int)
    ensures Shl(x, 9) == 512 * x
  {
    assert Shl(x, 9) == 2 * Shl(x, 8) == 4 * Shl(x, 7) == 8 * Shl(x, 6) == 16 * Shl(x, 5);
    assert Shl(x, 5) == 2 * Shl(x, 4) == 4 * Shl(x, 3) == 8 * Shl(x, 2) == 16 * Shl(x, 1) == 32 * x;
  }

  lemma PackedValue(s: nat, i: nat)
    requires s <= 15 && i < 512
    ensures Shl(s, 9) >= 0
    ensures Cast16(Or(Shl(s, 9), i)) == Packed(s, i)
  {
    hide Shl, Or;
    ShlNine(s);
    ShlNine(1);
    OrIsAdd(i, s, 9);
    OrCommutes(i, Shl(s, 9));
  }

  /** An index starts with a short code when its low bits are the reversed code. */
  lemma HitsResidue(lens: seq<nat>, i: nat, k: nat)
    requires i < |lens| && 0 < lens[i] <= FAST_BITS && Fits(lens, 15)
    ensures Hits(lens, i, k) <==> Low(k, lens[i]) == Rev(Code(lens, i), lens[i])
  {
    var s, code := lens[i], Code(lens, i);
    CodeBound(lens, i, 15);
    LowOfSmall(code, s);
    RevRev(code, s);
    RevRev(k, s);
    RevOfLow(k, s, s);
  }

  lemma FastEntryStep(lens: seq<nat>, n: nat, k: nat, v: nat)
    requires n < |lens| && FastEntry(lens, n, k, v)
    ensures Hits(lens, n, k) ==> FastEntry(lens, n + 1, k, Packed(lens[n], n))
    ensures !Hits(lens, n, k) ==> FastEntry(lens, n + 1, k, v)
  {
    forall h: nat | h < n && Hits(lens, h, k) && Hits(lens, n, k) ensures false {
      HitUnique(lens, h, n, k);
    }
  }

  /** At most one short code stands in the low bits of an index. */
  lemma HitUnique(lens: seq<nat>, i: nat, j: nat, k: nat)
    requires i < |lens| && j < |lens| && Hits(lens, i, k) && Hits(lens, j, k)
    ensures i == j
  {
    if lens[i] == lens[j] {
      if i < j { CountMonotone(lens, i, j, lens[i]); }
      if j < i { CountMonotone(lens, j, i, lens[i]); }
    } else if lens[i] < lens[j] {
      CodesOrdered(lens, i, j);
      RevTop(k, lens[i], lens[j]);
    } else {
      CodesOrdered(lens, j, i);
      RevTop(k, lens[j], lens[i]);
    }
  }
}
