/** The JPEG decoder's Huffman tables (ITU-T T.81 Annex C and section F.2.2.3). */
module JpegTable {
  import opened Bits
  import opened Canonical

  const FAST_BITS: nat := 9
  const FAST_SIZE: nat := 512

  /** Code lengths in symbol order, from the number of codes of each length
      1..n (ITU-T T.81 Figure C.1). */
  function Sizes(counts: seq<nat>, n: nat): (lens: seq<nat>)
    requires n <= |counts|
    ensures forall i :: 0 <= i < |lens| ==> 1 <= lens[i] <= n
  {
    if n == 0 then [] else Sizes(counts, n - 1) + seq(counts[n - 1], _ => n)
  }

  predicate Ascending(lens: seq<nat>) {
    && (forall i :: 0 <= i < |lens| ==> 0 < lens[i])
    && (forall i, j :: 0 <= i < j < |lens| ==> lens[i] <= lens[j])
  }

  lemma {:induction false} SizesAscending(counts: seq<nat>, n: nat)
    requires n <= |counts|
    ensures Ascending(Sizes(counts, n))
    decreases n
  {
    if n > 0 { SizesAscending(counts, n - 1); }
  }

  // ----- ascending lengths: symbols stand at their sorted positions

  lemma {:induction false} BelowPrefix(lens: seq<nat>, m: nat, n: nat, s: nat)
    requires m <= n <= |lens| && forall i :: m <= i < n ==> lens[i] >= s
    ensures Below(lens, n, s) == Below(lens, m, s)
    decreases n
  {
    if m < n { BelowPrefix(lens, m, n - 1, s); }
  }

  lemma {:induction false} BelowAndEqual(lens: seq<nat>, n: nat, s: nat)
    requires n <= |lens| && forall i :: 0 <= i < n ==> 0 < lens[i] <= s
    ensures Below(lens, n, s) + Count(lens, n, s) == n
    decreases n
  {
    if n > 0 { BelowAndEqual(lens, n - 1, s); }
  }

  lemma SortedPosition(lens: seq<nat>, i: nat)
    requires Ascending(lens) && i < |lens|
    ensures SortedIndex(lens, i) == i
  {
    BelowPrefix(lens, i, |lens|, lens[i]);
    BelowAndEqual(lens, i, lens[i]);
  }

  lemma {:induction false} CountNone(lens: seq<nat>, m: nat, n: nat, s: nat)
    requires m <= n <= |lens| && forall i :: m <= i < n ==> lens[i] != s
    ensures Count(lens, n, s) == Count(lens, m, s)
    decreases n
  {
    if m < n { CountNone(lens, m, n - 1, s); }
  }

  /** The symbols of length s begin at Below(s). */
  lemma RunStart(lens: seq<nat>, s: nat)
    requires Ascending(lens) && s > 0 && Below(lens, |lens|, s) <= |lens|
    ensures Count(lens, Below(lens, |lens|, s), s) == 0
  {
    var k := Below(lens, |lens|, s);
    forall i | 0 <= i < k ensures lens[i] != s { SortedPosition(lens, i); }
    CountNone(lens, 0, k, s);
  }

  /** When symbol k no longer has length s, the run of length s is over. */
  lemma RunEnd(lens: seq<nat>, s: nat, k: nat)
    requires Ascending(lens) && s > 0 && k <= |lens| && k == Below(lens, |lens|, s) + Count(lens, k, s)
    requires k < |lens| ==> lens[k] != s
    ensures Count(lens, k, s) == Count(lens, |lens|, s)
    ensures k == Below(lens, |lens|, s + 1)
  {
    BelowStep(lens, |lens|, s);
    if k < |lens| {
      SortedPosition(lens, k);
      if lens[k] < s {
        CountMonotone(lens, k, |lens|, lens[k]);
        BelowStep(lens, |lens|, lens[k]);
        BelowMonotone(lens, |lens|, lens[k] + 1, s);
      } else {
        CountNone(lens, k, |lens|, s);
      }
    }
  }

  // ----- the direct table

  /** The code of symbol i stands at the top of the 9-bit window w. */
  predicate Hits(lens: seq<nat>, i: nat, w: nat)
    requires i < |lens| && lens[i] > 0
  {
    lens[i] <= FAST_BITS && Shr(w, FAST_BITS - lens[i]) == Code(lens, i)
  }

  /** Entry w of the direct table, once the symbols below n are entered. */
  ghost predicate FastEntry(lens: seq<nat>, n: nat, w: nat, v: int)
    requires n <= |lens| && Ascending(lens)
  {
    && (forall i: nat :: i < n && Hits(lens, i, w) ==> v == i)
    && (v != 255 ==> 0 <= v < n && Hits(lens, v, w))
  }

  /** At most one short code stands at the top of a window. */
  lemma HitUnique(lens: seq<nat>, i: nat, j: nat, w: nat)
    requires Ascending(lens) && i < |lens| && j < |lens| && Hits(lens, i, w) && Hits(lens, j, w)
    ensures i == j
  {
    if i < j { HitOrdered(lens, i, j, w); }
    if j < i { HitOrdered(lens, j, i, w); }
  }

  lemma HitOrdered(lens: seq<nat>, i: nat, j: nat, w: nat)
    requires Ascending(lens) && i < j < |lens| && Hits(lens, i, w)
    ensures !Hits(lens, j, w)
  {
    if Hits(lens, j, w) {
      CodesOrdered(lens, i, j);
      CountMonotone(lens, i, j, lens[i]);
      ShrShr(w, FAST_BITS - lens[j], lens[j] - lens[i]);
    }
  }

  /** The windows that start with a code of length s are 2^(9-s) consecutive ones. */
  lemma HitRange(lens: seq<nat>, i: nat, w: nat)
    requires Ascending(lens) && i < |lens| && lens[i] <= FAST_BITS
    ensures var t := FAST_BITS - lens[i];
            Hits(lens, i, w) <==> Shl(Code(lens, i), t) <= w < Shl(Code(lens, i), t) + Shl(1, t)
  {
    var t, c := FAST_BITS - lens[i], Code(lens, i);
    ShrBound(w, c, t);
    ShrBound(w, c + 1, t);
    ShlAdd(c, 1, t);
  }

  class Huffman {
    const fast: array<int>
    const code: array<int>
    const values: array<byte>
    const size: array<int>
    const maxcode: array<int>
    const delta: array<int>
    /** The arrays that the builder writes. */
    ghost const Repr: set<object>

    ghost predicate Shape() {
      && Repr == {fast, code, size, maxcode, delta}
      && fast.Length == FAST_SIZE && code.Length == 256 && values.Length == 256 && size.Length == 257
      && maxcode.Length == 18 && delta.Length == 17
      && fast != code && fast != size && fast != maxcode && code != size && code != maxcode && size != maxcode
    }

    /** Lengths and codes of the symbols below n. */
    ghost predicate Codes(lens: seq<nat>, n: nat)
      requires Shape() && n <= |lens| <= 255 && Ascending(lens)
      reads code
    {
      forall i :: 0 <= i < n ==> code[i] == Code(lens, i) % 0x10000
    }

    ghost predicate Lengths(lens: seq<nat>)
      requires Shape() && |lens| <= 255
      reads size
    {
      (forall i :: 0 <= i < |lens| ==> size[i] == lens[i]) && size[|lens|] == 0
    }

    ghost predicate Ranges(lens: seq<nat>, s: nat)
      requires Shape() && s <= 17
      reads maxcode, delta
    {
      forall j :: 1 <= j < s ==>
        maxcode[j] == Shl(End(lens, j), 16 - j) && delta[j] == Below(lens, |lens|, j) - First(lens, j)
    }

    ghost predicate Fast(lens: seq<nat>, n: nat)
      requires Shape() && n <= |lens| && Ascending(lens)
      reads fast
    {
      forall w :: 0 <= w < FAST_SIZE ==> FastEntry(lens, n, w, fast[w])
    }

    /** The tables decode the canonical code of these lengths. */
    ghost predicate For(lens: seq<nat>)
      reads Repr
    {
      && Shape() && Ascending(lens) && |lens| <= 255 && (forall i :: 0 <= i < |lens| ==> lens[i] <= 16)
      && Fits(lens, 16)
      && Lengths(lens) && Codes(lens, |lens|) && Ranges(lens, 17) && maxcode[17] == 0xFFFFFFFF
      && Fast(lens, |lens|)
    }

    constructor ()
      ensures Shape() && fresh(Repr) && fresh(values)
    {
      fast := new int[FAST_SIZE];
      code := new int[256];
      values := new byte[256];
      size := new int[257];
      maxcode := new int[18];
      delta := new int[17];
      Repr := {fast, code, size, maxcode, delta};
    }

    /** Accepts the code counts exactly when the Kraft sum is at most 1, and then
        builds the tables of the canonical code. */
    method Build(counts: seq<nat>) returns (ok: bool)
      requires Shape() && |counts| == 16 && |Sizes(counts, 16)| <= 255
      modifies Repr
      ensures ok <==> Fits(Sizes(counts, 16), 16)
      ensures ok ==> For(Sizes(counts, 16))
    {
      ghost var lens := Sizes(counts, 16);
      var k := ListSizes(counts);
      SizesAscending(counts, 16);
      ok := AssignCodes(lens, k);
      if ok {
        FillFast(lens, k);
      }
    }

    /** `size[k++] = i + 1`, count[i] times for every i. */
    method ListSizes(counts: seq<nat>) returns (k: nat)
      requires Shape() && |counts| == 16 && |Sizes(counts, 16)| <= 255
      modifies size
      ensures k == |Sizes(counts, 16)| && Lengths(Sizes(counts, 16))
    {
      k := 0;
      var i := 0;
      while i < 16
        invariant 0 <= i <= 16 && k == |Sizes(counts, i)| <= 255
        invariant forall m :: 0 <= m < k ==> size[m] == Sizes(counts, i)[m]
      {
        SizesGrow(counts, i + 1, 16);
        var j := 0;
        while j < counts[i]
          invariant 0 <= j <= counts[i] && k == |Sizes(counts, i)| + j
          invariant forall m :: 0 <= m < k ==> size[m] == Sizes(counts, i + 1)[m]
        {
          size[k] := i + 1;
          k := k + 1;
          j := j + 1;
        }
        i := i + 1;
      }
      size[k] := 0;
    }

    /** The code counter runs through all lengths. */
    method AssignCodes(ghost lens: seq<nat>, n: nat) returns (ok: bool)
      requires Shape() && Ascending(lens) && |lens| == n <= 255 && Lengths(lens)
      requires forall i :: 0 <= i < n ==> lens[i] <= 16
      modifies code, maxcode, delta
      ensures ok <==> Fits(lens, 16)
      ensures ok ==> Codes(lens, n) && Ranges(lens, 17) && maxcode[17] == 0xFFFFFFFF
    {
      hide Fits, Shl, End, Count, Below, Ascending, Lengths;
      var c, k := 0, 0;
      FirstRound(lens);
      var j := 1;
      while j <= 16
        invariant 1 <= j <= 17 && c == First(lens, j) && k == Below(lens, |lens|, j) <= n
        invariant End(lens, j - 1) <= Shl(1, j - 1)
        invariant Codes(lens, k) && Ranges(lens, j)
      {
        Round(lens, j);
        ok, c, k := AssignLength(lens, n, j, c, k);
        if !ok { return; }
        c := Shl(c, 1);
        j := j + 1;
      }
      LastRound(lens, 16);
      maxcode[j] := 0xFFFFFFFF;
      ok := true;
    }

    /** One round of the length loop: codes, range end and symbol offset of length j. */
    method AssignLength(ghost lens: seq<nat>, n: nat, j: nat, c0: nat, k0: nat) returns (ok: bool, c: nat, k: nat)
      requires Shape() && Ascending(lens) && |lens| == n <= 255 && Lengths(lens)
      requires 1 <= j <= 16 && k0 == Below(lens, |lens|, j) <= n && c0 == First(lens, j) && Codes(lens, k0)
      requires Below(lens, |lens|, j + 1) <= n && Shl(End(lens, j), 16 - j) >= 0
      requires First(lens, j) + Count(lens, |lens|, j) == End(lens, j)
      requires Count(lens, |lens|, j) == 0 ==> End(lens, j) <= Shl(1, j)
      modifies code, maxcode, delta
      ensures ok <==> End(lens, j) <= Shl(1, j)
      ensures ok ==> k == Below(lens, |lens|, j + 1) && c == End(lens, j) && Codes(lens, k)
      ensures ok ==> maxcode[j] == Shl(End(lens, j), 16 - j) && delta[j] == Below(lens, |lens|, j) - First(lens, j)
      ensures forall t :: 0 <= t < 17 && t != j ==> maxcode[t] == old(maxcode[t]) && delta[t] == old(delta[t])
    {
      hide Shl, End, Count, Below, Ascending, Codes;
      ok, c, k := true, c0, k0;
      delta[j] := k - c;
      RunStart(lens, j);
      if size[k] == j {
        c, k := AssignRun(lens, n, j, c, k);
        if c - 1 >= Shl(1, j) { return false, c, k; }
      } else {
        RunEnd(lens, j, k);
      }
      maxcode[j] := Shl(c, 16 - j);
    }

    /** Number the codes of length j. */
    method AssignRun(ghost lens: seq<nat>, n: nat, j: nat, c0: nat, k0: nat) returns (c: nat, k: nat)
      requires Shape() && Ascending(lens) && |lens| == n <= 255 && Lengths(lens)
      requires 1 <= j && k0 == Below(lens, |lens|, j) <= n && c0 == First(lens, j) && Codes(lens, k0)
      modifies code
      ensures k0 <= k == Below(lens, |lens|, j + 1) <= n && c == First(lens, j) + Count(lens, |lens|, j) &&
              Codes(lens, k)
    {
      hide Count, Below, Ascending, End;
      RunStart(lens, j);
      c, k := c0, k0;
      while size[k] == j
        invariant k0 <= k <= n && k == k0 + Count(lens, k, j) && c == First(lens, j) + Count(lens, k, j)
        invariant Codes(lens, k)
        decreases n - k
      {
        CountNext(lens, k, j);
        code[k] := c % 0x10000;
        k := k + 1;
        c := c + 1;
      }
      RunEnd(lens, j, k);
    }

    /** Enter the short codes in the direct table; 255 marks "no short code". */
    method FillFast(ghost lens: seq<nat>, k: nat)
      requires Shape() && Ascending(lens) && |lens| == k <= 255 && (forall i :: 0 <= i < k ==> lens[i] <= 16)
      requires Fits(lens, 16) && Lengths(lens) && Codes(lens, k)
      modifies fast
      ensures Fast(lens, k)
    {
      hide Fits, Shl, Shr, Code, Count;
      forall w | 0 <= w < FAST_SIZE { fast[w] := 255; }
      var i := 0;
      while i < k
        invariant 0 <= i <= k
        invariant Fast(lens, i)
      {
        var s := size[i];
        if s <= FAST_BITS {
          ShortCode(lens, i);
          var c := Shl(code[i], FAST_BITS - s);
          var m := Shl(1, FAST_BITS - s);
          EnterFast(lens, i, c, m);
        } else {
          forall w | 0 <= w < FAST_SIZE ensures FastEntry(lens, i + 1, w, fast[w]) {
            assert FastEntry(lens, i, w, fast[w]);
            FastEntryStep(lens, i, w, fast[w]);
          }
        }
        i := i + 1;
      }
    }

    method EnterFast(ghost lens: seq<nat>, i: nat, c: nat, m: nat)
      requires Shape() && Ascending(lens) && i < |lens| <= 255 && lens[i] <= FAST_BITS
      requires c == Shl(Code(lens, i), FAST_BITS - lens[i]) && m == Shl(1, FAST_BITS - lens[i]) && c + m <= FAST_SIZE
      requires Fast(lens, i)
      modifies fast
      ensures Fast(lens, i + 1)
    {
      hide Shl, Shr, Code;
      ghost var before := fast[..];
      var j := 0;
      while j < m
        invariant 0 <= j <= m
        invariant forall w :: 0 <= w < FAST_SIZE ==> fast[w] == if c <= w < c + j then i else before[w]
      {
        fast[c + j] := i;
        j := j + 1;
      }
      forall w | 0 <= w < FAST_SIZE ensures FastEntry(lens, i + 1, w, fast[w]) {
        assert FastEntry(lens, i, w, before[w]);
        FastEntryStep(lens, i, w, before[w]);
        HitRange(lens, i, w);
      }
    }
  }

  lemma {:induction false} SizesGrow(counts: seq<nat>, m: nat, n: nat)
    requires m <= n <= |counts|
    ensures |Sizes(counts, m)| <= |Sizes(counts, n)|
    decreases n
  {
    if m < n { SizesGrow(counts, m, n - 1); }
  }

  lemma FastEntryStep(lens: seq<nat>, n: nat, w: nat, v: int)
    requires Ascending(lens) && n < |lens| <= 255 && FastEntry(lens, n, w, v)
    ensures Hits(lens, n, w) ==> FastEntry(lens, n + 1, w, n)
    ensures !Hits(lens, n, w) ==> FastEntry(lens, n + 1, w, v)
  {
    hide Hits;
    forall h: nat | h < n && Hits(lens, h, w) && Hits(lens, n, w) ensures false {
      HitUnique(lens, h, n, w);
    }
  }

  lemma ShortCode(lens: seq<nat>, i: nat)
    requires Ascending(lens) && i < |lens| && lens[i] <= FAST_BITS && Fits(lens, 16)
    ensures Code(lens, i) < 0x10000
    ensures var t := FAST_BITS - lens[i];
            Shl(Code(lens, i), t) >= 0 && Shl(1, t) >= 0 && Shl(Code(lens, i), t) + Shl(1, t) <= FAST_SIZE
  {
    var t, c := FAST_BITS - lens[i], Code(lens, i);
    CodeBound(lens, i, 16);
    ShlNonNegative(c, t);
    ShlNonNegative(1, t);
    ShlAdd(c, 1, t);
    ShlMonotone(c + 1, Shl(1, lens[i]), t);
    ShlShl(1, lens[i], t);
    assert Shl(1, 9) == 512;
    ShlNonNegative(c + 1, t);
  }

  lemma FirstRound(lens: seq<nat>)
    ensures First(lens, 1) == 0 && Below(lens, |lens|, 1) == 0 && End(lens, 0) <= Shl(1, 0)
  {
    BelowStep(lens, |lens|, 1);
  }

  /** One round of the length loop. */
  lemma Round(lens: seq<nat>, j: nat)
    requires 1 <= j <= 16 && End(lens, j - 1) <= Shl(1, j - 1)
    ensures Shl(End(lens, j), 16 - j) >= 0
    ensures Shl(End(lens, j), 1) == First(lens, j + 1)
    ensures First(lens, j) + Count(lens, |lens|, j) == End(lens, j)
    ensures Below(lens, |lens|, j + 1) <= |lens|
    ensures Count(lens, |lens|, j) == 0 ==> End(lens, j) <= Shl(1, j)
    ensures End(lens, j) > Shl(1, j) ==> !Fits(lens, 16)
  {
    BelowBound(lens, |lens|, j + 1);
    ShlNonNegative(End(lens, j), 16 - j);
    assert Shl(End(lens, j), 1) == 2 * Shl(End(lens, j), 0);
    if Fits(lens, 16) { FitsEarlier(lens, j, 16); }
  }

  lemma LastRound(lens: seq<nat>, j: nat)
    requires j == 16 && Ascending(lens) && forall i :: 0 <= i < |lens| ==> lens[i] <= 16
    ensures Fits(lens, 16) <==> End(lens, j) <= Shl(1, j)
    ensures Below(lens, |lens|, j + 1) == |lens|
  {
    EndIsKraft(lens, j);
    BelowAndEqual(lens, |lens|, j);
    BelowStep(lens, |lens|, j);
  }

  /** One more symbol of length j. */
  lemma CountNext(lens: seq<nat>, k: nat, j: nat)
    requires k < |lens| && lens[k] == j && j > 0
    ensures Count(lens, k + 1, j) == Count(lens, k, j) + 1
    ensures Code(lens, k) == First(lens, j) + Count(lens, k, j)
  {}
}
