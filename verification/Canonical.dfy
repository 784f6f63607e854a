/** Canonical prefix codes: code lengths in, codes out (RFC 1951 section 3.2.2,
    ITU-T T.81 Annex C). */
module Canonical {
  import opened Bits

  /** Number of symbols j < n whose length is s. */
  function Count(lens: seq<nat>, n: nat, s: nat): nat
    requires n <= |lens|
  {
    if n == 0 then 0 else Count(lens, n - 1, s) + (if lens[n - 1] == s then 1 else 0)
  }

  /** Number of symbols j < n whose length is between 1 and s - 1. */
  function Below(lens: seq<nat>, n: nat, s: nat): nat
    requires n <= |lens|
  {
    if n == 0 then 0 else Below(lens, n - 1, s) + (if 0 < lens[n - 1] < s then 1 else 0)
  }

  /** One past the last code of length s. */
  function End(lens: seq<nat>, s: nat): nat {
    if s == 0 then 0 else 2 * End(lens, s - 1) + Count(lens, |lens|, s)
  }

  /** The first code of length s. */
  function First(lens: seq<nat>, s: nat): nat
    requires s > 0
  {
    2 * End(lens, s - 1)
  }

  function Code(lens: seq<nat>, i: nat): nat
    requires i < |lens| && lens[i] > 0
  {
    First(lens, lens[i]) + Count(lens, i, lens[i])
  }

  /** Code space used by symbols j < n of length at most s, in units of 2^-s. */
  function Kraft(lens: seq<nat>, n: nat, s: nat): nat
    requires n <= |lens|
  {
    if n == 0 then 0
    else
      Kraft(lens, n - 1, s) +
      if 0 < lens[n - 1] <= s then (ShlNonNegative(1, s - lens[n - 1]); Shl(1, s - lens[n - 1])) else 0
  }

  /** The lengths fit in the code space: the Kraft sum over lengths up to s is at most 1. */
  predicate Fits(lens: seq<nat>, s: nat) {
    Kraft(lens, |lens|, s) <= Shl(1, s)
  }

  // ----- counting

  lemma {:induction false} CountMonotone(lens: seq<nat>, m: nat, n: nat, s: nat)
    requires m <= n <= |lens|
    ensures Count(lens, m, s) <= Count(lens, n, s)
    ensures m < n && lens[m] == s ==> Count(lens, m, s) < Count(lens, n, s)
  {
    if m < n { CountMonotone(lens, m, n - 1, s); }
  }

  lemma {:induction false} BelowStep(lens: seq<nat>, n: nat, s: nat)
    requires n <= |lens| && s > 0
    ensures Below(lens, n, s + 1) == Below(lens, n, s) + Count(lens, n, s)
    ensures Below(lens, n, 1) == 0
  {
    if n > 0 { BelowStep(lens, n - 1, s); }
  }

  lemma {:induction false} BelowBound(lens: seq<nat>, n: nat, s: nat)
    requires n <= |lens|
    ensures Below(lens, n, s) <= n
  {
    if n > 0 { BelowBound(lens, n - 1, s); }
  }

  lemma {:induction false} BelowMonotone(lens: seq<nat>, n: nat, s: nat, t: nat)
    requires n <= |lens| && s <= t
    ensures Below(lens, n, s) <= Below(lens, n, t)
  {
    if n > 0 { BelowMonotone(lens, n - 1, s, t); }
  }

  /** The r-th symbol of length s. */
  lemma {:induction false} SymbolOfRank(lens: seq<nat>, n: nat, s: nat, r: nat) returns (i: nat)
    requires n <= |lens| && r < Count(lens, n, s)
    ensures i < n && lens[i] == s && Count(lens, i, s) == r
  {
    if r == Count(lens, n - 1, s) && lens[n - 1] == s {
      i := n - 1;
    } else {
      i := SymbolOfRank(lens, n - 1, s, r);
    }
  }

  /** Position of symbol i when symbols are sorted by length, then by index. */
  function SortedIndex(lens: seq<nat>, i: nat): nat
    requires i < |lens| && lens[i] > 0
  {
    Below(lens, |lens|, lens[i]) + Count(lens, i, lens[i])
  }

  lemma SortedIndexInjective(lens: seq<nat>, i: nat, j: nat)
    requires i < |lens| && j < |lens| && lens[i] > 0 && lens[j] > 0 && i != j
    ensures SortedIndex(lens, i) != SortedIndex(lens, j)
  {
    if lens[i] == lens[j] {
      CountMonotone(lens, if i < j then i else j, if i < j then j else i, lens[i]);
    } else if lens[i] < lens[j] {
      SortedIndexOrdered(lens, i, j);
    } else {
      SortedIndexOrdered(lens, j, i);
    }
  }

  lemma SortedIndexOrdered(lens: seq<nat>, i: nat, j: nat)
    requires i < |lens| && j < |lens| && 0 < lens[i] < lens[j]
    ensures SortedIndex(lens, i) < SortedIndex(lens, j)
  {
    CountMonotone(lens, i, |lens|, lens[i]);
    BelowStep(lens, |lens|, lens[i]);
    BelowMonotone(lens, |lens|, lens[i] + 1, lens[j]);
  }

  lemma SortedIndexBound(lens: seq<nat>, i: nat)
    requires i < |lens| && lens[i] > 0
    ensures SortedIndex(lens, i) < |lens|
  {
    CountMonotone(lens, i, |lens|, lens[i]);
    BelowStep(lens, |lens|, lens[i]);
    BelowBound(lens, |lens|, lens[i] + 1);
  }

  // ----- the Kraft sum

  lemma {:induction false} KraftStep(lens: seq<nat>, n: nat, s: nat)
    requires n <= |lens| && s > 0
    ensures Kraft(lens, n, s) == 2 * Kraft(lens, n, s - 1) + Count(lens, n, s)
  {
    if n > 0 { KraftStep(lens, n - 1, s); }
  }

  lemma {:induction false} KraftZero(lens: seq<nat>, n: nat)
    requires n <= |lens|
    ensures Kraft(lens, n, 0) == 0
  {
    if n > 0 { KraftZero(lens, n - 1); }
  }

  /** The running code counter is the Kraft sum so far. */
  lemma {:induction false} EndIsKraft(lens: seq<nat>, s: nat)
    ensures End(lens, s) == Kraft(lens, |lens|, s)
  {
    if s == 0 {
      KraftZero(lens, |lens|);
    } else {
      KraftStep(lens, |lens|, s);
      EndIsKraft(lens, s - 1);
    }
  }

  lemma {:induction false} FitsEarlier(lens: seq<nat>, s: nat, t: nat)
    requires s <= t && Fits(lens, t)
    ensures End(lens, s) <= Shl(1, s)
  {
    EndIsKraft(lens, t);
    if s < t {
      KraftStep(lens, |lens|, t);
      FitsEarlier(lens, s, t - 1);
    }
  }

  lemma {:induction false} EndMonotone(lens: seq<nat>, s: nat, t: nat)
    requires s <= t
    ensures Shl(End(lens, s), t - s) <= End(lens, t)
  {
    if s < t { EndMonotone(lens, s, t - 1); }
  }

  // ----- the rules of RFC 1951 section 3.2.2

  /** Codes of one length are consecutive in symbol order; shorter codes
      lexicographically precede longer ones, and none is a prefix of another. */
  lemma CodesOrdered(lens: seq<nat>, i: nat, j: nat)
    requires i < |lens| && j < |lens| && 0 < lens[i] <= lens[j]
    ensures lens[i] == lens[j] ==> Code(lens, j) - Code(lens, i) == Count(lens, j, lens[i]) - Count(lens, i, lens[i])
    ensures lens[i] < lens[j] ==> Code(lens, i) < Shr(Code(lens, j), lens[j] - lens[i])
  {
    hide Count, End, Shl, Shr;
    if lens[i] < lens[j] { ShorterFirst(lens, i, j); }
  }

  lemma ShorterFirst(lens: seq<nat>, i: nat, j: nat)
    requires i < |lens| && j < |lens| && 0 < lens[i] < lens[j]
    ensures Code(lens, i) < Shr(Code(lens, j), lens[j] - lens[i])
  {
    hide Count, Shr;
    var s, t := lens[i], lens[j];
    CountMonotone(lens, i, |lens|, s);
    EndMonotone(lens, s, t - 1);
    assert Shl(End(lens, s), t - s) == 2 * Shl(End(lens, s), t - 1 - s);
    ShrBound(Code(lens, j), End(lens, s), t - s);
  }

  /** When the lengths fit, every code fits in its length. */
  lemma CodeBound(lens: seq<nat>, i: nat, s: nat)
    requires i < |lens| && 0 < lens[i] <= s && Fits(lens, s)
    ensures Code(lens, i) < End(lens, lens[i]) <= Shl(1, lens[i])
  {
    CountMonotone(lens, i, |lens|, lens[i]);
    FitsEarlier(lens, lens[i], s);
  }
}
