/** What it means to decode one canonical prefix code from a bit stream, and the
    code-range arithmetic that lets a decoder find it by comparing counters. */
module PrefixDecode {
  import opened Options
  import opened Bits
  import opened BitStream
  import opened Canonical

  /** The code of symbol i stands at position p of the stream. */
  ghost predicate Matches(lens: seq<nat>, i: nat, S: seq<byte>, p: nat) {
    i < |lens| && lens[i] > 0 && MsbCode(S, p, lens[i]) == Code(lens, i)
  }

  /** Reference decoder: the symbol whose code stands at p, if there is one. */
  ghost function Symbol(lens: seq<nat>, S: seq<byte>, p: nat): Option<nat> {
    if i: nat :| Matches(lens, i, S, p) then Some(i) else None
  }

  /** No code is a prefix of another, so at most one symbol matches. */
  lemma MatchUnique(lens: seq<nat>, S: seq<byte>, p: nat, i: nat, j: nat)
    requires Matches(lens, i, S, p) && Matches(lens, j, S, p)
    ensures i == j
  {
    if lens[i] == lens[j] {
      if i < j { CountMonotone(lens, i, j, lens[i]); }
      if j < i { CountMonotone(lens, j, i, lens[i]); }
    } else if lens[i] < lens[j] {
      CodesOrdered(lens, i, j);
      MsbPrefix(S, p, lens[i], lens[j]);
    } else {
      CodesOrdered(lens, j, i);
      MsbPrefix(S, p, lens[j], lens[i]);
    }
  }

  lemma SymbolIs(lens: seq<nat>, S: seq<byte>, p: nat, i: nat)
    requires Matches(lens, i, S, p)
    ensures Symbol(lens, S, p) == Some(i)
  {
    forall j: nat | Matches(lens, j, S, p) ensures j == i { MatchUnique(lens, S, p, i, j); }
  }

  /** A reading of s bits inside the range of codes of length s is a code. */
  lemma RangeMatch(lens: seq<nat>, S: seq<byte>, p: nat, s: nat) returns (i: nat)
    requires s > 0 && First(lens, s) <= MsbCode(S, p, s) < End(lens, s)
    ensures Matches(lens, i, S, p) && lens[i] == s
    ensures MsbCode(S, p, s) - First(lens, s) == Count(lens, i, s)
  {
    i := SymbolOfRank(lens, |lens|, s, MsbCode(S, p, s) - First(lens, s));
  }

  /** If no code of length up to s matches, every shorter reading lies at or
      beyond the end of its range. */
  lemma {:induction false} BeyondRanges(lens: seq<nat>, S: seq<byte>, p: nat, s: nat)
    requires forall i: nat :: Matches(lens, i, S, p) ==> lens[i] > s
    ensures End(lens, s) <= MsbCode(S, p, s)
  {
    if s > 0 {
      BeyondRanges(lens, S, p, s - 1);
      if MsbCode(S, p, s) < End(lens, s) {
        var i := RangeMatch(lens, S, p, s);
      }
    }
  }

  /** The first length whose range ends beyond the reading is the length of
      the code, and the offset into that range is the symbol's rank. */
  lemma FirstRangeMatch(lens: seq<nat>, S: seq<byte>, p: nat, s: nat) returns (i: nat)
    requires s > 0
    requires End(lens, s - 1) <= MsbCode(S, p, s - 1) && MsbCode(S, p, s) < End(lens, s)
    ensures Matches(lens, i, S, p) && lens[i] == s
    ensures First(lens, s) <= MsbCode(S, p, s)
    ensures MsbCode(S, p, s) - First(lens, s) == Count(lens, i, s)
  {
    i := RangeMatch(lens, S, p, s);
  }

  /** The comparison a decoder makes on a left-justified reading of n bits. */
  lemma Justified(lens: seq<nat>, S: seq<byte>, p: nat, s: nat, n: nat)
    requires s <= n
    ensures MsbCode(S, p, n) < Shl(End(lens, s), n - s) <==> MsbCode(S, p, s) < End(lens, s)
  {
    MsbPrefix(S, p, s, n);
    ShrBound(MsbCode(S, p, n), End(lens, s), n - s);
  }

  /** No code matches exactly when the reading is beyond the last range. */
  lemma NoMatch(lens: seq<nat>, S: seq<byte>, p: nat, s: nat)
    requires End(lens, s) <= MsbCode(S, p, s)
    requires forall i :: 0 <= i < |lens| ==> lens[i] <= s
    ensures Symbol(lens, S, p) == None
  {
    forall i: nat ensures !Matches(lens, i, S, p) {
      if Matches(lens, i, S, p) {
        var t := lens[i];
        CountMonotone(lens, i, |lens|, t);
        MsbPrefix(S, p, t, s);
        EndMonotone(lens, t, s);
        ShrBound(MsbCode(S, p, s), End(lens, t), s - t);
      }
    }
  }

}
