/** Bytes written over a part of a buffer. */
module Buffers {
  import opened Bits

  /** The buffer after `row` is written at `at`. */
  function Splice(out: seq<byte>, at: nat, row: seq<byte>): (r: seq<byte>)
    requires at + |row| <= |out|
    ensures |r| == |out|
  {
    out[..at] + row + out[at + |row|..]
  }

  lemma SpliceNothing(out: seq<byte>, base: nat)
    requires base <= |out|
    ensures Splice(out, base, []) == out
  {}

  lemma SpliceNext(before: seq<byte>, cur: seq<byte>, base: nat, r: seq<byte>, k: nat)
    requires k < |r| && base + |r| <= |before| && cur == Splice(before, base, r[..k])
    ensures cur[base + k := r[k]] == Splice(before, base, r[..k + 1])
  {}

  lemma SpliceAppend(before: seq<byte>, base: nat, s: seq<byte>, v: byte)
    requires base + |s| < |before|
    ensures Splice(before, base, s)[base + |s| := v] == Splice(before, base, s + [v])
  {}

  lemma SpliceRead(before: seq<byte>, base: nat, s: seq<byte>, i: nat)
    requires base + |s| <= |before|
    ensures i < |s| ==> Splice(before, base, s)[base + i] == s[i]
    ensures i < base ==> Splice(before, base, s)[i] == before[i]
  {}

  lemma SpliceElsewhere(before: seq<byte>, at: nat, row: seq<byte>, i: nat)
    requires at + |row| <= |before| && i < |before| && !(at <= i < at + |row|)
    ensures Splice(before, at, row)[i] == before[i]
  {}

  lemma SpliceSlice(before: seq<byte>, at: nat, row: seq<byte>)
    requires at + |row| <= |before|
    ensures Splice(before, at, row)[at..at + |row|] == row
  {}

  lemma SliceOfSlice(s: seq<byte>, base: nat, length: nat, at: nat, n: nat)
    requires base + length <= |s| && at + n <= length
    ensures s[base..base + length][at..at + n] == s[base + at..base + at + n]
  {
    var part := s[base..base + length];
    var inner, outer := part[at..at + n], s[base + at..base + at + n];
    forall k | 0 <= k < n ensures inner[k] == outer[k] {
      assert part[at + k] == s[base + at + k];
    }
  }

  /** A write inside a part of the buffer. */
  lemma SpliceInside(out: seq<byte>, base: nat, length: nat, off: nat, row: seq<byte>)
    requires base + length <= |out| && off + |row| <= length
    ensures var part := out[base..base + length];
            Splice(out, base + off, row)[base..base + length] == part[..off] + row + part[off + |row|..]
  {
    hide Splice;
    var part := out[base..base + length];
    var r := Splice(out, base + off, row);
    forall j | base <= j < base + length ensures r[j] == (part[..off] + row + part[off + |row|..])[j - base] {
      if base + off <= j < base + off + |row| {
        SpliceRead(out, base + off, row, j - (base + off));
      } else {
        SpliceElsewhere(out, base + off, row, j);
        assert part[j - base] == out[j];
      }
    }
  }

  /** A write outside it. */
  lemma SpliceOutside(out: seq<byte>, at: nat, row: seq<byte>, base: nat, length: nat)
    requires at + |row| <= |out| && base + length <= |out| && (at + |row| <= base || base + length <= at)
    ensures Splice(out, at, row)[base..base + length] == out[base..base + length]
  {
    hide Splice;
    forall j | base <= j < base + length ensures Splice(out, at, row)[j] == out[j] {
      SpliceElsewhere(out, at, row, j);
    }
  }
}
