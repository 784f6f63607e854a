/** In-place expansion of packed 1-, 2- and 4-bit samples to bytes. */
module PngExpand {
  import opened Bits
  import opened Buffers

  /** Bytes that hold x samples: `(x * depth + 7) >> 3`. */
  function Width(x: nat, depth: nat): nat
    requires depth in {1, 2, 4}
  {
    if depth == 1 then (x + 7) / 8 else if depth == 2 then (2 * x + 7) / 8 else (4 * x + 7) / 8
  }

  /** The byte that holds sample k. */
  function ByteIndex(depth: nat, k: nat): nat
    requires depth in {1, 2, 4}
  {
    if depth == 1 then k / 8 else if depth == 2 then k / 4 else k / 2
  }

  /** How far sample k stands above bit 0 of its byte: the first sample has the highest bits. */
  function ShiftOf(depth: nat, k: nat): nat
    requires depth in {1, 2, 4}
  {
    if depth == 1 then 7 - k % 8 else if depth == 2 then 6 - 2 * (k % 4) else 4 - 4 * (k % 2)
  }

  /** `stbi__depth_scale_table`, for grey images; other samples stay as they are. */
  function Scale(depth: nat, grey: bool): nat
    requires depth in {1, 2, 4}
  {
    if !grey then 1 else if depth == 1 then 0xFF else if depth == 2 then 0x55 else 0x11
  }

  /** The greatest grey sample becomes 255; palette indices stay as they are. */
  lemma ScaleLaw(depth: nat, grey: bool)
    requires depth in {1, 2, 4}
    ensures Scale(depth, grey) * (if grey then (if depth == 1 then 1 else if depth == 2 then 3 else 15) else 1) ==
            if grey then 255 else 1
  {}

  /** A sample of a byte, scaled. */
  function Scaled(b: byte, depth: nat, grey: bool, k: nat): (r: byte)
    requires depth in {1, 2, 4}
  {
    SampleBound(b, depth, k, grey);
    Scale(depth, grey) * Low(Shr(b, ShiftOf(depth, k)), depth)
  }

  lemma SampleBound(b: byte, depth: nat, k: nat, grey: bool)
    requires depth in {1, 2, 4}
    ensures Low(Shr(b, ShiftOf(depth, k)), depth) < Shl(1, depth)
    ensures 0 <= Scale(depth, grey) * Low(Shr(b, ShiftOf(depth, k)), depth) < 256
  {
    var x := Shr(b, ShiftOf(depth, k));
    Split(x, depth);
    assert Shl(1, 1) == 2 && Shl(1, 2) == 4 && Shl(1, 4) == 16;
  }

  /** The first n of the samples packed in a row, scaled to bytes. */
  function Samples(row: seq<byte>, depth: nat, grey: bool, n: nat): (s: seq<byte>)
    requires depth in {1, 2, 4} && Width(n, depth) <= |row|
    ensures |s| == n
  {
    seq(n, k requires 0 <= k < n => ByteOfSample(n, depth, k); Scaled(row[ByteIndex(depth, k)], depth, grey, k))
  }

  lemma ByteOfSample(x: nat, depth: nat, k: nat)
    requires depth in {1, 2, 4} && k < x
    ensures ByteIndex(depth, k) < Width(x, depth)
  {}

  /** The packed bytes stand at the right end of the row, so the byte that
      holds sample k is never left of place k. */
  lemma ReadBeforeWrite(x: nat, depth: nat, k: nat)
    requires depth in {1, 2, 4} && k < x
    ensures Width(x, depth) <= x
    ensures k <= x - Width(x, depth) + ByteIndex(depth, k)
  {}

  /** Unpack a row in place from left to right: every packed byte is read before
      it is overwritten. */
  method UnpackRow(out: array<byte>, cur: nat, inp: nat, x: nat, depth: nat, grey: bool)
    requires depth in {1, 2, 4} && Width(x, depth) <= x
    requires cur + x - Width(x, depth) <= inp && inp + Width(x, depth) <= out.Length && cur + x <= out.Length
    modifies out
    ensures out[..] == Splice(old(out[..]), cur, Samples(old(out[inp..inp + Width(x, depth)]), depth, grey, x))
  {
    hide Samples, Scaled, Splice, Width, ByteIndex;
    ghost var before := out[..];
    ghost var row := out[inp..inp + Width(x, depth)];
    ghost var all := Samples(row, depth, grey, x);
    SpliceNothing(before, cur);
    var k := 0;
    while k < x
      invariant k <= x
      invariant out[..] == Splice(before, cur, all[..k])
    {
      ReadBeforeWrite(x, depth, k);
      ByteOfSample(x, depth, k);
      SpliceElsewhere(before, cur, all[..k], inp + ByteIndex(depth, k));
      var b := out[inp + ByteIndex(depth, k)];
      SamplesAt(row, depth, grey, x, k);
      SpliceNext(before, out[..], cur, all, k);
      out[cur + k] := Scaled(b, depth, grey, k);
      k := k + 1;
    }
    assert all[..x] == all;
  }

  lemma SamplesAt(row: seq<byte>, depth: nat, grey: bool, n: nat, k: nat)
    requires depth in {1, 2, 4} && k < n && Width(n, depth) <= |row|
    ensures ByteIndex(depth, k) < Width(n, depth)
    ensures Samples(row, depth, grey, n)[k] == Scaled(row[ByteIndex(depth, k)], depth, grey, k)
  {
    ByteOfSample(n, depth, k);
  }

  /** Insert opaque alpha bytes behind x one-byte pixels, from right to left: no
      sample is overwritten before it is moved. */
  method InsertAlpha(out: array<byte>, cur: nat, x: nat)
    requires cur + 2 * x <= out.Length
    modifies out
    ensures out[..] == Splice(old(out[..]), cur, Interleaved(old(out[cur..cur + x])))
  {
    ghost var row := out[cur..cur + x];
    ghost var before := out[..];
    var i := x;
    while i > 0
      invariant 0 <= i <= x
      invariant forall j :: 0 <= j < cur + i || cur + 2 * x <= j < out.Length ==> out[j] == before[j]
      invariant forall j :: cur + 2 * i <= j < cur + 2 * x ==> out[j] == Interleaved(row)[j - cur]
    {
      i := i - 1;
      out[cur + 2 * i + 1] := 255;
      out[cur + 2 * i] := out[cur + i];
    }
    assert out[..] == Splice(before, cur, Interleaved(row));
  }

  /** Every byte with a 255 behind it. */
  function Interleaved(row: seq<byte>): (r: seq<byte>)
    ensures |r| == 2 * |row|
  {
    seq(2 * |row|, j requires 0 <= j < 2 * |row| => if j % 2 == 0 then row[j / 2] else 255)
  }

  // ----- packing

  /** Sample k, or zero past the end. */
  function Padded(s: seq<nat>, k: nat): nat {
    if k < |s| then s[k] else 0
  }

  /** All samples fit the depth. */
  predicate Fit(s: seq<nat>, depth: nat) {
    forall k :: 0 <= k < |s| ==> s[k] < Shl(1, depth)
  }

  lemma FitLaw(s: seq<nat>, depth: nat)
    requires depth in {1, 2, 4}
    ensures Fit(s, depth) <==>
            forall k :: 0 <= k < |s| ==> s[k] < if depth == 1 then 2 else if depth == 2 then 4 else 16
  {
    assert Shl(1, 1) == 2 && Shl(1, 2) == 4 && Shl(1, 4) == 16;
  }

  /** n samples from index i on as one number, the first in the highest bits. */
  function PackBits(s: seq<nat>, depth: nat, i: nat, n: nat): (r: nat)
    decreases |s|, n
  {
    if n == 0 then 0
    else
      ShlNonNegative(PackBits(s, depth, i, n - 1), depth);
      (Padded(s, i + n - 1) + Shl(PackBits(s, depth, i, n - 1), depth))
  }

  /** The width of t samples in bits. */
  function BitsOf(depth: nat, t: nat): nat
    requires depth in {1, 2, 4}
  {
    if depth == 1 then t else if depth == 2 then 2 * t else 4 * t
  }

  /** Samples in a byte. */
  function Per(depth: nat): (r: nat)
    requires depth in {1, 2, 4}
    ensures BitsOf(depth, r) == 8
  {
    if depth == 1 then 8 else if depth == 2 then 4 else 2
  }

  lemma {:induction false} PackBound(s: seq<nat>, depth: nat, i: nat, n: nat)
    requires depth in {1, 2, 4} && Fit(s, depth)
    ensures PackBits(s, depth, i, n) < Shl(1, BitsOf(depth, n))
    decreases n
  {
    if n > 0 {
      PackBound(s, depth, i, n - 1);
      var p, b := PackBits(s, depth, i, n - 1), BitsOf(depth, n - 1);
      ShlMonotone(p + 1, Shl(1, b), depth);
      ShlAdd(p, 1, depth);
      ShlShl(1, b, depth);
      ShlNonNegative(1, depth);
      assert BitsOf(depth, n) == b + depth;
    }
  }

  /** Shifting right and masking gives sample m back. */
  lemma {:induction false} UnpackBits(s: seq<nat>, depth: nat, i: nat, n: nat, m: nat)
    requires depth in {1, 2, 4} && Fit(s, depth) && m < n
    ensures Low(Shr(PackBits(s, depth, i, n), BitsOf(depth, n - 1 - m)), depth) == Padded(s, i + m)
    decreases n
  {
    hide Low, Shr;
    ShlNonNegative(1, depth);
    var p := PackBits(s, depth, i, n - 1);
    Unpack(Padded(s, i + n - 1), p, depth);
    if m < n - 1 {
      UnpackBits(s, depth, i, n - 1, m);
      ShrShr(PackBits(s, depth, i, n), depth, BitsOf(depth, n - 2 - m));
      assert BitsOf(depth, n - 1 - m) == depth + BitsOf(depth, n - 2 - m);
    } else {
      ShrNothing(PackBits(s, depth, i, n));
    }
  }

  lemma ShrNothing(x: nat)
    ensures Shr(x, 0) == x
  {}

  /** A row of packed samples (PNG specification, section 7.2). */
  function Packed(s: seq<nat>, depth: nat): (r: seq<byte>)
    requires depth in {1, 2, 4} && Fit(s, depth)
    ensures |r| == Width(|s|, depth)
  {
    seq(Width(|s|, depth), j requires 0 <= j => PackByte(s, depth, j))
  }

  function PackByte(s: seq<nat>, depth: nat, j: nat): (b: byte)
    requires depth in {1, 2, 4} && Fit(s, depth)
  {
    PackBound(s, depth, j * Per(depth), Per(depth));
    assert Shl(1, 8) == 256;
    PackBits(s, depth, j * Per(depth), Per(depth))
  }

  /** Unpacking packed samples gives the samples back, scaled. */
  lemma SamplesOfPacked(s: seq<nat>, depth: nat, grey: bool, k: nat)
    requires depth in {1, 2, 4} && Fit(s, depth) && k < |s|
    ensures Samples(Packed(s, depth), depth, grey, |s|)[k] == Scale(depth, grey) * s[k]
  {
    hide Shr, Low, PackBits;
    SamplesAt(Packed(s, depth), depth, grey, |s|, k);
    var j := ByteIndex(depth, k);
    var m := k - j * Per(depth);
    assert 0 <= m < Per(depth) && ShiftOf(depth, k) == BitsOf(depth, Per(depth) - 1 - m);
    UnpackBits(s, depth, j * Per(depth), Per(depth), m);
  }
}
