/** `stbi__create_png_image_raw` for 1-, 2- and 4-bit samples. */
module PngPacked {
  import opened Products
  import opened Bits
  import opened Buffers
  import opened PngFilter
  import opened PngRows
  import opened PngLines
  import opened PngExpand

  /** Row slot j of the buffer. */
  function Slot(out: seq<byte>, stride: nat, j: nat): (r: seq<byte>)
    requires Times(j, stride) + stride <= |out|
    ensures |r| == stride
  {
    out[Times(j, stride)..Times(j, stride) + stride]
  }

  /** Slots in the buffer of y rows. */
  lemma SlotFits(y: nat, stride: nat, j: nat)
    requires j < y
    ensures Times(j, stride) + stride <= Times(y, stride)
  {
    TimesNext(j, stride);
    TimesMonotone(j + 1, y, stride);
  }

  /** A write inside slot j changes that slot only. */
  lemma SpliceSlot(out: seq<byte>, y: nat, stride: nat, j: nat, off: nat, row: seq<byte>, i: nat)
    requires j < y && i < y && |out| == Times(y, stride) && off + |row| <= stride
    ensures Times(i, stride) + stride <= |out| && Times(j, stride) + stride <= |out|
    ensures var r := Splice(out, Times(j, stride) + off, row);
            Slot(r, stride, i) ==
            if i == j then Slot(out, stride, j)[..off] + row + Slot(out, stride, j)[off + |row|..]
            else Slot(out, stride, i)
  {
    hide Times, Splice;
    SlotFits(y, stride, i); SlotFits(y, stride, j);
    var at := Times(j, stride);
    if i == j {
      SpliceInside(out, at, stride, off, row);
    } else {
      TimesNext(i, stride); TimesNext(j, stride);
      if i < j { TimesMonotone(i + 1, j, stride); } else { TimesMonotone(j + 1, i, stride); }
      SpliceOutside(out, at + off, row, Times(i, stride), stride);
    }
  }

  /** What the code takes for the row above: packed rows stand at the right end
      of their slots, but it reads from the left end. */
  function SeenAbove(junk: seq<byte>, w: nat, stride: nat, rows: seq<seq<byte>>): seq<byte>
    requires w <= stride && Times(|rows|, stride) <= |junk| && Uniform(rows, w)
  {
    if rows == [] then []
    else
      SlotFits(|rows|, stride, |rows| - 1);
      (Slot(junk, stride, |rows| - 1)[..stride - w] + rows[|rows| - 1])[..w]
  }

  /** The rows that the code computes, over the former contents of the buffer. */
  function SeenRows(lines: seq<Line>, junk: seq<byte>, w: nat, stride: nat): (rows: seq<seq<byte>>)
    requires Decodable(lines) && UniformLines(lines, w) && w <= stride && Times(|lines|, stride) <= |junk|
    ensures |rows| == |lines| && Uniform(rows, w)
  {
    if lines == [] then []
    else
      var m := |lines| - 1;
      TimesMonotone(m, |lines|, stride);
      var above := SeenRows(lines[..m], junk, w, stride);
      above + [Recon(lines[m].filter, lines[m].bytes, SeenAbove(junk, w, stride, above), 1, w)]
  }

  // ----- when the code meets the standard

  /** No row but the first is filtered against the row above it. */
  predicate LeftFilters(lines: seq<Line>) {
    forall j :: 0 < j < |lines| ==> lines[j].filter <= 1
  }

  lemma {:induction false} SeenIsTrue(lines: seq<Line>, junk: seq<byte>, w: nat, stride: nat)
    requires Decodable(lines) && UniformLines(lines, w) && w <= stride && Times(|lines|, stride) <= |junk|
    requires w == stride || LeftFilters(lines)
    ensures SeenRows(lines, junk, w, stride) == Rows(lines, 1)
    decreases |lines|
  {
    hide Recon, SeenAbove;
    if lines != [] {
      var m := |lines| - 1;
      var l := lines[m];
      TimesMonotone(m, |lines|, stride);
      SeenIsTrue(lines[..m], junk, w, stride);
      var above := Rows(lines[..m], 1);
      if w == stride && m > 0 {
        SeenWhole(junk, w, stride, above);
      } else if m > 0 {
        UnreadAbove(l.filter, l.bytes, SeenAbove(junk, w, stride, above), Last(above), w);
      } else {
        SeenNothing(junk, w, stride);
      }
    }
  }

  lemma SeenNothing(junk: seq<byte>, w: nat, stride: nat)
    requires w <= stride
    ensures Times(0, stride) == 0 && SeenAbove(junk, w, stride, []) == []
  {}

  /** Rows that fill their slots are read where they stand. */
  lemma SeenWhole(junk: seq<byte>, w: nat, stride: nat, rows: seq<seq<byte>>)
    requires w == stride && rows != [] && Times(|rows|, stride) <= |junk| && Uniform(rows, w)
    ensures SeenAbove(junk, w, stride, rows) == rows[|rows| - 1]
  {
    SlotFits(|rows|, stride, |rows| - 1);
  }

  /** The filters none and sub do not look at the row above. */
  lemma {:induction false} UnreadAbove(f: nat, raw: seq<byte>, prior: seq<byte>, prior': seq<byte>, n: nat)
    requires f <= 1 && n <= |raw|
    ensures Recon(f, raw, prior, 1, n) == Recon(f, raw, prior', 1, n)
    decreases n
  {
    if n > 0 { UnreadAbove(f, raw, prior, prior', n - 1); }
  }

  lemma {:induction false} SeenPrefix(lines: seq<Line>, junk: seq<byte>, w: nat, stride: nat, m: nat)
    requires Decodable(lines) && UniformLines(lines, w) && w <= stride && Times(|lines|, stride) <= |junk| &&
             m <= |lines|
    ensures Times(m, stride) <= |junk|
    ensures SeenRows(lines, junk, w, stride)[..m] == SeenRows(lines[..m], junk, w, stride)
    ensures Rows(lines, 1)[..m] == Rows(lines[..m], 1)
    decreases |lines|
  {
    hide Recon, SeenAbove;
    TimesMonotone(m, |lines|, stride);
    if m < |lines| {
      var k := |lines| - 1;
      TimesMonotone(k, |lines|, stride);
      SeenPrefix(lines[..k], junk, w, stride, m);
      assert lines[..k][..m] == lines[..m];
    } else {
      assert lines[..m] == lines;
    }
  }

  /** The rows that the code computes obey the equations of their filters, over what it
      takes for the row above. */
  lemma SeenRight(lines: seq<Line>, junk: seq<byte>, w: nat, stride: nat, m: nat)
    requires Decodable(lines) && UniformLines(lines, w) && w <= stride && Times(|lines|, stride) <= |junk|
    requires m < |lines|
    ensures Times(m, stride) <= |junk|
    ensures RowRight(lines[m].filter, lines[m].bytes, SeenAbove(junk, w, stride, SeenRows(lines[..m], junk, w, stride)),
                     1, SeenRows(lines, junk, w, stride)[m])
  {
    hide Recon, RowRight, SeenAbove;
    SeenPrefix(lines, junk, w, stride, m + 1);
    TimesMonotone(m, |lines|, stride);
    assert lines[..m + 1][..m] == lines[..m];
    var above := SeenAbove(junk, w, stride, SeenRows(lines[..m], junk, w, stride));
    AboveSize(junk, w, stride, SeenRows(lines[..m], junk, w, stride));
    ReconRight(lines[m].filter, lines[m].bytes, above, 1);
    assert SeenRows(lines, junk, w, stride)[m] == SeenRows(lines, junk, w, stride)[..m + 1][m];
  }

  lemma AboveSize(junk: seq<byte>, w: nat, stride: nat, rows: seq<seq<byte>>)
    requires w <= stride && Times(|rows|, stride) <= |junk| && Uniform(rows, w)
    ensures rows == [] ==> SeenAbove(junk, w, stride, rows) == []
    ensures rows != [] ==> |SeenAbove(junk, w, stride, rows)| == w
  {
    hide Times;
    if rows != [] { SlotFits(|rows|, stride, |rows| - 1); }
  }

  predicate Flipped(b: byte, c: byte) {
    c == if b < 128 then b + 128 else b - 128
  }

  lemma PredictDiffers(f: nat, b: byte, c: byte, raw: byte)
    requires 2 <= f <= 4 && Flipped(b, c)
    ensures (raw + Predict(f, 0, b, 0)) % 256 != (raw + Predict(f, 0, c, 0)) % 256
  {}

  /** The predictors that look up tell a byte above from one that differs in its top bit. */
  lemma FirstByteDiffers(f: nat, raw: seq<byte>, prior: seq<byte>, prior': seq<byte>, w: nat)
    requires 2 <= f <= 4 && 0 < w <= |raw| && prior != [] && prior' != [] && Flipped(prior[0], prior'[0])
    ensures Recon(f, raw, prior, 1, w) != Recon(f, raw, prior', 1, w)
  {
    hide Recon, Predict;
    ReconAt(f, raw, prior, 1, w, 0);
    ReconAt(f, raw, prior', 1, w, 0);
    PredictDiffers(f, prior[0], prior'[0], raw[0]);
  }

  /** Contents of the buffer that make a packed byte of row m come out wrong, its
      spare bits included. */
  lemma BadJunk(lines: seq<Line>, w: nat, stride: nat, m: nat) returns (junk: seq<byte>)
    requires Decodable(lines) && UniformLines(lines, w) && 0 < w < stride
    requires 0 < m < |lines| && lines[m].filter > 1 && LeftFilters(lines[..m])
    ensures |junk| == Times(|lines|, stride) && SeenRows(lines, junk, w, stride) != Rows(lines, 1)
  {
    hide Recon, Times, SeenAbove;
    var above := Rows(lines[..m], 1);
    RowsUniform(lines[..m], 1, w);
    var b: byte := if above[m - 1][0] < 128 then above[m - 1][0] + 128 else above[m - 1][0] - 128;
    junk := seq(Times(|lines|, stride), i => b);
    SeenPrefix(lines, junk, w, stride, m);
    SeenPrefix(lines, junk, w, stride, m + 1);
    SeenIsTrue(lines[..m], junk, w, stride);
    assert lines[..m + 1][..m] == lines[..m];
    SeenFirst(junk, w, stride, above, b);
    FirstByteDiffers(lines[m].filter, lines[m].bytes, above[m - 1], SeenAbove(junk, w, stride, above), w);
    assert SeenRows(lines, junk, w, stride)[..m + 1][m] != Rows(lines, 1)[..m + 1][m];
  }

  lemma SeenFirst(junk: seq<byte>, w: nat, stride: nat, rows: seq<seq<byte>>, b: byte)
    requires 0 < w < stride && rows != [] && Times(|rows|, stride) <= |junk| && Uniform(rows, w)
    requires forall i :: 0 <= i < |junk| ==> junk[i] == b
    ensures SeenAbove(junk, w, stride, rows) != [] && SeenAbove(junk, w, stride, rows)[0] == b
  {
    SlotFits(|rows|, stride, |rows| - 1);
    var slot := Slot(junk, stride, |rows| - 1);
    assert slot[0] == b && SeenAbove(junk, w, stride, rows)[0] == slot[0];
  }

  lemma {:induction false} FirstUpFilter(lines: seq<Line>, n: nat) returns (m: nat)
    requires n <= |lines| && LeftFilters(lines[..n]) && !LeftFilters(lines)
    ensures 0 < m < |lines| && lines[m].filter > 1 && LeftFilters(lines[..m])
    decreases |lines| - n
  {
    assert lines == lines[..|lines|];
    if n > 0 && lines[n].filter > 1 {
      m := n;
    } else {
      m := FirstUpFilter(lines, n + 1);
    }
  }

  /** Packed rows come out right in all their bits, spare ones included, whatever
      the buffer held before, if and only if they fill their slots or no later row
      is filtered against the row above it. */
  lemma PackedExact(lines: seq<Line>, w: nat, stride: nat)
    requires Decodable(lines) && UniformLines(lines, w) && 0 < w <= stride
    ensures (forall junk: seq<byte> :: |junk| == Times(|lines|, stride) ==>
               SeenRows(lines, junk, w, stride) == Rows(lines, 1))
            <==> w == stride || LeftFilters(lines)
  {
    if w == stride || LeftFilters(lines) {
      forall junk: seq<byte> | |junk| == Times(|lines|, stride)
        ensures SeenRows(lines, junk, w, stride) == Rows(lines, 1)
      {
        SeenIsTrue(lines, junk, w, stride);
      }
    } else {
      var m := FirstUpFilter(lines, 0);
      var junk := BadJunk(lines, w, stride, m);
    }
  }

  /** Packed rows fill their slots only in images one pixel wide without an alpha channel. */
  lemma FullSlots(x: nat, depth: nat, outN: nat)
    requires depth in {1, 2, 4} && 0 < x && outN in {1, 2}
    ensures Width(x, depth) <= Times(x, outN)
    ensures Width(x, depth) == Times(x, outN) <==> x == 1 && outN == 1
  {}

  // ----- the code

  /** The slots of the rows done so far end with these rows; the other bytes are
      as they were. */
  ghost predicate Aligned(out: seq<byte>, junk: seq<byte>, rows: seq<seq<byte>>, w: nat, stride: nat, y: nat, i: nat)
    requires |out| == |junk| == Times(y, stride) && i < y && w <= stride && Uniform(rows, w)
  {
    SlotFits(y, stride, i);
    Slot(out, stride, i) ==
    if i < |rows| then Slot(junk, stride, i)[..stride - w] + rows[i] else Slot(junk, stride, i)
  }

  /** What the code finds at the place where it looks for the row above. */
  lemma AboveSeen(out: seq<byte>, junk: seq<byte>, rows: seq<seq<byte>>, w: nat, stride: nat, y: nat)
    requires |out| == |junk| == Times(y, stride) && w <= stride && Uniform(rows, w) && |rows| < y
    requires forall i :: 0 <= i < y ==> Aligned(out, junk, rows, w, stride, y, i)
    ensures var first := rows == [];
            && (!first ==> Times(|rows| - 1, stride) + stride == Times(|rows|, stride) <= |out|)
            && Times(|rows|, stride) <= |junk|
            && Above(out, first, if first then 0 else Times(|rows| - 1, stride), w) == SeenAbove(junk, w, stride, rows)
  {
    hide Times;
    SlotFits(y, stride, |rows|);
    if rows != [] {
      var k := |rows| - 1;
      SlotFits(y, stride, k);
      TimesNext(k, stride);
      assert Aligned(out, junk, rows, w, stride, y, k);
      assert Above(out, false, Times(k, stride), w) == Slot(out, stride, k)[..w];
    }
  }

  lemma AlignNext(before: seq<byte>, junk: seq<byte>, rows: seq<seq<byte>>, row: seq<byte>, w: nat, stride: nat, y: nat)
    requires |before| == |junk| == Times(y, stride) && w <= stride && Uniform(rows, w) && |rows| < y && |row| == w
    requires forall i :: 0 <= i < y ==> Aligned(before, junk, rows, w, stride, y, i)
    ensures Times(|rows|, stride) + stride <= |before| && Uniform(rows + [row], w)
    ensures var after := Splice(before, Times(|rows|, stride) + stride - w, row);
            forall i :: 0 <= i < y ==> Aligned(after, junk, rows + [row], w, stride, y, i)
  {
    hide Times, Splice;
    SlotFits(y, stride, |rows|);
    var after := Splice(before, Times(|rows|, stride) + stride - w, row);
    forall i | 0 <= i < y ensures Aligned(after, junk, rows + [row], w, stride, y, i) {
      SpliceSlot(before, y, stride, |rows|, stride - w, row, i);
      assert Aligned(before, junk, rows, w, stride, y, i);
    }
  }

  /** The row loop for packed samples: rows are stored at the right ends of their slots. */
  method ReconstructPacked(out: array<byte>, raw: seq<byte>, w: nat, stride: nat, y: nat) returns (ok: bool)
    requires 0 < w <= stride && Times(y, w + 1) <= |raw| && out.Length == Times(y, stride)
    modifies out
    ensures ok == Decodable(LinesOf(raw, w, y))
    ensures ok ==> UniformLines(LinesOf(raw, w, y), w)
    ensures ok ==> forall i :: 0 <= i < y ==>
              Aligned(out[..], old(out[..]), SeenRows(LinesOf(raw, w, y), old(out[..]), w, stride), w, stride, y, i)
  {
    hide Recon, Times, SeenRows, LinesOf, Splice, Aligned, Above, SeenAbove, UniformLines, Uniform;
    ghost var junk := out[..];
    NoneAligned(raw, junk, w, stride, y);
    var j, p, base := 0, 0, 0;
    ghost var rows: seq<seq<byte>> := [];
    while j < y
      invariant 0 <= j <= y && p == Times(j, w + 1) <= |raw| && base == Times(j, stride) <= out.Length
      invariant Decodable(LinesOf(raw, w, j)) && UniformLines(LinesOf(raw, w, j), w)
      invariant Uniform(rows, w) && |rows| == j && rows == SeenRows(LinesOf(raw, w, j), junk, w, stride)
      invariant forall i :: 0 <= i < y ==> Aligned(out[..], junk, rows, w, stride, y, i)
    {
      PackedLine(raw, junk, w, stride, y, j);
      SlotFits(y, stride, j);
      TimesNext(j, stride);
      var f := raw[p];
      if f > 4 { return false; }
      AboveSeen(out[..], junk, rows, w, stride, y);
      ghost var row := Recon(f, raw[p + 1..p + 1 + w], SeenAbove(junk, w, stride, rows), 1, w);
      AlignNext(out[..], junk, rows, row, w, stride, y);
      UniformSnoc(rows, row, w);
      UnfilterRow(out, raw[p + 1..p + 1 + w], f, j == 0, base + stride - w, if j == 0 then 0 else base - stride, 1, w);
      rows := rows + [row];
      j, p, base := j + 1, p + w + 1, base + stride;
    }
    ok := true;
  }

  lemma UniformSnoc(rows: seq<seq<byte>>, row: seq<byte>, w: nat)
    requires Uniform(rows, w) && |row| == w
    ensures Uniform(rows + [row], w)
  {}

  lemma NoneAligned(raw: seq<byte>, junk: seq<byte>, w: nat, stride: nat, y: nat)
    requires w <= stride && |junk| == Times(y, stride)
    ensures Times(0, w + 1) == 0 == Times(0, stride)
    ensures Decodable(LinesOf(raw, w, 0)) && UniformLines(LinesOf(raw, w, 0), w) && Uniform([], w)
    ensures SeenRows(LinesOf(raw, w, 0), junk, w, stride) == []
    ensures forall i :: 0 <= i < y ==> Aligned(junk, junk, [], w, stride, y, i)
  {}

  lemma PackedLine(raw: seq<byte>, junk: seq<byte>, w: nat, stride: nat, y: nat, j: nat)
    requires w <= stride && |junk| == Times(y, stride) && j < y && Times(y, w + 1) <= |raw| && Times(j, w + 1) <= |raw|
    requires Decodable(LinesOf(raw, w, j)) && UniformLines(LinesOf(raw, w, j), w) && Times(j, stride) <= |junk|
    ensures Times(j + 1, w + 1) == Times(j, w + 1) + w + 1 <= |raw| && Times(j + 1, stride) <= |junk|
    ensures var f, bytes := raw[Times(j, w + 1)], raw[Times(j, w + 1) + 1..Times(j, w + 1) + 1 + w];
            var rows := SeenRows(LinesOf(raw, w, j), junk, w, stride);
            && (f > 4 ==> !Decodable(LinesOf(raw, w, y)))
            && (f <= 4 ==>
                  && Decodable(LinesOf(raw, w, j + 1)) && UniformLines(LinesOf(raw, w, j + 1), w)
                  && SeenRows(LinesOf(raw, w, j + 1), junk, w, stride) ==
                  rows + [Recon(f, bytes, SeenAbove(junk, w, stride, rows), 1, w)])
  {
    hide Recon, SeenAbove, Times;
    TimesNext(j, w + 1);
    TimesMonotone(j + 1, y, w + 1);
    TimesMonotone(j + 1, y, stride);
    assert LinesOf(raw, w, y)[j] == LineAt(raw, w, j);
    LinesPrefix(raw, w, j + 1);
    LinesOfUniform(raw, w, j + 1);
    assert LinesOf(raw, w, j + 1)[..j] == LinesOf(raw, w, j);
  }
}
