/** When images with fewer than 8 bits per sample come out right. */
module PngExact {
  import opened Products
  import opened Bits
  import opened PngFilter
  import opened PngRows
  import opened PngLines
  import opened PngExpand
  import opened PngPacked
  import opened PngRaw

  /** The pixels of a row do not depend on the row above: its filter does not look
      up, or the row has one bit, which average leaves alone. */
  predicate Safe(line: Line, x: nat, depth: nat) {
    || line.filter <= 1
    || (x == 1 && depth == 1 && line.filter == 3 && line.bytes != [] && line.bytes[0] % 128 == 0)
  }

  /** Rows fill their slots, or no row but the first depends on the row above. */
  predicate SafeLines(lines: seq<Line>, x: nat, outN: nat, depth: nat) {
    (x == 1 && outN == 1) || forall j :: 0 < j < |lines| ==> Safe(lines[j], x, depth)
  }

  predicate Packable(lines: seq<Line>, x: nat, outN: nat, depth: nat) {
    && depth in {1, 2, 4} && outN in {1, 2} && 0 < x
    && Decodable(lines) && UniformLines(lines, Width(x, depth))
  }

  /** Row i of the final image is the one that the lines denote. */
  ghost predicate RightRow(lines: seq<Line>, junk: seq<byte>, x: nat, outN: nat, depth: nat, grey: bool, i: nat)
    requires Packable(lines, x, outN, depth) && |junk| == Times(|lines|, Times(x, outN)) && i < |lines|
  {
    FullSlots(x, depth, outN);
    RowsUniform(lines, 1, Width(x, depth));
    Cells(SeenRows(lines, junk, Width(x, depth), Times(x, outN))[i], x, outN, depth, grey) ==
    Cells(Rows(lines, 1)[i], x, outN, depth, grey)
  }

  ghost predicate RightImage(lines: seq<Line>, junk: seq<byte>, x: nat, outN: nat, depth: nat, grey: bool)
    requires Packable(lines, x, outN, depth) && |junk| == Times(|lines|, Times(x, outN))
  {
    forall i :: 0 <= i < |lines| ==> RightRow(lines, junk, x, outN, depth, grey, i)
  }

  /** The final image is right whatever the buffer held before, if and only if the
      lines are safe. */
  lemma ImageExact(lines: seq<Line>, x: nat, outN: nat, depth: nat, grey: bool)
    requires Packable(lines, x, outN, depth)
    ensures (forall junk: seq<byte> :: |junk| == Times(|lines|, Times(x, outN)) ==>
               RightImage(lines, junk, x, outN, depth, grey)) <==>
            SafeLines(lines, x, outN, depth)
  {
    hide RightRow, Safe;
    if SafeLines(lines, x, outN, depth) {
      forall junk: seq<byte>, i | |junk| == Times(|lines|, Times(x, outN)) && 0 <= i < |lines|
        ensures RightRow(lines, junk, x, outN, depth, grey, i)
      {
        SafeRow(lines, junk, x, outN, depth, grey, i);
      }
    } else {
      var m :| 0 < m < |lines| && !Safe(lines[m], x, depth);
      var junk := BadContents(lines, x, outN, depth, grey, m);
      assert !RightImage(lines, junk, x, outN, depth, grey);
    }
  }

  // ----- the round trip

  /** An image of x samples a row, packed row by row. */
  function PackedRows(samples: seq<seq<nat>>, depth: nat, x: nat): (rows: seq<seq<byte>>)
    requires depth in {1, 2, 4} && forall j :: 0 <= j < |samples| ==> |samples[j]| == x && Fit(samples[j], depth)
    ensures |rows| == |samples| && Uniform(rows, Width(x, depth))
  {
    seq(|samples|, j requires 0 <= j < |samples| => Packed(samples[j], depth))
  }

  /** Sample k of row i stands in the final image, scaled, with an opaque alpha
      behind it if asked for. */
  ghost predicate SampleBack(out: seq<byte>, samples: seq<seq<nat>>, fmt: Format, x: nat, i: nat, k: nat)
    requires fmt.Valid() && fmt.depth < 8 && |out| == Times(|samples|, Times(x, fmt.outN))
    requires i < |samples| && k < |samples[i]| == x
  {
    SlotFits(|samples|, Times(x, fmt.outN), i);
    var slot := Slot(out, Times(x, fmt.outN), i);
    var at := if fmt.outN == 1 then k else 2 * k;
    && at + fmt.outN <= |slot| && slot[at] as int == Scale(fmt.depth, fmt.grey) * samples[i][k]
    && (fmt.outN == 2 ==> slot[at + 1] == 255)
  }

  /** Whatever the buffer held before, decoding the filtered rows of an image gives
      all its samples back, if the encoder chose safe filters; the result is that
      of `PngRaw.CreateRaw`. */
  lemma SamplesRoundTrip(samples: seq<seq<nat>>, filters: seq<byte>, fmt: Format, x: nat, junk: seq<byte>,
                         out: seq<byte>)
    requires fmt.Valid() && fmt.depth < 8 && 0 < x
    requires forall j :: 0 <= j < |samples| ==> |samples[j]| == x && Fit(samples[j], fmt.depth)
    requires |filters| == |samples| && forall j :: 0 <= j < |filters| ==> filters[j] <= 4
    requires |out| == |junk| == Times(|samples|, Times(x, fmt.outN))
    requires SafeLines(FilterRows(PackedRows(samples, fmt.depth, x), filters, 1), x, fmt.outN, fmt.depth)
    ensures var raw := Serialize(FilterRows(PackedRows(samples, fmt.depth, x), filters, 1));
            && Accepts(raw, fmt, x, |samples|, true)
            && ((forall i :: 0 <= i < |samples| ==> PackedResult(out, junk, raw, fmt, x, |samples|, i)) ==>
                forall i, k :: 0 <= i < |samples| && 0 <= k < x ==> SampleBack(out, samples, fmt, x, i, k))
  {
    hide Times, Width, Packed, FilterRows, Serialize, LinesOf, Rows, SafeLines, SampleBack, PackedResult, Uniform;
    var rows := PackedRows(samples, fmt.depth, x);
    var lines := FilterRows(rows, filters, 1);
    LinesBack(rows, filters, fmt, x);
    if forall i :: 0 <= i < |samples| ==> PackedResult(out, junk, Serialize(lines), fmt, x, |samples|, i) {
      forall i, k | 0 <= i < |samples| && 0 <= k < x ensures SampleBack(out, samples, fmt, x, i, k) {
        ResultIs(lines, junk, out, fmt, x, i);
        SampleOf(out, samples, fmt, x, i, k);
      }
    }
  }

  /** The final contents of slot i, when the lines are safe. */
  lemma ResultIs(lines: seq<Line>, junk: seq<byte>, out: seq<byte>, fmt: Format, x: nat, i: nat)
    requires fmt.Valid() && fmt.depth < 8 && Packable(lines, x, fmt.outN, fmt.depth) && i < |lines|
    requires |out| == |junk| == Times(|lines|, Times(x, fmt.outN)) && SafeLines(lines, x, fmt.outN, fmt.depth)
    requires Times(|lines|, Width(x, fmt.depth) + 1) <= |Serialize(lines)|
    requires LinesOf(Serialize(lines), Width(x, fmt.depth), |lines|) == lines
    requires PackedResult(out, junk, Serialize(lines), fmt, x, |lines|, i)
    ensures Times(i, Times(x, fmt.outN)) + Times(x, fmt.outN) <= |out| && Uniform(Rows(lines, 1), Width(x, fmt.depth))
    ensures Slot(out, Times(x, fmt.outN), i) == Cells(Rows(lines, 1)[i], x, fmt.outN, fmt.depth, fmt.grey)
  {
    hide Times, Width, Serialize, LinesOf, Rows, SeenRows, Cells, Slot, SafeLines;
    SlotFits(|lines|, Times(x, fmt.outN), i);
    RowsUniform(lines, 1, Width(x, fmt.depth));
    FullSlots(x, fmt.depth, fmt.outN);
    SafeRow(lines, junk, x, fmt.outN, fmt.depth, fmt.grey, i);
  }

  lemma SampleOf(out: seq<byte>, samples: seq<seq<nat>>, fmt: Format, x: nat, i: nat, k: nat)
    requires fmt.Valid() && fmt.depth < 8 && |out| == Times(|samples|, Times(x, fmt.outN))
    requires i < |samples| && k < |samples[i]| == x && Fit(samples[i], fmt.depth)
    requires Times(i, Times(x, fmt.outN)) + Times(x, fmt.outN) <= |out|
    requires Slot(out, Times(x, fmt.outN), i) ==
             Cells(Packed(samples[i], fmt.depth), x, fmt.outN, fmt.depth, fmt.grey)
    ensures SampleBack(out, samples, fmt, x, i, k)
  {
    hide Times, Width, Packed, Cells, Scale;
    CellsOfPacked(samples[i], fmt, k);
  }

  // ----- rows by their lines

  lemma RowIs(lines: seq<Line>, junk: seq<byte>, w: nat, stride: nat, m: nat)
    requires Decodable(lines) && UniformLines(lines, w) && w <= stride && Times(|lines|, stride) <= |junk| &&
             m < |lines|
    ensures Times(m, stride) <= |junk|
    ensures var l := lines[m];
            && Uniform(Rows(lines[..m], 1), w)
            && SeenRows(lines, junk, w, stride)[m] ==
               Recon(l.filter, l.bytes, SeenAbove(junk, w, stride, SeenRows(lines[..m], junk, w, stride)), 1, w)
            && Rows(lines, 1)[m] == Recon(l.filter, l.bytes, Last(Rows(lines[..m], 1)), 1, w)
  {
    hide Recon, Times, SeenAbove;
    TimesMonotone(m, |lines|, stride);
    RowsUniform(lines[..m], 1, w);
    SeenPrefix(lines, junk, w, stride, m + 1);
    assert lines[..m + 1][..m] == lines[..m];
    assert SeenRows(lines, junk, w, stride)[m] == SeenRows(lines, junk, w, stride)[..m + 1][m];
    assert Rows(lines, 1)[m] == Rows(lines, 1)[..m + 1][m];
  }

  /** The first byte of a reconstructed row. */
  function FirstByte(f: nat, raw: byte, above: byte): byte
    requires f <= 4
  {
    (raw + Predict(f, 0, above, 0)) % 256
  }

  lemma FirstIs(f: nat, raw: seq<byte>, prior: seq<byte>, w: nat)
    requires f <= 4 && 0 < w <= |raw|
    ensures Recon(f, raw, prior, 1, w)[0] == FirstByte(f, raw[0], At(prior, 0))
  {
    hide Recon, Predict;
    ReconAt(f, raw, prior, 1, w, 0);
  }

  // ----- safe rows

  lemma SafeRow(lines: seq<Line>, junk: seq<byte>, x: nat, outN: nat, depth: nat, grey: bool, i: nat)
    requires Packable(lines, x, outN, depth) && |junk| == Times(|lines|, Times(x, outN)) && i < |lines|
    requires SafeLines(lines, x, outN, depth)
    ensures RightRow(lines, junk, x, outN, depth, grey, i)
  {
    hide Recon, Times, Cells, SeenAbove, Width;
    FullSlots(x, depth, outN);
    var w, stride := Width(x, depth), Times(x, outN);
    if w == stride {
      SeenIsTrue(lines, junk, w, stride);
    } else {
      RowIs(lines, junk, w, stride, i);
      var l, seen := lines[i], SeenAbove(junk, w, stride, SeenRows(lines[..i], junk, w, stride));
      if i == 0 {
        NoneAbove(junk, w, stride);
      } else if l.filter <= 1 {
        UnreadAbove(l.filter, l.bytes, seen, Last(Rows(lines[..i], 1)), w);
      } else {
        OneBitWidth();
        FirstIs(3, l.bytes, seen, 1);
        FirstIs(3, l.bytes, Last(Rows(lines[..i], 1)), 1);
        AverageKeepsTop(l.bytes[0], At(seen, 0), At(Last(Rows(lines[..i], 1)), 0));
        OneBit(SeenRows(lines, junk, w, stride)[i], Rows(lines, 1)[i], outN, grey);
      }
    }
  }

  lemma NoneAbove(junk: seq<byte>, w: nat, stride: nat)
    requires w <= stride && Times(0, stride) <= |junk|
    ensures SeenAbove(junk, w, stride, []) == []
  {}

  lemma OneBitWidth()
    ensures Width(1, 1) == 1
  {}

  lemma AverageKeepsTop(raw: byte, b: byte, c: byte)
    requires raw % 128 == 0
    ensures FirstByte(3, raw, b) / 128 == FirstByte(3, raw, c) / 128
  {}

  /** A one-bit row shows the top bit of its byte. */
  lemma OneBit(row: seq<byte>, row': seq<byte>, outN: nat, grey: bool)
    requires outN in {1, 2} && Width(1, 1) == 1 == |row| == |row'| && row[0] / 128 == row'[0] / 128
    ensures Cells(row, 1, outN, 1, grey) == Cells(row', 1, outN, 1, grey)
  {
    FirstSample(row[0], 1);
    FirstSample(row'[0], 1);
    assert Samples(row, 1, grey, 1) == Samples(row', 1, grey, 1);
  }

  // ----- rows that can be spoiled

  /** The first sample is the top of its byte. */
  lemma FirstSample(b: byte, depth: nat)
    requires depth in {1, 2, 4}
    ensures Low(Shr(b, ShiftOf(depth, 0)), depth) ==
            if depth == 1 then b / 128 else if depth == 2 then b / 64 else b / 16
  {
    var n := 8 - depth;
    assert ShiftOf(depth, 0) == n;
    ShrSmall(b, n);
    LowOfSmall(Shr(b, n), depth);
  }

  lemma ShrSmall(b: byte, n: nat)
    requires n in {4, 6, 7}
    ensures Shr(b, n) == if n == 7 then b / 128 else if n == 6 then b / 64 else b / 16
    ensures Shr(b, n) < Shl(1, 8 - n)
  {
    ShrTwo(b, 2);
    ShrTwo(b / 4, 0);
    if n > 4 {
      ShrTwo(b, n - 2);
      ShrTwo(b / 4, n - 4);
      ShrTwo(b / 16, n - 6);
    }
    assert Shl(1, 1) == 2 && Shl(1, 2) == 4 && Shl(1, 4) == 16;
  }

  lemma ShrTwo(x: nat, n: nat)
    ensures Shr(x, n + 2) == Shr(x / 4, n) && x / 4 / 4 == x / 16 && x / 16 / 4 == x / 64
    ensures Shr(x, 0) == x && Shr(x, 1) == x / 2
  {
    assert Shr(x, n + 2) == Shr(x / 2, n + 1) && x / 2 / 2 == x / 4;
  }

  lemma SecondSample(b: byte)
    ensures Low(Shr(b, ShiftOf(1, 1)), 1) == b / 64 % 2
  {
    ShrSmall(b, 6);
    assert Low(b / 64, 1) == b / 64 % 2;
  }

  /** Rows whose first bytes differ in a visible bit are stored differently. */
  lemma VisibleDifference(row: seq<byte>, row': seq<byte>, x: nat, outN: nat, depth: nat, grey: bool)
    requires depth in {1, 2, 4} && outN in {1, 2} && 0 < x && |row| == Width(x, depth) == |row'|
    requires |row| > 0
    requires if x == 1 && depth == 1 then row[0] / 128 != row'[0] / 128 else row[0] / 64 != row'[0] / 64
    ensures Cells(row, x, outN, depth, grey) != Cells(row', x, outN, depth, grey)
  {
    hide Low, Shr, Cells, ShiftOf;
    FirstSample(row[0], depth);
    FirstSample(row'[0], depth);
    if depth == 1 && row[0] / 128 == row'[0] / 128 {
      SecondSample(row[0]);
      SecondSample(row'[0]);
      CellsDiffer(row, row', x, outN, depth, grey, 1);
    } else {
      CellsDiffer(row, row', x, outN, depth, grey, 0);
    }
  }

  lemma CellsDiffer(row: seq<byte>, row': seq<byte>, x: nat, outN: nat, depth: nat, grey: bool, k: nat)
    requires depth in {1, 2, 4} && outN in {1, 2} && |row| == Width(x, depth) == |row'| && |row| > 0
    requires k < x && k < 2 && (k == 1 ==> depth == 1)
    requires Low(Shr(row[0], ShiftOf(depth, k)), depth) != Low(Shr(row'[0], ShiftOf(depth, k)), depth)
    ensures Cells(row, x, outN, depth, grey) != Cells(row', x, outN, depth, grey)
  {
    hide Low, Shr, Cells, ShiftOf;
    CellsAt(row, x, outN, depth, grey, k);
    CellsAt(row', x, outN, depth, grey, k);
  }

  lemma CellsAt(row: seq<byte>, x: nat, outN: nat, depth: nat, grey: bool, k: nat)
    requires depth in {1, 2, 4} && outN in {1, 2} && |row| == Width(x, depth) && k < x && k < 2 &&
             (k == 1 ==> depth == 1)
    ensures |row| > 0 && Times(x, outN) == (if outN == 1 then x else 2 * x)
    ensures Cells(row, x, outN, depth, grey)[if outN == 1 then k else 2 * k] ==
            Scale(depth, grey) * Low(Shr(row[0], ShiftOf(depth, k)), depth)
  {
    hide Low, Shr;
    SamplesAt(row, depth, grey, x, k);
    assert ByteIndex(depth, k) == 0;
  }

  /** A byte above that changes a visible bit of the first byte of a row. */
  lemma SpoilByte(f: nat, raw: byte, c: byte, oneBit: bool) returns (b: byte)
    requires 2 <= f <= 4 && !(oneBit && f == 3 && raw % 128 == 0)
    ensures if oneBit then FirstByte(f, raw, b) / 128 != FirstByte(f, raw, c) / 128
            else FirstByte(f, raw, b) / 64 != FirstByte(f, raw, c) / 64
  {
    hide FirstByte;
    FirstByteIs(f, raw, c);
    if f == 3 && oneBit {
      b := if FirstByte(f, raw, c) / 128 == raw / 128 then 255 else 0;
      FirstByteIs(f, raw, b);
      HalfSpoils(raw, c);
    } else {
      b := if c < 128 then c + 128 else c - 128;
      FirstByteIs(f, raw, b);
      FlipSpoils(raw, c, b);
    }
  }

  lemma FirstByteIs(f: nat, raw: byte, b: byte)
    requires 2 <= f <= 4
    ensures FirstByte(f, raw, b) == (raw + if f == 3 then b / 2 else b) % 256
  {}

  lemma HalfSpoils(raw: byte, c: byte)
    requires raw % 128 != 0
    ensures (raw + 255 / 2) % 256 / 128 != raw / 128 && (raw + 0 / 2) % 256 / 128 == raw / 128
  {}

  /** A changed top bit changes a sum in its top bit, and half of it in the top two. */
  lemma FlipSpoils(raw: byte, c: byte, b: byte)
    requires Flipped(c, b)
    ensures (raw + b) % 256 / 128 != (raw + c) % 256 / 128
    ensures (raw + b) % 256 / 64 != (raw + c) % 256 / 64
    ensures (raw + b / 2) % 256 / 64 != (raw + c / 2) % 256 / 64
  {
    var low := if b < c then b else c;
    Turned(raw + low);
    Turned(raw + low / 2);
    assert (low + 128) / 2 == low / 2 + 64;
  }

  lemma Turned(s: nat)
    ensures (s + 128) % 256 / 128 != s % 256 / 128
    ensures (s + 128) % 256 / 64 != s % 256 / 64
    ensures (s + 64) % 256 / 64 != s % 256 / 64
  {
    var q, t := s / 256, s % 256;
    if t < 128 { Remainder(s + 128, q, t + 128); } else { Remainder(s + 128, q + 1, t - 128); }
    if t < 192 { Remainder(s + 64, q, t + 64); } else { Remainder(s + 64, q + 1, t - 192); }
  }

  lemma Remainder(s: nat, q: nat, r: nat)
    requires s == 256 * q + r && r < 256
    ensures s % 256 == r
  {}

  /** Contents of the buffer that make row m of the image come out wrong. */
  lemma BadContents(lines: seq<Line>, x: nat, outN: nat, depth: nat, grey: bool, m: nat) returns (junk: seq<byte>)
    requires Packable(lines, x, outN, depth) && !(x == 1 && outN == 1)
    requires 0 < m < |lines| && !Safe(lines[m], x, depth)
    ensures |junk| == Times(|lines|, Times(x, outN)) && !RightRow(lines, junk, x, outN, depth, grey, m)
  {
    hide Recon, Times, Cells, SeenAbove, FirstByte;
    FullSlots(x, depth, outN);
    var w, stride, l := Width(x, depth), Times(x, outN), lines[m];
    RowsUniform(lines[..m], 1, w);
    var above := Last(Rows(lines[..m], 1));
    var b := SpoilByte(l.filter, l.bytes[0], At(above, 0), x == 1 && depth == 1);
    junk := seq(Times(|lines|, stride), i => b);
    RowIs(lines, junk, w, stride, m);
    var rows := SeenRows(lines[..m], junk, w, stride);
    SeenFirst(junk, w, stride, rows, b);
    FirstIs(l.filter, l.bytes, SeenAbove(junk, w, stride, rows), w);
    FirstIs(l.filter, l.bytes, above, w);
    VisibleDifference(SeenRows(lines, junk, w, stride)[m], Rows(lines, 1)[m], x, outN, depth, grey);
  }
}
