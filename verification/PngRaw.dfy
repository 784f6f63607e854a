/** `stbi__create_png_image_raw` as a whole, and the round trip with an encoder. */
module PngRaw {
  import opened Products
  import opened Bits
  import opened Buffers
  import opened PngLines
  import opened PngExpand
  import opened PngPacked
  import opened PngPixels
  import opened PngImage

  // ----- the expansion pass

  /** The bytes stored for a row of packed samples. */
  function Cells(row: seq<byte>, x: nat, outN: nat, depth: nat, grey: bool): (r: seq<byte>)
    requires depth in {1, 2, 4} && outN in {1, 2} && |row| == Width(x, depth)
    ensures |r| == Times(x, outN)
  {
    if outN == 1 then Samples(row, depth, grey, x) else Interleaved(Samples(row, depth, grey, x))
  }

  /** Slots before j are expanded; the others end with their packed rows. */
  ghost predicate Expanded(out: seq<byte>, rows: seq<seq<byte>>, x: nat, outN: nat, depth: nat, grey: bool,
                           j: nat, i: nat)
    requires depth in {1, 2, 4} && outN in {1, 2} && 0 < x && i < |rows| && Uniform(rows, Width(x, depth))
    requires |out| == Times(|rows|, Times(x, outN))
  {
    SlotFits(|rows|, Times(x, outN), i);
    FullSlots(x, depth, outN);
    var slot := Slot(out, Times(x, outN), i);
    if i < j then slot == Cells(rows[i], x, outN, depth, grey) else slot[|slot| - Width(x, depth)..] == rows[i]
  }

  /** Expand the samples of one row inside its slot. */
  method ExpandRow(out: array<byte>, base: nat, x: nat, outN: nat, depth: nat, grey: bool)
    requires depth in {1, 2, 4} && outN in {1, 2} && 0 < x && base + Times(x, outN) <= out.Length
    requires Width(x, depth) <= Times(x, outN)
    modifies out
    ensures out[..] == Splice(old(out[..]), base,
                              Cells(old(out[base + Times(x, outN) - Width(x, depth)..base + Times(x, outN)]),
                                    x, outN, depth, grey))
  {
    hide Samples, Width, Interleaved, Times, Splice;
    ghost var before := out[..];
    var stride := Times(x, outN);
    StrideIs(x, outN, depth);
    ghost var s := Samples(out[base + stride - Width(x, depth)..base + stride], depth, grey, x);
    UnpackRow(out, base, base + stride - Width(x, depth), x, depth, grey);
    if outN != 1 {
      SpliceSlice(before, base, s);
      assert out[base..base + x] == out[..][base..base + x];
      InsertAlpha(out, base, x);
      SpliceOver(before, base, s, Interleaved(s));
    }
  }

  lemma StrideIs(x: nat, outN: nat, depth: nat)
    requires depth in {1, 2, 4} && outN in {1, 2} && 0 < x
    ensures Times(x, outN) == (if outN == 1 then x else 2 * x) && Width(x, depth) <= x
  {}

  lemma SpliceOver(before: seq<byte>, base: nat, s: seq<byte>, t: seq<byte>)
    requires |s| <= |t| && base + |t| <= |before|
    ensures Splice(Splice(before, base, s), base, t) == Splice(before, base, t)
  {}

  ghost predicate AllExpanded(out: seq<byte>, rows: seq<seq<byte>>, x: nat, outN: nat, depth: nat, grey: bool, j: nat)
    requires depth in {1, 2, 4} && outN in {1, 2} && 0 < x && Uniform(rows, Width(x, depth))
    requires |out| == Times(|rows|, Times(x, outN))
  {
    forall i :: 0 <= i < |rows| ==> Expanded(out, rows, x, outN, depth, grey, j, i)
  }

  /** The packed bytes of slot j. */
  lemma PackedSlot(out: seq<byte>, rows: seq<seq<byte>>, x: nat, outN: nat, depth: nat, grey: bool, j: nat)
    requires depth in {1, 2, 4} && outN in {1, 2} && 0 < x && j < |rows| && Uniform(rows, Width(x, depth))
    requires |out| == Times(|rows|, Times(x, outN)) && AllExpanded(out, rows, x, outN, depth, grey, j)
    ensures var stride, w := Times(x, outN), Width(x, depth);
            && w <= stride && Times(j, stride) + stride <= |out|
            && out[Times(j, stride) + stride - w..Times(j, stride) + stride] == rows[j]
  {
    hide Times, Cells, Width;
    var stride, w := Times(x, outN), Width(x, depth);
    FullSlots(x, depth, outN);
    SlotFits(|rows|, stride, j);
    assert Expanded(out, rows, x, outN, depth, grey, j, j);
    var base := Times(j, stride);
    assert out[base + stride - w..base + stride] == Slot(out, stride, j)[stride - w..];
  }

  lemma ExpandNext(before: seq<byte>, rows: seq<seq<byte>>, x: nat, outN: nat, depth: nat, grey: bool, j: nat)
    requires depth in {1, 2, 4} && outN in {1, 2} && 0 < x && j < |rows| && Uniform(rows, Width(x, depth))
    requires |before| == Times(|rows|, Times(x, outN)) && AllExpanded(before, rows, x, outN, depth, grey, j)
    requires Times(j, Times(x, outN)) + Times(x, outN) <= |before|
    ensures AllExpanded(Splice(before, Times(j, Times(x, outN)), Cells(rows[j], x, outN, depth, grey)),
                        rows, x, outN, depth, grey, j + 1)
  {
    hide Expanded, Times, Splice, Cells, Width;
    var next := j + 1;
    var after := Splice(before, Times(j, Times(x, outN)), Cells(rows[j], x, outN, depth, grey));
    forall i | 0 <= i < |rows| ensures Expanded(after, rows, x, outN, depth, grey, next, i) {
      ExpandNextSlot(before, rows, x, outN, depth, grey, j, i);
    }
  }

  lemma ExpandNextSlot(before: seq<byte>, rows: seq<seq<byte>>, x: nat, outN: nat, depth: nat, grey: bool,
                       j: nat, i: nat)
    requires depth in {1, 2, 4} && outN in {1, 2} && 0 < x && j < |rows| && i < |rows| && Uniform(rows, Width(x, depth))
    requires |before| == Times(|rows|, Times(x, outN)) && Expanded(before, rows, x, outN, depth, grey, j, i)
    requires Times(j, Times(x, outN)) + Times(x, outN) <= |before|
    ensures Expanded(Splice(before, Times(j, Times(x, outN)), Cells(rows[j], x, outN, depth, grey)),
                     rows, x, outN, depth, grey, j + 1, i)
  {
    hide Times, Splice, Cells, Width;
    SpliceSlot(before, |rows|, Times(x, outN), j, 0, Cells(rows[j], x, outN, depth, grey), i);
  }

  /** The expansion loop over the rows. */
  method ExpandRows(out: array<byte>, x: nat, outN: nat, depth: nat, grey: bool, y: nat, ghost rows: seq<seq<byte>>)
    requires depth in {1, 2, 4} && outN in {1, 2} && 0 < x && |rows| == y && Uniform(rows, Width(x, depth))
    requires out.Length == Times(y, Times(x, outN)) && AllExpanded(out[..], rows, x, outN, depth, grey, 0)
    modifies out
    ensures AllExpanded(out[..], rows, x, outN, depth, grey, y)
  {
    hide Times, Splice, Cells, Width, AllExpanded, Uniform;
    var stride := Times(x, outN);
    var j, base := 0, 0;
    TimesNext(0, stride);
    while j < y
      invariant 0 <= j <= y && base == Times(j, stride)
      invariant AllExpanded(out[..], rows, x, outN, depth, grey, j)
    {
      PackedSlot(out[..], rows, x, outN, depth, grey, j);
      ExpandNext(out[..], rows, x, outN, depth, grey, j);
      TimesNext(j, stride);
      ExpandRow(out, base, x, outN, depth, grey);
      j, base := j + 1, base + stride;
    }
  }

  // ----- the whole function

  /** Channels in the file and in the output, bits per sample, and whether samples are grey values. */
  datatype Format = Format(n: nat, outN: nat, depth: nat, grey: bool) {
    /** Fewer than 8 bits per sample only come with a single channel. */
    predicate Valid() {
      depth in {1, 2, 4, 8} && 0 < n && outN in {n, n + 1} && (depth < 8 ==> n == 1)
    }

    /** `img_width_bytes`. */
    function RowBytes(x: nat): nat
      requires Valid()
    {
      if depth == 8 then Times(x, n) else Width(x, depth)
    }
  }

  /** The data have the right length, and every line a known filter. */
  predicate Accepts(raw: seq<byte>, fmt: Format, x: nat, y: nat, exact: bool)
    requires fmt.Valid()
  {
    var len := Times(y, fmt.RowBytes(x) + 1);
    && (if exact then |raw| == len else |raw| >= len)
    && Decodable(LinesOf(raw, fmt.RowBytes(x), y))
  }

  predicate FilterKnown(raw: seq<byte>, w: nat, j: nat) {
    Times(j, w + 1) < |raw| && raw[Times(j, w + 1)] <= 4
  }

  /** A whole image must have exactly its lines, a pass at least its own; the byte in front of
      every line is a filter type. */
  lemma AcceptsLaw(raw: seq<byte>, fmt: Format, x: nat, y: nat, exact: bool)
    requires fmt.Valid()
    ensures var w := (fmt.n * x * fmt.depth + 7) / 8;
            Accepts(raw, fmt, x, y, exact) <==>
            && (if exact then |raw| == y * (w + 1) else |raw| >= y * (w + 1))
            && forall j: nat :: j < y ==> FilterKnown(raw, w, j)
  {
    RowBytesLaw(fmt, x);
    var w := fmt.RowBytes(x);
    assert Times(y, w + 1) == y * (w + 1);
    hide Times, LinesOf, Format.RowBytes;
    if Times(y, w + 1) <= |raw| {
      forall j: nat | j < y ensures LinesOf(raw, w, y)[j].filter <= 4 <==> FilterKnown(raw, w, j) {
        LineFilter(raw, w, y, j);
      }
    }
  }

  lemma LineFilter(raw: seq<byte>, w: nat, y: nat, j: nat)
    requires Times(y, w + 1) <= |raw| && j < y
    ensures Times(j, w + 1) < |raw| && LinesOf(raw, w, y)[j].filter == raw[Times(j, w + 1)]
  {
    hide Times;
    TimesNext(j, w + 1);
    TimesMonotone(j + 1, y, w + 1);
  }

  lemma RowBytesLaw(fmt: Format, x: nat)
    requires fmt.Valid()
    ensures fmt.RowBytes(x) == (fmt.n * x * fmt.depth + 7) / 8
  {
    if fmt.depth == 8 {
      var k := fmt.n * x;
      assert Times(x, fmt.n) == k && (8 * k + 7) / 8 == k;
    }
  }

  /** What slot i of a packed image holds in the end. */
  ghost predicate PackedResult(out: seq<byte>, junk: seq<byte>, raw: seq<byte>, fmt: Format, x: nat, y: nat, i: nat)
    requires fmt.Valid() && fmt.depth < 8 && 0 < x && i < y && |out| == |junk| == Times(y, Times(x, fmt.outN))
    requires Times(y, Width(x, fmt.depth) + 1) <= |raw| && Decodable(LinesOf(raw, Width(x, fmt.depth), y))
  {
    var w, stride := Width(x, fmt.depth), Times(x, fmt.outN);
    SlotFits(y, stride, i);
    FullSlots(x, fmt.depth, fmt.outN);
    LinesOfUniform(raw, w, y);
    Slot(out, stride, i) == Cells(SeenRows(LinesOf(raw, w, y), junk, w, stride)[i], x, fmt.outN, fmt.depth, fmt.grey)
  }

  method CreateRaw(out: array<byte>, raw: seq<byte>, fmt: Format, x: nat, y: nat, exact: bool) returns (ok: bool)
    requires fmt.Valid() && 0 < x && out.Length == Times(y, Times(x, fmt.outN))
    modifies out
    ensures ok == Accepts(raw, fmt, x, y, exact)
    ensures ok && fmt.depth == 8 ==> out[..] == ImageOf(raw, fmt.n, fmt.outN, x, y)
    ensures ok && fmt.depth == 8 ==> AllRight(out[..], raw, fmt.n, fmt.outN, x, y)
    ensures ok && fmt.depth < 8 ==> forall i :: 0 <= i < y ==> PackedResult(out[..], old(out[..]), raw, fmt, x, y, i)
  {
    hide Times, ImageOf, LinesOf, PackedResult, SeenRows, Width, AllRight;
    var w := fmt.RowBytes(x);
    var len := Times(y, w + 1);
    if (if exact then |raw| != len else |raw| < len) { return false; }
    if fmt.depth == 8 {
      ok := Reconstruct(out, raw, fmt.n, fmt.outN, x, y);
    } else {
      ok := Unpack(out, raw, fmt, x, y);
    }
  }

  /** The row loop for packed samples, and the pass that expands them. */
  method Unpack(out: array<byte>, raw: seq<byte>, fmt: Format, x: nat, y: nat) returns (ok: bool)
    requires fmt.Valid() && fmt.depth < 8 && 0 < x && out.Length == Times(y, Times(x, fmt.outN))
    requires Times(y, Width(x, fmt.depth) + 1) <= |raw|
    modifies out
    ensures ok == Decodable(LinesOf(raw, Width(x, fmt.depth), y))
    ensures ok ==> forall i :: 0 <= i < y ==> PackedResult(out[..], old(out[..]), raw, fmt, x, y, i)
  {
    hide Times, LinesOf, SeenRows, Aligned, AllExpanded, PackedResult, Uniform, UniformLines;
    ghost var junk := out[..];
    var w, stride := Width(x, fmt.depth), Times(x, fmt.outN);
    FullSlots(x, fmt.depth, fmt.outN);
    ok := ReconstructPacked(out, raw, w, stride, y);
    if ok {
      ghost var rows := SeenRows(LinesOf(raw, w, y), junk, w, stride);
      AlignedIsExpanded(out[..], junk, rows, x, fmt, y);
      ExpandRows(out, x, fmt.outN, fmt.depth, fmt.grey, y, rows);
      ExpandedIsResult(out[..], junk, raw, fmt, x, y);
    }
  }

  lemma AlignedIsExpanded(out: seq<byte>, junk: seq<byte>, rows: seq<seq<byte>>, x: nat, fmt: Format, y: nat)
    requires fmt.Valid() && fmt.depth < 8 && 0 < x && |out| == |junk| == Times(y, Times(x, fmt.outN)) && |rows| == y
    requires Uniform(rows, Width(x, fmt.depth)) && Width(x, fmt.depth) <= Times(x, fmt.outN)
    requires forall i :: 0 <= i < y ==> Aligned(out, junk, rows, Width(x, fmt.depth), Times(x, fmt.outN), y, i)
    ensures AllExpanded(out, rows, x, fmt.outN, fmt.depth, fmt.grey, 0)
  {
    hide Times, Width, Cells;
    forall i | 0 <= i < y ensures Expanded(out, rows, x, fmt.outN, fmt.depth, fmt.grey, 0, i) {
      assert Aligned(out, junk, rows, Width(x, fmt.depth), Times(x, fmt.outN), y, i);
    }
  }

  lemma ExpandedIsResult(out: seq<byte>, junk: seq<byte>, raw: seq<byte>, fmt: Format, x: nat, y: nat)
    requires fmt.Valid() && fmt.depth < 8 && 0 < x && |out| == |junk| == Times(y, Times(x, fmt.outN))
    requires Times(y, Width(x, fmt.depth) + 1) <= |raw| && Decodable(LinesOf(raw, Width(x, fmt.depth), y))
    requires UniformLines(LinesOf(raw, Width(x, fmt.depth), y), Width(x, fmt.depth)) &&
             Width(x, fmt.depth) <= Times(x, fmt.outN)
    requires AllExpanded(out, SeenRows(LinesOf(raw, Width(x, fmt.depth), y), junk, Width(x, fmt.depth),
                                       Times(x, fmt.outN)),
                         x, fmt.outN, fmt.depth, fmt.grey, y)
    ensures forall i :: 0 <= i < y ==> PackedResult(out, junk, raw, fmt, x, y, i)
  {
    hide Times, Width, Cells, LinesOf, SeenRows, Uniform, UniformLines;
    var rows := SeenRows(LinesOf(raw, Width(x, fmt.depth), y), junk, Width(x, fmt.depth), Times(x, fmt.outN));
    forall i | 0 <= i < y ensures PackedResult(out, junk, raw, fmt, x, y, i) {
      assert Expanded(out, rows, x, fmt.outN, fmt.depth, fmt.grey, y, i);
    }
  }

  // ----- round trips

  /** Whatever filters the encoder picks, decoding its 8-bit lines gives the image back. */
  lemma RoundTrip8(rows: seq<seq<byte>>, filters: seq<byte>, fmt: Format, x: nat, rest: seq<byte>, exact: bool)
    requires fmt.Valid() && fmt.depth == 8 && Uniform(rows, Times(x, fmt.n)) && (exact ==> rest == [])
    requires |filters| == |rows| && forall j :: 0 <= j < |filters| ==> filters[j] <= 4
    ensures var raw := Serialize(FilterRows(rows, filters, fmt.n)) + rest;
            && Accepts(raw, fmt, x, |rows|, exact)
            && ImageOf(raw, fmt.n, fmt.outN, x, |rows|) == Assembled(rows, fmt.n, fmt.outN, x)
  {
    hide Times, LinesOf, Rows, FilterRows, Serialize;
    var lines := FilterRows(rows, filters, fmt.n);
    FilteredUniform(rows, filters, fmt.n, Times(x, fmt.n));
    LinesOfSerialized(lines, Times(x, fmt.n), rest);
    RowsOfFiltered(rows, filters, fmt.n);
  }

  /** The decoder finds the lines of packed rows as the encoder made them, and they
      denote the rows. */
  lemma LinesBack(rows: seq<seq<byte>>, filters: seq<byte>, fmt: Format, x: nat)
    requires fmt.Valid() && fmt.depth < 8 && 0 < x && Uniform(rows, Width(x, fmt.depth))
    requires |filters| == |rows| && forall j :: 0 <= j < |filters| ==> filters[j] <= 4
    ensures var w, lines := Width(x, fmt.depth), FilterRows(rows, filters, 1);
            && Accepts(Serialize(lines), fmt, x, |rows|, true)
            && LinesOf(Serialize(lines), w, |rows|) == lines
            && UniformLines(lines, w) && w <= Times(x, fmt.outN)
            && Rows(lines, 1) == rows
  {
    hide Times, LinesOf, Rows, FilterRows, Serialize, Width, Uniform, UniformLines, Decodable;
    var lines := FilterRows(rows, filters, 1);
    FilteredUniform(rows, filters, 1, Width(x, fmt.depth));
    LinesOfSerialized(lines, Width(x, fmt.depth), []);
    assert Serialize(lines) + [] == Serialize(lines);
    RowsOfFiltered(rows, filters, 1);
    FullSlots(x, fmt.depth, fmt.outN);
  }

  /** The bytes stored for packed samples are the samples, scaled, with opaque alpha if asked for. */
  lemma CellsOfPacked(s: seq<nat>, fmt: Format, k: nat)
    requires fmt.Valid() && fmt.depth < 8 && Fit(s, fmt.depth) && k < |s|
    ensures var cells := Cells(Packed(s, fmt.depth), |s|, fmt.outN, fmt.depth, fmt.grey);
            && |cells| == Times(|s|, fmt.outN) == (if fmt.outN == 1 then |s| else 2 * |s|)
            && cells[if fmt.outN == 1 then k else 2 * k] == Scale(fmt.depth, fmt.grey) * s[k]
            && (fmt.outN == 2 ==> cells[2 * k + 1] == 255)
  {
    hide Packed, Samples, Width, Scale;
    SamplesOfPacked(s, fmt.depth, fmt.grey, k);
  }
}
