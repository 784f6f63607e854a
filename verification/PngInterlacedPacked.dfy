/** Interlaced images with fewer than 8 bits per sample: when they come out right,
    and their round trip. */
module PngInterlacedPacked {
  import opened Products
  import opened Bits
  import opened Buffers
  import opened PngLines
  import opened PngExpand
  import opened PngPacked
  import opened PngRaw
  import opened PngExact
  import opened Adam7
  import opened PngInterlace
  import opened PngPasses
  import opened PngInterlaced

  predicate PackedFormat(fmt: Format) { fmt.Valid() && fmt.depth < 8 }

  /** Pixel i of an expanded row. */
  function CellPixel(row: seq<byte>, pw: nat, fmt: Format, i: nat): (r: seq<byte>)
    requires PackedFormat(fmt) && |row| == Width(pw, fmt.depth) && i < pw
    ensures |r| == fmt.outN
  {
    SlotFits(pw, fmt.outN, i);
    Cells(row, pw, fmt.outN, fmt.depth, fmt.grey)[Times(i, fmt.outN)..Times(i, fmt.outN) + fmt.outN]
  }

  /** The lines of pass p are those of packed rows. */
  lemma PartPackable(parts: seq<seq<Line>>, fmt: Format, w: nat, h: nat, p: nat)
    requires PackedFormat(fmt) && p < 7 && 0 < w && 0 < h && Fitting(parts, fmt, w, h) && Nonempty(w, h, p)
    ensures |parts| == 7 && |parts[p]| == PassHeight(p, h) && Packable(parts[p], PassWidth(p, w), fmt.outN, fmt.depth)
    ensures Uniform(Rows(parts[p], 1), Width(PassWidth(p, w), fmt.depth))
    ensures Width(PassWidth(p, w), fmt.depth) <= Times(PassWidth(p, w), fmt.outN)
  {
    hide PassWidth, PassHeight, Width, Times;
    assert PartFits(parts[p], fmt, w, h, p);
    RowsUniform(parts[p], 1, Width(PassWidth(p, w), fmt.depth));
    FullSlots(PassWidth(p, w), fmt.depth, fmt.outN);
  }

  /** Former contents of the buffers of all passes. */
  predicate Junks(junks: seq<seq<byte>>, fmt: Format, w: nat, h: nat)
    requires 0 < w && 0 < h
  {
    |junks| == 7 && forall p: nat :: p < 7 ==> JunkFits(junks[p], fmt, w, h, p)
  }

  predicate JunkFits(junk: seq<byte>, fmt: Format, w: nat, h: nat, p: nat)
    requires 0 < w && 0 < h && p < 7
  {
    |junk| == Times(PassHeight(p, h), Times(PassWidth(p, w), fmt.outN))
  }

  /** The place of a pixel lies in a nonempty pass. */
  lemma PlaceInside(w: nat, h: nat, x: nat, y: nat)
    requires x < w && y < h
    ensures var q := PlaceOf(x, y); Nonempty(w, h, q.p) && q.i < PassWidth(q.p, w) && q.j < PassHeight(q.p, h)
  {
    Partition(w, h, x, y, PlaceOf(x, y));
  }

  /** The pixel that the lines denote. */
  ghost function StandardPixel(parts: seq<seq<Line>>, fmt: Format, w: nat, h: nat, x: nat, y: nat): seq<byte>
    requires PackedFormat(fmt) && x < w && y < h && Fitting(parts, fmt, w, h)
  {
    hide PassWidth, PassHeight, PlaceOf, Width, Times, Rows, Fitting;
    var q := PlaceOf(x, y);
    PlaceInside(w, h, x, y);
    PartPackable(parts, fmt, w, h, q.p);
    CellPixel(Rows(parts[q.p], 1)[q.j], PassWidth(q.p, w), fmt, q.i)
  }

  /** The pixel that the code computes, over former contents of the buffers. */
  ghost function SeenPixel(parts: seq<seq<Line>>, junks: seq<seq<byte>>, fmt: Format, w: nat, h: nat, x: nat, y: nat):
    seq<byte>
    requires PackedFormat(fmt) && x < w && y < h && Fitting(parts, fmt, w, h) && Junks(junks, fmt, w, h)
  {
    hide PassWidth, PassHeight, PlaceOf, Width, Times, SeenRows, Fitting;
    var q := PlaceOf(x, y);
    PlaceInside(w, h, x, y);
    PartPackable(parts, fmt, w, h, q.p);
    assert JunkFits(junks[q.p], fmt, w, h, q.p);
    var pw := PassWidth(q.p, w);
    CellPixel(SeenRows(parts[q.p], junks[q.p], Width(pw, fmt.depth), Times(pw, fmt.outN))[q.j], pw, fmt, q.i)
  }

  /** Every nonempty pass has safe lines. */
  predicate SafePasses(parts: seq<seq<Line>>, fmt: Format, w: nat, h: nat)
    requires PackedFormat(fmt) && 0 < w && 0 < h && |parts| == 7
  {
    forall p: nat :: p < 7 && Nonempty(w, h, p) ==> SafeLines(parts[p], PassWidth(p, w), fmt.outN, fmt.depth)
  }

  /** All pixels come out as the lines denote them. */
  ghost predicate RightPixels(parts: seq<seq<Line>>, junks: seq<seq<byte>>, fmt: Format, w: nat, h: nat)
    requires PackedFormat(fmt) && 0 < w && 0 < h && Fitting(parts, fmt, w, h) && Junks(junks, fmt, w, h)
  {
    forall x: nat, y: nat :: x < w && y < h ==>
      SeenPixel(parts, junks, fmt, w, h, x, y) == StandardPixel(parts, fmt, w, h, x, y)
  }

  // ----- the exact condition

  /** All pixels are right whatever the buffers held before, if and only if every
      nonempty pass has safe lines. */
  lemma InterlacedExact(parts: seq<seq<Line>>, fmt: Format, w: nat, h: nat)
    requires PackedFormat(fmt) && 0 < w && 0 < h && Fitting(parts, fmt, w, h)
    ensures (forall junks :: Junks(junks, fmt, w, h) ==> RightPixels(parts, junks, fmt, w, h)) <==>
            SafePasses(parts, fmt, w, h)
  {
    hide SeenPixel, StandardPixel, PassWidth, PassHeight, SafeLines, JunkFits, Fitting, Nonempty;
    PartsCount(parts, fmt, w, h);
    if SafePasses(parts, fmt, w, h) {
      forall junks: seq<seq<byte>>, x: nat, y: nat | Junks(junks, fmt, w, h) && x < w && y < h
        ensures SeenPixel(parts, junks, fmt, w, h, x, y) == StandardPixel(parts, fmt, w, h, x, y)
      {
        SafePixel(parts, junks, fmt, w, h, x, y);
      }
    } else {
      var p: nat :| p < 7 && Nonempty(w, h, p) && !SafeLines(parts[p], PassWidth(p, w), fmt.outN, fmt.depth);
      var junks, x, y := SpoiledPixel(parts, fmt, w, h, p);
      assert !RightPixels(parts, junks, fmt, w, h);
    }
  }

  lemma SafePixel(parts: seq<seq<Line>>, junks: seq<seq<byte>>, fmt: Format, w: nat, h: nat, x: nat, y: nat)
    requires PackedFormat(fmt) && x < w && y < h && Fitting(parts, fmt, w, h) && Junks(junks, fmt, w, h)
    requires |parts| == 7 && SafePasses(parts, fmt, w, h)
    ensures SeenPixel(parts, junks, fmt, w, h, x, y) == StandardPixel(parts, fmt, w, h, x, y)
  {
    hide PassWidth, PassHeight, PlaceOf, Width, Times, SeenRows, Rows, Fitting, SafeLines, Cells, Packable, Nonempty;
    var q := PlaceOf(x, y);
    PlaceInside(w, h, x, y);
    PartPackable(parts, fmt, w, h, q.p);
    assert JunkFits(junks[q.p], fmt, w, h, q.p);
    SafeRow(parts[q.p], junks[q.p], PassWidth(q.p, w), fmt.outN, fmt.depth, fmt.grey, q.j);
  }

  /** Contents of the buffers that spoil a pixel of an unsafe pass. */
  lemma SpoiledPixel(parts: seq<seq<Line>>, fmt: Format, w: nat, h: nat, p: nat)
    returns (junks: seq<seq<byte>>, x: nat, y: nat)
    requires PackedFormat(fmt) && p < 7 && 0 < w && 0 < h && Fitting(parts, fmt, w, h) && Nonempty(w, h, p)
    requires |parts| == 7 && !SafeLines(parts[p], PassWidth(p, w), fmt.outN, fmt.depth)
    ensures x < w && y < h && Junks(junks, fmt, w, h)
    ensures SeenPixel(parts, junks, fmt, w, h, x, y) != StandardPixel(parts, fmt, w, h, x, y)
  {
    hide PassWidth, PassHeight, PlaceOf, ColumnOf, RowOf, Width, Times, SeenRows, Rows, Fitting, Cells, Safe, Nonempty;
    var pw, part := PassWidth(p, w), parts[p];
    PartPackable(parts, fmt, w, h, p);
    var m :| 0 < m < |part| && !Safe(part[m], pw, fmt.depth);
    var junk := BadContents(part, pw, fmt.outN, fmt.depth, fmt.grey, m);
    junks := JunksWith(junk, fmt, w, h, p);
    var row := SeenRows(part, junk, Width(pw, fmt.depth), Times(pw, fmt.outN))[m];
    var i := DifferentPixel(row, Rows(part, 1)[m], pw, fmt);
    SizesExact(p, w, h, i);
    SizesExact(p, w, h, m);
    x, y := ColumnOf(p, i), RowOf(p, m);
    PlaceUnique(Place(p, i, m));
  }

  /** These contents for pass p, zeros for the others. */
  lemma JunksWith(junk: seq<byte>, fmt: Format, w: nat, h: nat, p: nat) returns (junks: seq<seq<byte>>)
    requires p < 7 && 0 < w && 0 < h && JunkFits(junk, fmt, w, h, p)
    ensures Junks(junks, fmt, w, h) && junks[p] == junk
  {
    hide PassWidth, PassHeight, Times;
    var zeros: seq<seq<byte>> :=
      seq(7, q requires 0 <= q < 7 => seq(Times(PassHeight(q, h), Times(PassWidth(q, w), fmt.outN)), _ => 0));
    junks := zeros[p := junk];
  }

  /** Rows that are stored differently differ in a pixel. */
  lemma DifferentPixel(row: seq<byte>, row': seq<byte>, pw: nat, fmt: Format) returns (i: nat)
    requires PackedFormat(fmt) && |row| == Width(pw, fmt.depth) == |row'|
    requires Cells(row, pw, fmt.outN, fmt.depth, fmt.grey) != Cells(row', pw, fmt.outN, fmt.depth, fmt.grey)
    ensures i < pw && CellPixel(row, pw, fmt, i) != CellPixel(row', pw, fmt, i)
  {
    hide Cells;
    var a, b := Cells(row, pw, fmt.outN, fmt.depth, fmt.grey), Cells(row', pw, fmt.outN, fmt.depth, fmt.grey);
    assert |a| == |b| == if fmt.outN == 1 then pw else 2 * pw;
    var k :| 0 <= k < |a| && a[k] != b[k];
    i := if fmt.outN == 1 then k else k / 2;
    var at := Times(i, fmt.outN);
    assert a[at..at + fmt.outN][k - at] != b[at..at + fmt.outN][k - at];
  }

  // ----- the image that is put together

  /** A pixel of the reduced image of a pass. */
  lemma PassPixel(out: seq<byte>, junk: seq<byte>, raw: seq<byte>, fmt: Format, pw: nat, ph: nat, i: nat, j: nat)
    requires PackedFormat(fmt) && i < pw && j < ph && Times(ph, fmt.RowBytes(pw) + 1) <= |raw|
    requires Decodable(LinesOf(raw, fmt.RowBytes(pw), ph)) && Denotes(out, junk, raw, fmt, pw, ph)
    ensures |out| == Times(Times(ph, pw), fmt.outN)
    ensures var w, lines := Width(pw, fmt.depth), LinesOf(raw, Width(pw, fmt.depth), ph);
            && UniformLines(lines, w) && w <= Times(pw, fmt.outN) && |junk| == Times(ph, Times(pw, fmt.outN))
            && PixelAt(out, i, j, pw, ph, fmt.outN) ==
               CellPixel(SeenRows(lines, junk, w, Times(pw, fmt.outN))[j], pw, fmt, i)
  {
    hide Times, Width, LinesOf, SeenRows, Cells, Decodable, UniformLines, Index;
    var stride := Times(pw, fmt.outN);
    assert PackedResult(out, junk, raw, fmt, pw, ph, j);
    LinesOfUniform(raw, Width(pw, fmt.depth), ph);
    FullSlots(pw, fmt.depth, fmt.outN);
    Associate(ph, pw, fmt.outN);
    SlotFits(ph, stride, j);
    SlotFits(pw, fmt.outN, i);
    RowMajor(i, j, pw, fmt.outN);
    PixelIs(out, i, j, pw, ph, fmt.outN);
    SliceOfSlice(out, Times(j, stride), stride, Times(i, fmt.outN), fmt.outN);
  }

  /** Former contents under which a pass has its pixels. */
  lemma PassJunk(parts: seq<seq<Line>>, out: seq<byte>, fmt: Format, w: nat, h: nat, p: nat) returns (junk: seq<byte>)
    requires PackedFormat(fmt) && p < 7 && 0 < w && 0 < h && Fitting(parts, fmt, w, h)
    requires |parts| == 7 && PassHolds(out, Stream(parts, w, h, 0), fmt, w, h, p)
    ensures JunkFits(junk, fmt, w, h, p)
    ensures Nonempty(w, h, p) ==> ShowsPart(parts, out, junk, fmt, w, h, p)
  {
    hide PassWidth, PassHeight, Width, Times, PassOffset, LinesOf, SeenRows, Decodable, UniformLines, Fitting, PixelAt,
         CellPixel, Stream;
    var pw, ph, at := PassWidth(p, w), PassHeight(p, h), PassOffset(fmt, w, h, p);
    if Nonempty(w, h, p) {
      var raw := Stream(parts, w, h, 0);
      PassFound(parts, fmt, w, h, p);
      PartPackable(parts, fmt, w, h, p);
      junk :| Denotes(out, junk, raw[at..], fmt, pw, ph);
      forall i, j | 0 <= i < pw && 0 <= j < ph
        ensures PixelAt(out, i, j, pw, ph, fmt.outN) ==
                CellPixel(SeenRows(parts[p], junk, Width(pw, fmt.depth), Times(pw, fmt.outN))[j], pw, fmt, i)
      {
        PassPixel(out, junk, raw[at..], fmt, pw, ph, i, j);
      }
    } else {
      junk := seq(Times(ph, Times(pw, fmt.outN)), _ => 0);
    }
  }

  /** The reduced image of pass p shows the rows computed over these contents. */
  ghost predicate ShowsPart(parts: seq<seq<Line>>, out: seq<byte>, junk: seq<byte>, fmt: Format, w: nat, h: nat, p: nat)
    requires PackedFormat(fmt) && p < 7 && 0 < w && 0 < h && Fitting(parts, fmt, w, h) && Nonempty(w, h, p)
    requires JunkFits(junk, fmt, w, h, p) && |out| == Times(Times(PassHeight(p, h), PassWidth(p, w)), fmt.outN)
  {
    hide PassWidth, PassHeight, Width, Times, SeenRows, Fitting;
    var pw, ph := PassWidth(p, w), PassHeight(p, h);
    PartPackable(parts, fmt, w, h, p);
    forall i, j | 0 <= i < pw && 0 <= j < ph ::
      PixelAt(out, i, j, pw, ph, fmt.outN) ==
      CellPixel(SeenRows(parts[p], junk, Width(pw, fmt.depth), Times(pw, fmt.outN))[j], pw, fmt, i)
  }

  lemma {:induction false} GatherJunks(parts: seq<seq<Line>>, passes: seq<seq<byte>>, fmt: Format, w: nat, h: nat,
                                       k: nat)
    returns (junks: seq<seq<byte>>)
    requires PackedFormat(fmt) && k <= 7 && 0 < w && 0 < h && Fitting(parts, fmt, w, h) && |passes| == 7
    requires |parts| == 7 && forall p: nat :: p < 7 ==> PassHolds(passes[p], Stream(parts, w, h, 0), fmt, w, h, p)
    ensures |junks| == k
    ensures forall p: nat :: p < k ==>
              && JunkFits(junks[p], fmt, w, h, p)
              && |passes[p]| == Times(Times(PassHeight(p, h), PassWidth(p, w)), fmt.outN)
    ensures forall p: nat :: p < k && Nonempty(w, h, p) ==> ShowsPart(parts, passes[p], junks[p], fmt, w, h, p)
    decreases k
  {
    hide PassWidth, PassHeight, Times, JunkFits, ShowsPart, Fitting, Nonempty, Stream;
    junks := [];
    if k > 0 {
      junks := GatherJunks(parts, passes, fmt, w, h, k - 1);
      assert PassHolds(passes[k - 1], Stream(parts, w, h, 0), fmt, w, h, k - 1);
      var junk := PassJunk(parts, passes[k - 1], fmt, w, h, k - 1);
      junks := junks + [junk];
    }
  }

  /** The image that the code puts together shows the pixels computed over some
      former contents of its buffers. */
  lemma CollectedPixels(parts: seq<seq<Line>>, image: seq<byte>, passes: seq<seq<byte>>, fmt: Format, w: nat, h: nat)
    returns (junks: seq<seq<byte>>)
    requires PackedFormat(fmt) && 0 < w && 0 < h && Fitting(parts, fmt, w, h) && |passes| == 7 && |parts| == 7
    requires |image| == Times(Times(h, w), fmt.outN)
    requires Collected(image, passes, Stream(parts, w, h, 0), fmt, w, h)
    ensures Junks(junks, fmt, w, h)
    ensures forall x: nat, y: nat :: x < w && y < h ==>
              PixelAt(image, x, y, w, h, fmt.outN) == SeenPixel(parts, junks, fmt, w, h, x, y)
  {
    hide PassWidth, PassHeight, Times, JunkFits, Fitting, Nonempty, Stream, PassHolds, ShowsPart, Shows, SeenPixel,
         PixelAt;
    junks := GatherJunks(parts, passes, fmt, w, h, 7);
    forall x: nat, y: nat | x < w && y < h
      ensures PixelAt(image, x, y, w, h, fmt.outN) == SeenPixel(parts, junks, fmt, w, h, x, y)
    {
      var p := PlaceOf(x, y).p;
      PlaceInside(w, h, x, y);
      assert Shows(image, passes[p], w, h, fmt.outN, x, y);
      ShownPixel(parts, image, passes[p], junks, fmt, w, h, x, y);
    }
  }

  lemma ShownPixel(parts: seq<seq<Line>>, image: seq<byte>, pass: seq<byte>, junks: seq<seq<byte>>, fmt: Format,
                   w: nat, h: nat, x: nat, y: nat)
    requires PackedFormat(fmt) && x < w && y < h && Fitting(parts, fmt, w, h) && Junks(junks, fmt, w, h)
    requires |image| == Times(Times(h, w), fmt.outN)
    requires var p := PlaceOf(x, y).p;
             && Nonempty(w, h, p) && |pass| == Times(Times(PassHeight(p, h), PassWidth(p, w)), fmt.outN)
             && JunkFits(junks[p], fmt, w, h, p) && ShowsPart(parts, pass, junks[p], fmt, w, h, p)
             && Shows(image, pass, w, h, fmt.outN, x, y)
    ensures PixelAt(image, x, y, w, h, fmt.outN) == SeenPixel(parts, junks, fmt, w, h, x, y)
  {
    hide PassWidth, PassHeight, PlaceOf, Times, Width, Fitting, Nonempty, SeenRows, PixelAt, CellPixel;
    PlaceInside(w, h, x, y);
    Partition(w, h, x, y, PlaceOf(x, y));
  }

  // ----- the round trip

  /** All samples of an image fit the depth. */
  predicate SamplesFit(samples: seq<seq<nat>>, depth: nat, w: nat) {
    forall j :: 0 <= j < |samples| ==> |samples[j]| == w && Fit(samples[j], depth)
  }

  /** The samples of pass p. */
  function PassSamples(samples: seq<seq<nat>>, depth: nat, w: nat, p: nat): (r: seq<seq<nat>>)
    requires p < 7 && 0 < w && 0 < |samples| && SamplesFit(samples, depth, w)
    ensures |r| == PassHeight(p, |samples|) && SamplesFit(r, depth, PassWidth(p, w))
  {
    seq(PassHeight(p, |samples|), j requires 0 <= j < PassHeight(p, |samples|) =>
      SizesExact(p, w, |samples|, j); SampleRow(samples[RowOf(p, j)], depth, w, p))
  }

  function SampleRow(row: seq<nat>, depth: nat, w: nat, p: nat): (r: seq<nat>)
    requires p < 7 && 0 < w && |row| == w && Fit(row, depth)
    ensures |r| == PassWidth(p, w) && Fit(r, depth)
  {
    seq(PassWidth(p, w), i requires 0 <= i < PassWidth(p, w) => SizesExact(p, w, 1, i); row[ColumnOf(p, i)])
  }

  /** The filtered lines of all passes, packed row by row. */
  function PackedParts(samples: seq<seq<nat>>, filters: seq<seq<byte>>, depth: nat, w: nat): (parts: seq<seq<Line>>)
    requires depth in {1, 2, 4} && 0 < w && 0 < |samples| && SamplesFit(samples, depth, w) && Choice(filters, |samples|)
    ensures |parts| == 7
  {
    seq(7, p requires 0 <= p < 7 =>
      FilterRows(PackedRows(PassSamples(samples, depth, w, p), depth, PassWidth(p, w)), filters[p], 1))
  }

  lemma PackedPartsFit(samples: seq<seq<nat>>, filters: seq<seq<byte>>, fmt: Format, w: nat)
    requires PackedFormat(fmt) && 0 < w && 0 < |samples|
    requires SamplesFit(samples, fmt.depth, w) && Choice(filters, |samples|)
    ensures Fitting(PackedParts(samples, filters, fmt.depth, w), fmt, w, |samples|)
  {
    hide PassWidth, PassHeight, Times, FilterRows, PackedRows, PassSamples, Width, Uniform, UniformLines, Decodable;
    var parts := PackedParts(samples, filters, fmt.depth, w);
    forall p: nat | p < 7 && Nonempty(w, |samples|, p) ensures PartFits(parts[p], fmt, w, |samples|, p) {
      var rows := PackedRows(PassSamples(samples, fmt.depth, w, p), fmt.depth, PassWidth(p, w));
      FilteredUniform(rows, filters[p], 1, Width(PassWidth(p, w), fmt.depth));
    }
  }

  /** The pixel that the lines denote is the sample, scaled, with an opaque alpha
      behind it if asked for. */
  lemma DenotedSample(samples: seq<seq<nat>>, filters: seq<seq<byte>>, fmt: Format, w: nat, x: nat, y: nat)
    requires PackedFormat(fmt) && x < w && y < |samples|
    requires SamplesFit(samples, fmt.depth, w) && Choice(filters, |samples|)
    requires Fitting(PackedParts(samples, filters, fmt.depth, w), fmt, w, |samples|)
    ensures IsSample(StandardPixel(PackedParts(samples, filters, fmt.depth, w), fmt, w, |samples|, x, y),
                     samples[y][x], fmt)
  {
    hide PassWidth, PassHeight, PlaceOf, ColumnOf, RowOf, FilterRows, Width, Times, Rows, Packed, Fitting, Scale,
         CellPixel, IsSample;
    var q, parts := PlaceOf(x, y), PackedParts(samples, filters, fmt.depth, w);
    PlaceInside(w, |samples|, x, y);
    PartPackable(parts, fmt, w, |samples|, q.p);
    PlaceIs(x, y);
    var part := PassSamples(samples, fmt.depth, w, q.p);
    RowsOfFiltered(PackedRows(part, fmt.depth, PassWidth(q.p, w)), filters[q.p], 1);
    assert part[q.j][q.i] == samples[y][x];
    PackedPixel(part[q.j], fmt, q.i);
  }

  ghost predicate IsSample(px: seq<byte>, s: nat, fmt: Format)
    requires PackedFormat(fmt)
  {
    && |px| == fmt.outN && px[0] as int == Scale(fmt.depth, fmt.grey) * s
    && (fmt.outN == 2 ==> px[1] == 255)
  }

  lemma PackedPixel(s: seq<nat>, fmt: Format, i: nat)
    requires PackedFormat(fmt) && Fit(s, fmt.depth) && i < |s|
    ensures IsSample(CellPixel(Packed(s, fmt.depth), |s|, fmt, i), s[i], fmt)
  {
    hide Packed, Cells, Scale, Width;
    CellsOfPacked(s, fmt, i);
  }

  /** De-interlacing the packed and filtered passes extracted from an image gives
      every sample back, whatever the buffers held before, if the lines are safe. */
  lemma PackedRoundTrip(samples: seq<seq<nat>>, filters: seq<seq<byte>>, fmt: Format, w: nat,
                        image: seq<byte>, passes: seq<seq<byte>>, x: nat, y: nat)
    requires PackedFormat(fmt) && x < w && y < |samples|
    requires SamplesFit(samples, fmt.depth, w) && Choice(filters, |samples|)
    requires SafePasses(PackedParts(samples, filters, fmt.depth, w), fmt, w, |samples|)
    requires |image| == Times(Times(|samples|, w), fmt.outN) && |passes| == 7
    ensures var raw := Stream(PackedParts(samples, filters, fmt.depth, w), w, |samples|, 0);
            && (forall p :: 0 <= p < 7 ==> PassAccepted(raw, fmt, w, |samples|, p))
            && (Collected(image, passes, raw, fmt, w, |samples|) ==>
                  IsSample(PixelAt(image, x, y, w, |samples|, fmt.outN), samples[y][x], fmt))
  {
    hide PassWidth, PassHeight, Times, PackedParts, Stream, PassAccepted, Collected, Fitting, SafePasses, IsSample,
         SeenPixel, StandardPixel, PixelAt, Junks, Choice;
    var h, parts := |samples|, PackedParts(samples, filters, fmt.depth, w);
    PackedPartsFit(samples, filters, fmt, w);
    var raw := Stream(parts, w, h, 0);
    forall p | 0 <= p < 7 ensures PassAccepted(raw, fmt, w, h, p) { PassFound(parts, fmt, w, h, p); }
    if Collected(image, passes, raw, fmt, w, h) {
      var junks := CollectedPixels(parts, image, passes, fmt, w, h);
      SafePixel(parts, junks, fmt, w, h, x, y);
      DenotedSample(samples, filters, fmt, w, x, y);
    }
  }
}
