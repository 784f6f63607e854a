/** Round trip of interlaced 8-bit images: split into passes, filter, decode. */
module PngInterlaced {
  import opened Products
  import opened Bits
  import opened Buffers
  import opened PngLines
  import opened PngPacked
  import opened PngPixels
  import opened PngRaw
  import opened Adam7
  import opened PngInterlace
  import opened PngPasses

  // ----- pixels of assembled images

  lemma RowMajor(i: nat, j: nat, x: nat, n: nat)
    ensures Times(Index(i, j, x), n) == Times(j, Times(x, n)) + Times(i, n)
  {}

  lemma AssembledPixel(rows: seq<seq<byte>>, n: nat, outN: nat, x: nat, i: nat, j: nat)
    requires outN in {n, n + 1} && Uniform(rows, Times(x, n)) && j < |rows| && i < x
    ensures |Assembled(rows, n, outN, x)| == Times(Times(|rows|, x), outN) && Times(i, n) + n <= |rows[j]|
    ensures PixelAt(Assembled(rows, n, outN, x), i, j, x, |rows|, outN) == PixelOf(rows[j], n, outN, i)
  {
    hide Times, Stored, Assembled, Index, PixelOf;
    var all := Assembled(rows, n, outN, x);
    Associate(|rows|, x, outN);
    AssembledRow(rows, n, outN, x, j);
    StoredPixel(rows[j], n, outN, x, i);
    RowMajor(i, j, x, outN);
    PixelIs(all, i, j, x, |rows|, outN);
    var base := Times(j, Times(x, outN));
    SliceOfSlice(all, base, Times(x, outN), Times(i, outN), outN);
  }

  // ----- the encoder

  /** The first k pixels of a row of pass p. */
  function PassRow(row: seq<byte>, p: nat, n: nat, k: nat, w: nat): (r: seq<byte>)
    requires p < 7 && 0 < w && k <= PassWidth(p, w) && |row| == Times(w, n)
    ensures |r| == Times(k, n)
  {
    if k == 0 then TimesNext(0, n); []
    else
      TimesNext(k - 1, n);
      SizesExact(p, w, 1, k - 1);
      SlotFits(w, n, ColumnOf(p, k - 1));
      PassRow(row, p, n, k - 1, w) + row[Times(ColumnOf(p, k - 1), n)..Times(ColumnOf(p, k - 1), n) + n]
  }

  lemma {:induction false} PassRowPixel(row: seq<byte>, p: nat, n: nat, k: nat, w: nat, i: nat)
    requires p < 7 && 0 < w && k <= PassWidth(p, w) && |row| == Times(w, n) && i < k
    ensures Times(ColumnOf(p, i), n) + n <= |row| && Times(i, n) + n <= Times(k, n)
    ensures PassRow(row, p, n, k, w)[Times(i, n)..Times(i, n) + n] ==
            row[Times(ColumnOf(p, i), n)..Times(ColumnOf(p, i), n) + n]
    decreases k
  {
    hide Times, PassWidth, ColumnOf;
    SizesExact(p, w, 1, i);
    SlotFits(w, n, ColumnOf(p, i));
    SlotFits(k, n, i);
    TimesNext(k - 1, n);
    if i < k - 1 {
      PassRowPixel(row, p, n, k - 1, w, i);
      assert PassRow(row, p, n, k - 1, w) == PassRow(row, p, n, k, w)[..Times(k - 1, n)];
    }
  }

  /** The rows of pass p of an image. */
  function PassRows(rows: seq<seq<byte>>, p: nat, n: nat, w: nat): (r: seq<seq<byte>>)
    requires p < 7 && 0 < w && 0 < |rows| && Uniform(rows, Times(w, n))
    ensures |r| == PassHeight(p, |rows|) && Uniform(r, Times(PassWidth(p, w), n))
  {
    seq(PassHeight(p, |rows|), j requires 0 <= j < PassHeight(p, |rows|) =>
      SizesExact(p, w, |rows|, j); PassRow(rows[RowOf(p, j)], p, n, PassWidth(p, w), w))
  }

  /** One filter type for every row of every pass. */
  predicate Choice(filters: seq<seq<byte>>, h: nat)
    requires 0 < h
  {
    |filters| == 7 &&
    forall p :: 0 <= p < 7 ==>
      |filters[p]| == PassHeight(p, h) && forall j :: 0 <= j < |filters[p]| ==> filters[p][j] <= 4
  }

  /** The filtered lines of all passes. */
  function Parts(rows: seq<seq<byte>>, filters: seq<seq<byte>>, n: nat, w: nat): (parts: seq<seq<Line>>)
    requires 0 < n && 0 < w && 0 < |rows| && Uniform(rows, Times(w, n)) && Choice(filters, |rows|)
    ensures |parts| == 7
  {
    seq(7, p requires 0 <= p < 7 => FilterRows(PassRows(rows, p, n, w), filters[p], n))
  }

  lemma PartsFit(rows: seq<seq<byte>>, filters: seq<seq<byte>>, fmt: Format, w: nat)
    requires fmt.Valid() && fmt.depth == 8 && 0 < w && 0 < |rows|
    requires Uniform(rows, Times(w, fmt.n)) && Choice(filters, |rows|)
    ensures Fitting(Parts(rows, filters, fmt.n, w), fmt, w, |rows|)
  {
    hide PassWidth, PassHeight, Times, FilterRows, PassRows, Uniform;
    var parts := Parts(rows, filters, fmt.n, w);
    forall p: nat | p < 7 && Nonempty(w, |rows|, p) ensures PartFits(parts[p], fmt, w, |rows|, p) {
      FilteredUniform(PassRows(rows, p, fmt.n, w), filters[p], fmt.n, Times(PassWidth(p, w), fmt.n));
    }
  }

  /** The seven passes of an 8-bit image, as an encoder writes them. */
  function EncodePasses(rows: seq<seq<byte>>, filters: seq<seq<byte>>, n: nat, w: nat): seq<byte>
    requires 0 < n && 0 < w && 0 < |rows| && Uniform(rows, Times(w, n)) && Choice(filters, |rows|)
  {
    Stream(Parts(rows, filters, n, w), w, |rows|, 0)
  }

  // ----- the round trip

  /** Pass p is acceptable and denotes the given rows. */
  ghost predicate PassYields(raw: seq<byte>, fmt: Format, w: nat, h: nat, p: nat, part: seq<seq<byte>>)
    requires fmt.Valid() && fmt.depth == 8 && p < 7 && 0 < w && 0 < h && Uniform(part, Times(PassWidth(p, w), fmt.n))
  {
    hide PassWidth, PassHeight, Times, PassOffset, LinesOf;
    var x, y, at := PassWidth(p, w), PassHeight(p, h), PassOffset(fmt, w, h, p);
    && PassAccepted(raw, fmt, w, h, p)
    && (x > 0 && y > 0 ==> ImageOf(raw[at..], fmt.n, fmt.outN, x, y) == Assembled(part, fmt.n, fmt.outN, x))
  }

  /** Every pass is accepted, and its reduced image is assembled from its rows. */
  lemma PassDecodes(rows: seq<seq<byte>>, filters: seq<seq<byte>>, fmt: Format, w: nat, p: nat)
    requires fmt.Valid() && fmt.depth == 8 && p < 7 && 0 < w && 0 < |rows|
    requires Uniform(rows, Times(w, fmt.n)) && Choice(filters, |rows|)
    ensures PassYields(EncodePasses(rows, filters, fmt.n, w), fmt, w, |rows|, p, PassRows(rows, p, fmt.n, w))
  {
    hide PassWidth, PassHeight, Times, FilterRows, PassRows, Uniform, PassOffset, Assembled, Stream, Fitting,
         Rows, Accepts, Decodable, LinesOf;
    PartsFit(rows, filters, fmt, w);
    PassFound(Parts(rows, filters, fmt.n, w), fmt, w, |rows|, p);
    RowsOfFiltered(PassRows(rows, p, fmt.n, w), filters[p], fmt.n);
  }

  /** Whatever filters the encoder picks, the decoder accepts the seven passes of an
      image and puts every pixel back where it was. */
  lemma InterlacedRoundTrip(rows: seq<seq<byte>>, filters: seq<seq<byte>>, fmt: Format, w: nat,
                            image: seq<byte>, passes: seq<seq<byte>>, x: nat, y: nat)
    requires fmt.Valid() && fmt.depth == 8 && 0 < w && x < w && y < |rows|
    requires Uniform(rows, Times(w, fmt.n)) && Choice(filters, |rows|)
    requires |image| == Times(Times(|rows|, w), fmt.outN) && |passes| == 7
    ensures var raw := EncodePasses(rows, filters, fmt.n, w);
            && (forall p :: 0 <= p < 7 ==> PassAccepted(raw, fmt, w, |rows|, p))
            && Times(x, fmt.n) + fmt.n <= |rows[y]|
            && (Collected(image, passes, raw, fmt, w, |rows|) ==>
                  PixelAt(image, x, y, w, |rows|, fmt.outN) == PixelOf(rows[y], fmt.n, fmt.outN, x))
  {
    hide PassWidth, PassHeight, Times, PlaceOf, ColumnOf, RowOf, EncodePasses, PassAccepted, Collected, PixelOf, Choice;
    var raw := EncodePasses(rows, filters, fmt.n, w);
    forall p | 0 <= p < 7 ensures PassAccepted(raw, fmt, w, |rows|, p) { PassDecodes(rows, filters, fmt, w, p); }
    SlotFits(w, fmt.n, x);
    if Collected(image, passes, raw, fmt, w, |rows|) {
      PixelBack(rows, filters, fmt, w, image, passes, x, y);
    }
  }

  lemma UniformAt(rows: seq<seq<byte>>, w: nat, j: nat)
    requires Uniform(rows, w) && j < |rows|
    ensures |rows[j]| == w
  {}

  lemma PixelBack(rows: seq<seq<byte>>, filters: seq<seq<byte>>, fmt: Format, w: nat,
                  image: seq<byte>, passes: seq<seq<byte>>, x: nat, y: nat)
    requires fmt.Valid() && fmt.depth == 8 && 0 < w && x < w && y < |rows|
    requires Uniform(rows, Times(w, fmt.n)) && Choice(filters, |rows|)
    requires |image| == Times(Times(|rows|, w), fmt.outN) && |passes| == 7
    requires Collected(image, passes, EncodePasses(rows, filters, fmt.n, w), fmt, w, |rows|)
    ensures Times(x, fmt.n) + fmt.n <= |rows[y]|
    ensures PixelAt(image, x, y, w, |rows|, fmt.outN) == PixelOf(rows[y], fmt.n, fmt.outN, x)
  {
    hide PassWidth, PassHeight, Times, PlaceOf, ColumnOf, RowOf, EncodePasses, Choice, PassRow,
         Assembled, ImageOf, PassOffset, LinesOf, Decodable, Uniform;
    var q, h := PlaceOf(x, y), |rows|;
    Partition(w, h, x, y, q);
    var pw, ph := PassWidth(q.p, w), PassHeight(q.p, h);
    var part := PassRows(rows, q.p, fmt.n, w);
    assert Shows(image, passes[q.p], w, h, fmt.outN, x, y);
    assert PassHolds(passes[q.p], EncodePasses(rows, filters, fmt.n, w), fmt, w, h, q.p);
    PassDecodes(rows, filters, fmt, w, q.p);
    AssembledPixel(part, fmt.n, fmt.outN, pw, q.i, q.j);
    UniformAt(rows, Times(w, fmt.n), y);
    PassRowPixel(rows[y], q.p, fmt.n, pw, w, q.i);
  }
}
