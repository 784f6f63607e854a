/** The bytes of a decoded 8-bit image, pixel by pixel. */
module PngPixels {
  import opened Products
  import opened Bits
  import opened PngFilter
  import opened PngRows
  import opened PngLines
  import opened PngPacked

  /** Pixel i of a row, as it comes out of the decoder. */
  function PixelOf(row: seq<byte>, n: nat, outN: nat, i: nat): seq<byte>
    requires Times(i, n) + n <= |row|
  {
    row[Times(i, n)..Times(i, n) + n] + if outN == n then [] else [255]
  }

  // ----- pixels of assembled images

  lemma {:induction false} AssembledRow(rows: seq<seq<byte>>, n: nat, outN: nat, x: nat, j: nat)
    requires outN in {n, n + 1} && Uniform(rows, Times(x, n)) && j < |rows|
    ensures Times(j, Times(x, outN)) + Times(x, outN) <= Times(|rows|, Times(x, outN))
    ensures Slot(Assembled(rows, n, outN, x), Times(x, outN), j) == Stored(rows[j], n, outN, x)
    decreases |rows|
  {
    hide Times, Stored;
    var stride, m := Times(x, outN), |rows| - 1;
    SlotFits(|rows|, stride, j);
    TimesNext(m, stride);
    if j < m {
      AssembledRow(rows[..m], n, outN, x, j);
      SlotOfPrefix(Assembled(rows[..m], n, outN, x), Stored(rows[m], n, outN, x), stride, j);
    } else {
      LastSlot(Assembled(rows[..m], n, outN, x), Stored(rows[m], n, outN, x), stride, m);
    }
  }

  lemma LastSlot(a: seq<byte>, b: seq<byte>, stride: nat, j: nat)
    requires Times(j, stride) == |a| && |b| == stride
    ensures Slot(a + b, stride, j) == b
  {
    hide Times;
  }

  lemma SlotOfPrefix(a: seq<byte>, b: seq<byte>, stride: nat, j: nat)
    requires Times(j, stride) + stride <= |a|
    ensures Slot(a + b, stride, j) == Slot(a, stride, j)
  {
    hide Times;
  }

  lemma StoredPixel(row: seq<byte>, n: nat, outN: nat, x: nat, i: nat)
    requires outN in {n, n + 1} && |row| == Times(x, n) && i < x
    ensures Times(i, n) + n <= |row| && Times(i, outN) + outN <= Times(x, outN)
    ensures Stored(row, n, outN, x)[Times(i, outN)..Times(i, outN) + outN] == PixelOf(row, n, outN, i)
  {
    hide Times, WithAlpha;
    SlotFits(x, n, i);
    SlotFits(x, outN, i);
    if outN == n + 1 {
      var px := Stored(row, n, outN, x)[Times(i, outN)..Times(i, outN) + outN];
      forall k | 0 <= k <= n ensures px[k] == PixelOf(row, n, outN, i)[k] {
        AlphaAt(row, n, x, i, k);
      }
    }
  }

  // ----- the equations of the standard

  /** Byte k of pixel i in row j of an image of x pixels with outN bytes each. */
  function ByteOf(x: nat, outN: nat, j: nat, i: nat, k: nat): nat {
    Times(j, Times(x, outN)) + Times(i, outN) + k
  }

  function Get(s: seq<byte>, k: nat): byte { if k < |s| then s[k] else 0 }

  /** Byte k of pixel i in row j is right: for the filter type of the row and the
      filtered byte, and for the same byte of the pixels to the left, above and above
      left, where there is zero outside the image; an alpha byte behind them is opaque. */
  predicate PixelRight(out: seq<byte>, raw: seq<byte>, n: nat, outN: nat, x: nat, j: nat, i: nat, k: nat) {
    var at, line := ByteOf(x, outN, j, i, k), Times(j, Times(x, n) + 1);
    && at < |out|
    && if k == n then out[at] == 255
       else
         ByteRight(Get(raw, line), Get(raw, line + 1 + Times(i, n) + k),
                   if i == 0 then 0 else Get(out, ByteOf(x, outN, j, i - 1, k)),
                   if j == 0 then 0 else Get(out, ByteOf(x, outN, j - 1, i, k)),
                   if i == 0 || j == 0 then 0 else Get(out, ByteOf(x, outN, j - 1, i - 1, k)), out[at])
  }

  /** Every row obeys the equations of its filter. */
  lemma {:induction false} RowsRight(lines: seq<Line>, d: nat, w: nat, j: nat)
    requires d > 0 && Decodable(lines) && UniformLines(lines, w) && j < |lines|
    ensures RowRight(lines[j].filter, lines[j].bytes, if j == 0 then [] else Rows(lines, d)[j - 1], d,
                     Rows(lines, d)[j])
    decreases |lines|
  {
    hide Recon, RowRight;
    var m := |lines| - 1;
    RowsUniform(lines, d, w);
    RowsUniform(lines[..m], d, w);
    if j < m {
      RowsRight(lines[..m], d, w, j);
    } else {
      ReconRight(lines[m].filter, lines[m].bytes, Last(Rows(lines[..m], d)), d);
    }
  }

  /** A byte of the image is the byte of its row. */
  lemma ImageByte(rows: seq<seq<byte>>, n: nat, outN: nat, x: nat, j: nat, i: nat, k: nat)
    requires outN in {n, n + 1} && Uniform(rows, Times(x, n)) && j < |rows| && i < x && k < outN
    ensures var out, at := Assembled(rows, n, outN, x), ByteOf(x, outN, j, i, k);
            && at < |out| && Times(i, n) + n <= |rows[j]|
            && out[at] == if k == n then 255 else rows[j][Times(i, n) + k]
  {
    hide Times, Stored, Assembled, PixelOf;
    var out, stride := Assembled(rows, n, outN, x), Times(x, outN);
    AssembledRow(rows, n, outN, x, j);
    StoredPixel(rows[j], n, outN, x, i);
    var slot := Slot(out, stride, j);
    assert slot[Times(i, outN)..Times(i, outN) + outN][k] == slot[Times(i, outN) + k];
    assert slot[Times(i, outN) + k] == out[Times(j, stride) + Times(i, outN) + k];
    PixelByte(rows[j], n, outN, i, k);
  }

  lemma PixelByte(row: seq<byte>, n: nat, outN: nat, i: nat, k: nat)
    requires outN in {n, n + 1} && Times(i, n) + n <= |row| && k < outN
    ensures |PixelOf(row, n, outN, i)| == outN
    ensures PixelOf(row, n, outN, i)[k] == if k == n then 255 else row[Times(i, n) + k]
  {
    hide Times;
  }

  lemma LineBytes(raw: seq<byte>, w: nat, y: nat, j: nat, q: nat)
    requires Times(y, w + 1) <= |raw| && j < y && q < w
    ensures Times(j, w + 1) + 1 + q < |raw|
    ensures var l := LinesOf(raw, w, y)[j];
            |l.bytes| == w && l.filter == raw[Times(j, w + 1)] && l.bytes[q] == raw[Times(j, w + 1) + 1 + q]
  {
    hide Times;
    TimesNext(j, w + 1);
    TimesMonotone(j + 1, y, w + 1);
  }

  /** The neighbours of a byte of a row are bytes of the pixels beside and above. */
  lemma RowByte(l: Line, prior: seq<byte>, row: seq<byte>, n: nat, i: nat, k: nat)
    requires 0 < n && k < n && Times(i, n) + k < |row| && RowRight(l.filter, l.bytes, prior, n, row)
    ensures i > 0 ==> Times(i - 1, n) == Times(i, n) - n
    ensures ByteRight(l.filter, l.bytes[Times(i, n) + k], if i == 0 then 0 else row[Times(i - 1, n) + k],
                      if prior == [] then 0 else prior[Times(i, n) + k],
                      if i == 0 || prior == [] then 0 else prior[Times(i - 1, n) + k], row[Times(i, n) + k])
  {
    hide Times, ByteRight;
    var q := Times(i, n) + k;
    TimesNext(0, n);
    if i > 0 { TimesNext(i - 1, n); }
    assert NeighboursRight(l.filter, l.bytes, prior, n, row, q);
  }

  /** Every byte of the image that the lines denote is right. */
  lemma ImageRight(raw: seq<byte>, n: nat, outN: nat, x: nat, y: nat, j: nat, i: nat, k: nat)
    requires 0 < n && outN in {n, n + 1} && Times(y, Times(x, n) + 1) <= |raw|
    requires Decodable(LinesOf(raw, Times(x, n), y)) && j < y && i < x && k < outN
    ensures PixelRight(ImageOf(raw, n, outN, x, y), raw, n, outN, x, j, i, k)
  {
    hide Times, Assembled, Rows, RowRight, ByteRight, ByteOf, Uniform, UniformLines, LinesOf;
    var w := Times(x, n);
    var lines := LinesOf(raw, w, y);
    LinesOfUniform(raw, w, y);
    RowsUniform(lines, n, w);
    var rows := Rows(lines, n);
    ImageByte(rows, n, outN, x, j, i, k);
    if k < n {
      RowsRight(lines, n, w, j);
      LineBytes(raw, w, y, j, Times(i, n) + k);
      if i > 0 { ImageByte(rows, n, outN, x, j, i - 1, k); }
      if j > 0 { ImageByte(rows, n, outN, x, j - 1, i, k); }
      if i > 0 && j > 0 { ImageByte(rows, n, outN, x, j - 1, i - 1, k); }
      RowByte(lines[j], if j == 0 then [] else rows[j - 1], rows[j], n, i, k);
    }
  }

  /** All bytes of an image of y rows are right. */
  ghost predicate AllRight(out: seq<byte>, raw: seq<byte>, n: nat, outN: nat, x: nat, y: nat) {
    forall j: nat, i: nat, k: nat :: j < y && i < x && k < outN ==> PixelRight(out, raw, n, outN, x, j, i, k)
  }

  lemma ImageAllRight(raw: seq<byte>, n: nat, outN: nat, x: nat, y: nat)
    requires 0 < n && outN in {n, n + 1} && Times(y, Times(x, n) + 1) <= |raw|
    requires Decodable(LinesOf(raw, Times(x, n), y))
    ensures AllRight(ImageOf(raw, n, outN, x, y), raw, n, outN, x, y)
  {
    hide Times, ImageOf, PixelRight, LinesOf;
    forall j: nat, i: nat, k: nat | j < y && i < x && k < outN
      ensures PixelRight(ImageOf(raw, n, outN, x, y), raw, n, outN, x, j, i, k)
    {
      ImageRight(raw, n, outN, x, y, j, i, k);
    }
  }
}
