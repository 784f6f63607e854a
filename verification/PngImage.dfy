/** `stbi__create_png_image_raw` for 8-bit samples. */
module PngImage {
  import opened Products
  import opened Bits
  import opened Buffers
  import opened PngFilter
  import opened PngRows
  import opened PngLines
  import opened PngPixels

  lemma {:induction false} AssembledLast(rows: seq<seq<byte>>, n: nat, outN: nat, x: nat)
    requires outN in {n, n + 1} && rows != [] && Uniform(rows, Times(x, n))
    ensures Times(|rows|, Times(x, outN)) == Times(|rows| - 1, Times(x, outN)) + Times(x, outN)
    ensures Assembled(rows, n, outN, x)[Times(|rows| - 1, Times(x, outN))..] == Stored(Last(rows), n, outN, x)
  {
    hide Stored, Times;
    TimesNext(|rows| - 1, Times(x, outN));
    assert |Assembled(rows[..|rows| - 1], n, outN, x)| == Times(|rows| - 1, Times(x, outN));
  }

  lemma SplicePrefix(before: seq<byte>, base: nat, row: seq<byte>)
    requires base + |row| <= |before|
    ensures Splice(before, base, row)[..base + |row|] == before[..base] + row
  {}

  /** The row above the next one, as the buffer holds it. */
  lemma PriorIs(out: seq<byte>, n: nat, outN: nat, x: nat, base: nat, rows: seq<seq<byte>>)
    requires 0 < n && outN in {n, n + 1} && Uniform(rows, Times(x, n))
    requires base == Times(|rows|, Times(x, outN)) && base <= |out| && rows != []
    requires out[..base] == Assembled(rows, n, outN, x)
    ensures base >= Times(x, outN)
    ensures out[base - Times(x, outN)..base] == Stored(Last(rows), n, outN, x)
  {
    hide Assembled, Times, Stored;
    AssembledLast(rows, n, outN, x);
    var from := base - Times(x, outN);
    assert out[from..base] == out[..base][from..];
  }

  /** One more row behind the rows already in the buffer. */
  method NextRow(out: array<byte>, raw: seq<byte>, f: nat, first: bool, n: nat, outN: nat, x: nat, base: nat,
                 ghost rows: seq<seq<byte>>)
    requires 0 < n && 0 < x && outN in {n, n + 1} && f <= 4 && |raw| == Times(x, n)
    requires Uniform(rows, Times(x, n))
    requires base == Times(|rows|, Times(x, outN)) && base + Times(x, outN) <= out.Length && first == (rows == [])
    requires out[..base] == Assembled(rows, n, outN, x)
    modifies out
    ensures out[..base + Times(x, outN)] ==
            Assembled(rows, n, outN, x) + Stored(Recon(f, raw, Last(rows), n, Times(x, n)), n, outN, x)
  {
    hide Recon, Assembled, Times, WithAlpha, Splice;
    ghost var before := out[..];
    var stride := Times(x, outN);
    TimesMonotone(1, x, n);
    TimesNext(0, n);
    if !first { PriorIs(before, n, outN, x, base, rows); }
    var pbase := if first then 0 else base - stride;
    if outN == n {
      UnfilterRow(out, raw, f, first, base, pbase, n, stride);
    } else {
      UnfilterRowAlpha(out, raw, f, first, base, pbase, n, x, Last(rows));
    }
    SplicePrefix(before, base, Stored(Recon(f, raw, Last(rows), n, Times(x, n)), n, outN, x));
  }

  /** One more line. */
  lemma NextLine(raw: seq<byte>, n: nat, outN: nat, x: nat, j: nat)
    requires 0 < n && outN in {n, n + 1} && Times(j + 1, Times(x, n) + 1) <= |raw|
    requires Times(j, Times(x, n) + 1) <= |raw|
    requires Decodable(LinesOf(raw, Times(x, n), j)) && LineAt(raw, Times(x, n), j).filter <= 4
    ensures var w := Times(x, n); var lines := LinesOf(raw, w, j); var l := LineAt(raw, w, j);
            && Uniform(Rows(lines, n), w)
            && Decodable(LinesOf(raw, w, j + 1))
            && ImageOf(raw, n, outN, x, j) == Assembled(Rows(lines, n), n, outN, x)
            && |l.bytes| == w
            && ImageOf(raw, n, outN, x, j + 1) ==
               Assembled(Rows(lines, n), n, outN, x) +
               Stored(Recon(l.filter, l.bytes, Last(Rows(lines, n)), n, w), n, outN, x)
  {
    hide Recon, Times, Stored, Rows, Uniform, UniformLines, LinesOf;
    var w := Times(x, n);
    var lines, l := LinesOf(raw, w, j), LineAt(raw, w, j);
    LinesPrefix(raw, w, j + 1);
    LinesOfUniform(raw, w, j);
    RowsUniform(lines, n, w);
    LinesOfUniform(raw, w, j + 1);
    RowsUniform(LinesOf(raw, w, j + 1), n, w);
    RowsSnoc(lines, l, n);
    var rows := Rows(lines, n);
    var row := Recon(l.filter, l.bytes, Last(rows), n, w);
    assert (rows + [row])[..j] == rows;
  }

  lemma NoLines(raw: seq<byte>, n: nat, outN: nat, x: nat)
    requires 0 < n && outN in {n, n + 1}
    ensures Times(0, Times(x, n) + 1) == 0
    ensures Decodable(LinesOf(raw, Times(x, n), 0)) && ImageOf(raw, n, outN, x, 0) == []
  {}

  lemma BadLine(raw: seq<byte>, w: nat, y: nat, j: nat)
    requires j < y && Times(y, w + 1) <= |raw|
    ensures Times(j + 1, w + 1) == Times(j, w + 1) + w + 1 <= |raw|
    ensures LineAt(raw, w, j).filter > 4 ==> !Decodable(LinesOf(raw, w, y))
  {
    TimesNext(j, w + 1);
    TimesMonotone(j + 1, y, w + 1);
    assert LinesOf(raw, w, y)[j] == LineAt(raw, w, j);
  }

  /** The row loop for 8-bit samples: fails exactly at an unknown filter, and
      otherwise leaves the denoted rows in the buffer. */
  method Reconstruct(out: array<byte>, raw: seq<byte>, n: nat, outN: nat, x: nat, y: nat) returns (ok: bool)
    requires 0 < n && 0 < x && outN in {n, n + 1}
    requires Times(y, Times(x, n) + 1) <= |raw| && out.Length == Times(y, Times(x, outN))
    modifies out
    ensures ok == Decodable(LinesOf(raw, Times(x, n), y))
    ensures ok ==> out[..] == ImageOf(raw, n, outN, x, y)
    ensures ok ==> AllRight(out[..], raw, n, outN, x, y)
  {
    hide Recon, Times, Stored, Assembled, Rows, LinesOf, ImageOf, AllRight;
    var w, stride := Times(x, n), Times(x, outN);
    TimesNext(0, stride);
    NoLines(raw, n, outN, x);
    var j, p, base := 0, 0, 0;
    while j < y
      invariant 0 <= j <= y && p == Times(j, w + 1) <= |raw| && base == Times(j, stride) && base <= out.Length
      invariant Decodable(LinesOf(raw, w, j))
      invariant out[..base] == ImageOf(raw, n, outN, x, j)
    {
      BadLine(raw, w, y, j);
      TimesNext(j, stride);
      TimesMonotone(j + 1, y, stride);
      var f := raw[p];
      if f > 4 { return false; }
      NextLine(raw, n, outN, x, j);
      NextRow(out, raw[p + 1..p + 1 + w], f, j == 0, n, outN, x, base, Rows(LinesOf(raw, w, j), n));
      j, p, base := j + 1, p + w + 1, base + stride;
    }
    assert out[..base] == out[..];
    ImageAllRight(raw, n, outN, x, y);
    ok := true;
  }
}
