/** Reconstruction of PNG rows in the output buffer. */
module PngRows {
  import opened Products
  import opened Bits
  import opened Buffers
  import opened PngFilter

  /** Every byte of a reconstructed row satisfies the reconstruction equation. */
  lemma {:induction false} ReconAt(f: nat, raw: seq<byte>, prior: seq<byte>, d: nat, n: nat, m: nat)
    requires f <= 4 && d > 0 && m < n <= |raw|
    ensures var r := Recon(f, raw, prior, d, n);
            r[m] == (raw[m] + Predict(f, At(r, m - d), At(prior, m), At(prior, m - d))) % 256
  {
    hide Predict;
    ReconPrefix(f, raw, prior, d, m + 1, n);
    ReconPrefix(f, raw, prior, d, m, n);
    var r := Recon(f, raw, prior, d, n);
    assert r[m] == r[..m + 1][m];
    assert m >= d ==> r[..m][m - d] == r[m - d];
  }

  /** A reconstructed row obeys the equations of its filter. */
  lemma ReconRight(f: nat, raw: seq<byte>, prior: seq<byte>, d: nat)
    requires f <= 4 && d > 0 && (prior == [] || |prior| == |raw|)
    ensures RowRight(f, raw, prior, d, Recon(f, raw, prior, d, |raw|))
  {
    hide Recon, Predict, ByteRight;
    var r := Recon(f, raw, prior, d, |raw|);
    forall k: nat | k < |raw| ensures NeighboursRight(f, raw, prior, d, r, k) {
      ReconAt(f, raw, prior, d, |raw|, k);
      PredictRight(f, raw[k], At(r, k - d), At(prior, k), At(prior, k - d));
    }
  }

  /** The prior row as the first-row filters see it. */
  function Above(out: seq<byte>, first: bool, pbase: nat, w: nat): seq<byte>
    requires !first ==> pbase + w <= |out|
  {
    if first then [] else out[pbase..pbase + w]
  }

  /** Remove the filter of one row whose pixels are stored without gaps: w bytes at
      base, with the row above at pbase. */
  method UnfilterRow(out: array<byte>, raw: seq<byte>, f: nat, first: bool, base: nat, pbase: nat, d: nat, w: nat)
    requires f <= 4 && 0 < d <= w == |raw| && base + w <= out.Length
    requires !first ==> pbase + w <= base
    modifies out
    ensures out[..] == Splice(old(out[..]), base, Recon(f, raw, Above(old(out[..]), first, pbase, w), d, w))
    ensures RowRight(f, raw, if first then [] else old(out[pbase..pbase + w]), d, out[base..base + w])
  {
    hide Recon, Undo, UndoFirst, RowFilter, Splice, Above, RowRight;
    var filter := RowFilter(f, first);
    ghost var before := out[..];
    ghost var prior := Above(before, first, pbase, w);
    ghost var r := Recon(f, raw, prior, d, w);
    SpliceNothing(before, base);
    var k := 0;
    while k < d
      invariant k <= d
      invariant out[..] == Splice(before, base, r[..k])
    {
      FirstStep(before, out[..], raw, f, first, base, pbase, d, w, k);
      var b: byte := if ReadsAbove(filter) then out[pbase + k] else 0;
      SpliceNext(before, out[..], base, r, k);
      out[base + k] := UndoFirst(filter, raw[k], b);
      k := k + 1;
    }
    while k < w
      invariant d <= k <= w
      invariant out[..] == Splice(before, base, r[..k])
    {
      NextStep(before, out[..], raw, f, first, base, pbase, d, w, k);
      var a := out[base + k - d];
      var b: byte := if ReadsAbove(filter) then out[pbase + k] else 0;
      var c: byte := if ReadsAbove(filter) then out[pbase + k - d] else 0;
      SpliceNext(before, out[..], base, r, k);
      out[base + k] := Undo(filter, raw[k], a, b, c);
      k := k + 1;
    }
    assert r[..w] == r;
    AboveIsRow(before, first, pbase, w);
    ReconRight(f, raw, prior, d);
    SpliceSlice(before, base, r);
  }

  lemma AboveIsRow(out: seq<byte>, first: bool, pbase: nat, w: nat)
    requires !first ==> pbase + w <= |out|
    ensures Above(out, first, pbase, w) == if first then [] else out[pbase..pbase + w]
  {}

  /** A byte of the first pixel. */
  lemma FirstStep(before: seq<byte>, cur: seq<byte>, raw: seq<byte>, f: nat, first: bool, base: nat, pbase: nat,
                  d: nat, w: nat, k: nat)
    requires f <= 4 && k < d <= w == |raw| && base + w <= |before| && (!first ==> pbase + w <= base)
    requires cur == Splice(before, base, Recon(f, raw, Above(before, first, pbase, w), d, w)[..k])
    ensures ReadsAbove(RowFilter(f, first)) ==> !first
    ensures UndoFirst(RowFilter(f, first), raw[k], if ReadsAbove(RowFilter(f, first)) then cur[pbase + k] else 0) ==
            Recon(f, raw, Above(before, first, pbase, w), d, w)[k]
  {
    hide Recon, Undo, UndoFirst, Predict, RowFilter;
    var prior := Above(before, first, pbase, w);
    ReconAt(f, raw, prior, d, w, k);
    ReadsOnlyLater(f, first);
    var b := if ReadsAbove(RowFilter(f, first)) then cur[pbase + k] else 0;
    UndoReads(f, first, raw[k], 0, At(prior, k), 0, b, 0);
  }

  /** A byte of a later pixel. */
  lemma NextStep(before: seq<byte>, cur: seq<byte>, raw: seq<byte>, f: nat, first: bool, base: nat, pbase: nat,
                 d: nat, w: nat, k: nat)
    requires f <= 4 && 0 < d <= k < w == |raw| && base + w <= |before| && (!first ==> pbase + w <= base)
    requires cur == Splice(before, base, Recon(f, raw, Above(before, first, pbase, w), d, w)[..k])
    ensures ReadsAbove(RowFilter(f, first)) ==> !first
    ensures var above := ReadsAbove(RowFilter(f, first));
            Undo(RowFilter(f, first), raw[k], cur[base + k - d], if above then cur[pbase + k] else 0,
                 if above then cur[pbase + k - d] else 0) ==
            Recon(f, raw, Above(before, first, pbase, w), d, w)[k]
  {
    hide Recon, Undo, UndoFirst, Predict, RowFilter;
    var prior := Above(before, first, pbase, w);
    ReconAt(f, raw, prior, d, w, k);
    ReadsOnlyLater(f, first);
    var above := ReadsAbove(RowFilter(f, first));
    UndoReads(f, first, raw[k], cur[base + k - d], At(prior, k), At(prior, k - d),
              if above then cur[pbase + k] else 0, if above then cur[pbase + k - d] else 0);
  }

  /** Which of the seven filters read the row above. */
  predicate ReadsAbove(filter: nat) {
    filter == UP || filter == AVG || filter == PAETH
  }

  /** Bytes of the row above are read only where they count. */
  lemma UndoReads(f: nat, first: bool, raw: byte, a: byte, b: byte, c: byte, b': byte, c': byte)
    requires f <= 4
    requires ReadsAbove(RowFilter(f, first)) ==> b' == b && c' == c
    ensures ReadsAbove(RowFilter(f, first)) ==> !first
    ensures UndoFirst(RowFilter(f, first), raw, b') == (raw + Predict(f, 0, if first then 0 else b, 0)) % 256
    ensures Undo(RowFilter(f, first), raw, a, b', c') ==
            (raw + Predict(f, a, if first then 0 else b, if first then 0 else c)) % 256
  {
    UndoIsRecon(f, first, raw, a, b, c);
  }

  lemma ReadsOnlyLater(f: nat, first: bool)
    requires f <= 4
    ensures ReadsAbove(RowFilter(f, first)) ==> !first
  {}

  // ----- rows with an alpha byte inserted behind every pixel

  /** The first i pixels of n bytes each, an opaque alpha behind every one. */
  function WithAlpha(row: seq<byte>, n: nat, i: nat): (r: seq<byte>)
    requires Times(i, n) <= |row|
    ensures |r| == Times(i, n + 1)
    decreases i
  {
    if i == 0 then TimesNext(0, n + 1); []
    else
      TimesNext(i - 1, n); TimesNext(i - 1, n + 1);
      WithAlpha(row, n, i - 1) + row[Times(i - 1, n)..Times(i, n)] + [255]
  }

  /** Byte k of pixel i is the row's, and behind the pixel comes 255. */
  lemma {:induction false} AlphaAt(row: seq<byte>, n: nat, x: nat, i: nat, k: nat)
    requires Times(x, n) <= |row| && i < x && k <= n
    ensures Times(i, n + 1) + k < Times(x, n + 1) && Times(i, n) + n <= |row|
    ensures WithAlpha(row, n, x)[Times(i, n + 1) + k] == if k < n then row[Times(i, n) + k] else 255
    decreases x
  {
    hide Times;
    TimesNext(x - 1, n); TimesNext(x - 1, n + 1);
    TimesNext(i, n); TimesNext(i, n + 1);
    if i < x - 1 {
      TimesMonotone(i + 1, x - 1, n);
      AlphaAt(row, n, x - 1, i, k);
    }
  }

  /** i whole pixels and k bytes of the next. */
  function AlphaPart(row: seq<byte>, n: nat, i: nat, k: nat): (r: seq<byte>)
    requires Times(i, n) + k <= |row|
    ensures |r| == Times(i, n + 1) + k
  {
    WithAlpha(row, n, i) + row[Times(i, n)..Times(i, n) + k]
  }

  lemma AlphaPartNext(row: seq<byte>, n: nat, i: nat, k: nat)
    requires Times(i, n) + n <= |row| && k <= n
    ensures k < n ==> AlphaPart(row, n, i, k + 1) == AlphaPart(row, n, i, k) + [row[Times(i, n) + k]]
    ensures k == n ==>
              Times(i + 1, n) == Times(i, n) + n && AlphaPart(row, n, i + 1, 0) == AlphaPart(row, n, i, k) + [255]
  {
    TimesNext(i, n);
  }

  /** The row above, without its alpha bytes, stands in the buffer. */
  ghost predicate AboveIs(out: seq<byte>, first: bool, pbase: nat, n: nat, x: nat, prow: seq<byte>) {
    if first then prow == []
    else
      && |prow| == Times(x, n) && pbase + Times(x, n + 1) <= |out|
      && out[pbase..pbase + Times(x, n + 1)] == WithAlpha(prow, n, x)
  }

  lemma AboveLength(out: seq<byte>, first: bool, pbase: nat, n: nat, x: nat, prow: seq<byte>)
    requires AboveIs(out, first, pbase, n, x, prow)
    ensures |prow| == if first then 0 else Times(x, n)
  {}

  /** The inner loop for pixel i, which starts at byte q of the filtered row and
      at byte p of the stored one. */
  method UnfilterPixelAlpha(out: array<byte>, raw: seq<byte>, f: nat, first: bool, base: nat, pbase: nat, n: nat,
                            x: nat, ghost i: nat, q: nat, p: nat, ghost prow: seq<byte>, ghost before: seq<byte>)
    requires f <= 4 && 0 < n && 0 < i < x && |raw| == Times(x, n) && base + Times(x, n + 1) <= out.Length
    requires !first ==> pbase + Times(x, n + 1) <= base
    requires |before| == out.Length && AboveIs(before, first, pbase, n, x, prow)
    requires q == Times(i, n) && p == Times(i, n + 1)
    requires q + n == Times(i + 1, n) <= |raw| && p + n + 1 == Times(i + 1, n + 1) <= Times(x, n + 1)
    requires out[..] == Splice(before, base, AlphaPart(Recon(f, raw, prow, n, |raw|), n, i, 0))
    modifies out
    ensures out[..] == Splice(before, base, AlphaPart(Recon(f, raw, prow, n, |raw|), n, i + 1, 0))
  {
    hide Recon, Undo, UndoFirst, RowFilter, Splice, AboveIs, Times, AlphaPart;
    var filter := RowFilter(f, first);
    ghost var r := Recon(f, raw, prow, n, |raw|);
    var k := 0;
    while k < n
      invariant k <= n
      invariant out[..] == Splice(before, base, AlphaPart(r, n, i, k))
    {
      AlphaNext(before, out[..], raw, f, first, base, pbase, n, x, i, k, prow);
      var a := out[base + p + k - (n + 1)];
      var b: byte := if ReadsAbove(filter) then out[pbase + p + k] else 0;
      var c: byte := if ReadsAbove(filter) then out[pbase + p + k - (n + 1)] else 0;
      SpliceAppend(before, base, AlphaPart(r, n, i, k), r[q + k]);
      AlphaPartNext(r, n, i, k);
      out[base + p + k] := Undo(filter, raw[q + k], a, b, c);
      k := k + 1;
    }
    AlphaPartNext(r, n, i, n);
    SpliceAppend(before, base, AlphaPart(r, n, i, n), 255);
    out[base + p + n] := 255;
  }

  /** Remove the filter of one row of x pixels with n bytes each, and store them
      with an alpha byte behind every pixel. */
  method UnfilterRowAlpha(out: array<byte>, raw: seq<byte>, f: nat, first: bool, base: nat, pbase: nat, n: nat, x: nat,
                          ghost prow: seq<byte>)
    requires f <= 4 && 0 < n && 0 < x && |raw| == Times(x, n) && base + Times(x, n + 1) <= out.Length
    requires !first ==> pbase + Times(x, n + 1) <= base
    requires AboveIs(out[..], first, pbase, n, x, prow)
    modifies out
    ensures out[..] == Splice(old(out[..]), base, WithAlpha(Recon(f, raw, prow, n, |raw|), n, x))
  {
    hide Recon, Undo, UndoFirst, RowFilter, Splice, AboveIs, Times, AlphaPart;
    var filter := RowFilter(f, first);
    ghost var before := out[..];
    ghost var r := Recon(f, raw, prow, n, |raw|);
    TimesNext(0, n); TimesNext(0, n + 1);
    TimesMonotone(1, x, n); TimesMonotone(1, x, n + 1);
    AlphaPartEmpty(r, n);
    SpliceNothing(before, base);
    var k := 0;
    while k < n
      invariant k <= n
      invariant out[..] == Splice(before, base, AlphaPart(r, n, 0, k))
    {
      AlphaFirst(before, out[..], raw, f, first, base, pbase, n, x, k, prow);
      var b: byte := if ReadsAbove(filter) then out[pbase + k] else 0;
      SpliceAppend(before, base, AlphaPart(r, n, 0, k), r[k]);
      AlphaPartNext(r, n, 0, k);
      out[base + k] := UndoFirst(filter, raw[k], b);
      k := k + 1;
    }
    AlphaPartNext(r, n, 0, n);
    SpliceAppend(before, base, AlphaPart(r, n, 0, n), 255);
    out[base + n] := 255;
    var i, q, p := 1, n, n + 1;
    while i < x
      invariant 1 <= i <= x && q == Times(i, n) <= |raw| && p == Times(i, n + 1) <= Times(x, n + 1)
      invariant out[..] == Splice(before, base, AlphaPart(r, n, i, 0))
    {
      TimesNext(i, n); TimesNext(i, n + 1);
      TimesMonotone(i + 1, x, n); TimesMonotone(i + 1, x, n + 1);
      UnfilterPixelAlpha(out, raw, f, first, base, pbase, n, x, i, q, p, prow, before);
      i, q, p := i + 1, q + n, p + (n + 1);
    }
    AlphaPartWhole(r, n, x);
  }

  lemma AlphaPartEmpty(row: seq<byte>, n: nat)
    ensures Times(0, n) == 0 && AlphaPart(row, n, 0, 0) == []
  {}

  lemma AlphaPartWhole(row: seq<byte>, n: nat, x: nat)
    requires Times(x, n) == |row|
    ensures AlphaPart(row, n, x, 0) == WithAlpha(row, n, x)
  {}

  /** The byte above byte k of pixel i, as the buffer holds it. */
  lemma AboveAt(before: seq<byte>, cur: seq<byte>, r: seq<byte>, base: nat, pbase: nat, n: nat, x: nat, i: nat, k: nat,
                i': nat, k': nat, prow: seq<byte>)
    requires 0 < n && i < x && k < n && |r| == Times(x, n) == |prow| && base + Times(x, n + 1) <= |before|
    requires pbase + Times(x, n + 1) <= base && AboveIs(before, false, pbase, n, x, prow)
    requires Times(i', n) + k' <= |r| && Times(i', n + 1) + k' <= Times(x, n + 1)
    requires cur == Splice(before, base, AlphaPart(r, n, i', k'))
    ensures Times(i, n) + k < |prow| && Times(i, n + 1) + k < Times(x, n + 1)
    ensures cur[pbase + Times(i, n + 1) + k] == prow[Times(i, n) + k]
  {
    hide Splice, Times, AlphaPart, WithAlpha;
    AlphaAt(prow, n, x, i, k);
    SpliceRead(before, base, AlphaPart(r, n, i', k'), pbase + Times(i, n + 1) + k);
    assert before[pbase + Times(i, n + 1) + k] == before[pbase..pbase + Times(x, n + 1)][Times(i, n + 1) + k];
  }

  /** The byte to the left of byte k of pixel i > 0. */
  lemma LeftAt(before: seq<byte>, cur: seq<byte>, r: seq<byte>, base: nat, n: nat, x: nat, i: nat, k: nat)
    requires 0 < i && k < n && base + Times(x, n + 1) <= |before|
    requires Times(i, n) + k <= |r| && Times(i, n + 1) + k <= Times(x, n + 1)
    requires cur == Splice(before, base, AlphaPart(r, n, i, k))
    ensures Times(i, n) >= n && Times(i, n + 1) >= n + 1
    ensures cur[base + Times(i, n + 1) + k - (n + 1)] == r[Times(i, n) + k - n]
  {
    hide Splice, Times;
    TimesNext(i - 1, n); TimesNext(i - 1, n + 1);
    AlphaAt(r, n, i, i - 1, k);
    SpliceRead(before, base, AlphaPart(r, n, i, k), Times(i - 1, n + 1) + k);
  }

  /** A byte of the first pixel. */
  lemma AlphaFirst(before: seq<byte>, cur: seq<byte>, raw: seq<byte>, f: nat, first: bool, base: nat, pbase: nat,
                   n: nat, x: nat, k: nat, prow: seq<byte>)
    requires f <= 4 && 0 < n && 0 < x && k < n <= |raw| && |raw| == Times(x, n) && base + Times(x, n + 1) <= |before|
    requires n + 1 <= Times(x, n + 1) && Times(0, n) == 0 == Times(0, n + 1)
    requires !first ==> pbase + Times(x, n + 1) <= base
    requires AboveIs(before, first, pbase, n, x, prow)
    requires cur == Splice(before, base, AlphaPart(Recon(f, raw, prow, n, |raw|), n, 0, k))
    ensures ReadsAbove(RowFilter(f, first)) ==> !first
    ensures UndoFirst(RowFilter(f, first), raw[k], if ReadsAbove(RowFilter(f, first)) then cur[pbase + k] else 0) ==
            Recon(f, raw, prow, n, |raw|)[k]
  {
    hide Recon, Undo, UndoFirst, Predict, Splice, Times, RowFilter, AlphaPart, AboveIs, ReadsAbove, At;
    var r := Recon(f, raw, prow, n, |raw|);
    FirstNeighbours(before, cur, r, first, base, pbase, n, x, k, prow);
    ReconAt(f, raw, prow, n, |raw|, k);
    AtBefore(r, k - n); AtBefore(prow, k - n);
    ReadsOnlyLater(f, first);
    UndoReads(f, first, raw[k], 0, At(prow, k), 0, if ReadsAbove(RowFilter(f, first)) then cur[pbase + k] else 0, 0);
  }

  lemma FirstNeighbours(before: seq<byte>, cur: seq<byte>, r: seq<byte>, first: bool, base: nat, pbase: nat,
                        n: nat, x: nat, k: nat, prow: seq<byte>)
    requires 0 < n && 0 < x && k < n <= |r| && |r| == Times(x, n) && base + Times(x, n + 1) <= |before|
    requires n + 1 <= Times(x, n + 1) && Times(0, n) == 0 == Times(0, n + 1)
    requires !first ==> pbase + Times(x, n + 1) <= base
    requires AboveIs(before, first, pbase, n, x, prow)
    requires cur == Splice(before, base, AlphaPart(r, n, 0, k))
    ensures if first then At(prow, k) == 0 else cur[pbase + k] == At(prow, k)
  {
    hide Times, Splice, AboveIs, AlphaPart, At;
    AboveLength(before, first, pbase, n, x, prow);
    if first {
      AtNowhere(prow, k);
    } else {
      AboveFirst(before, cur, r, base, pbase, n, x, k, prow);
      AtInside(prow, k);
    }
  }

  lemma AboveFirst(before: seq<byte>, cur: seq<byte>, r: seq<byte>, base: nat, pbase: nat, n: nat, x: nat, k: nat,
                   prow: seq<byte>)
    requires 0 < n && 0 < x && k < n <= |r| && |r| == Times(x, n) == |prow| && base + Times(x, n + 1) <= |before|
    requires n + 1 <= Times(x, n + 1) && Times(0, n) == 0 == Times(0, n + 1)
    requires pbase + Times(x, n + 1) <= base && AboveIs(before, false, pbase, n, x, prow)
    requires cur == Splice(before, base, AlphaPart(r, n, 0, k))
    ensures cur[pbase + k] == prow[k]
  {
    hide Times, Splice, AboveIs, AlphaPart;
    AboveAt(before, cur, r, base, pbase, n, x, 0, k, 0, k, prow);
  }

  /** Byte k of a later pixel i: the values read are its neighbours in the image. */
  lemma AlphaNext(before: seq<byte>, cur: seq<byte>, raw: seq<byte>, f: nat, first: bool, base: nat, pbase: nat,
                  n: nat, x: nat, i: nat, k: nat, prow: seq<byte>)
    requires f <= 4 && 0 < n && 0 < i < x && k < n && |raw| == Times(x, n) && base + Times(x, n + 1) <= |before|
    requires !first ==> pbase + Times(x, n + 1) <= base
    requires AboveIs(before, first, pbase, n, x, prow)
    requires Times(i, n) + n <= |raw| && Times(i, n + 1) + n + 1 <= Times(x, n + 1)
    requires cur == Splice(before, base, AlphaPart(Recon(f, raw, prow, n, |raw|), n, i, k))
    ensures ReadsAbove(RowFilter(f, first)) ==> !first
    ensures var above := ReadsAbove(RowFilter(f, first));
            var q, p := Times(i, n) + k, Times(i, n + 1) + k;
            && p >= n + 1
            && Undo(RowFilter(f, first), raw[q], cur[base + p - (n + 1)], if above then cur[pbase + p] else 0,
                    if above then cur[pbase + p - (n + 1)] else 0) == Recon(f, raw, prow, n, |raw|)[q]
  {
    hide Recon, Undo, UndoFirst, Predict, Times, RowFilter, Splice, AboveIs, ReadsAbove, AlphaPart, At;
    var r := Recon(f, raw, prow, n, |raw|);
    var q, p := Times(i, n) + k, Times(i, n + 1) + k;
    AlphaNeighbours(before, cur, r, first, base, pbase, n, x, i, k, prow);
    ReconAt(f, raw, prow, n, |raw|, q);
    ReadsOnlyLater(f, first);
    var above := ReadsAbove(RowFilter(f, first));
    UndoReads(f, first, raw[q], At(r, q - n), At(prow, q), At(prow, q - n),
              if above then cur[pbase + p] else 0, if above then cur[pbase + p - (n + 1)] else 0);
  }

  /** The bytes to the left, above and above left of byte k of pixel i. */
  lemma AlphaNeighbours(before: seq<byte>, cur: seq<byte>, r: seq<byte>, first: bool, base: nat, pbase: nat,
                        n: nat, x: nat, i: nat, k: nat, prow: seq<byte>)
    requires 0 < n && 0 < i < x && k < n && |r| == Times(x, n) && base + Times(x, n + 1) <= |before|
    requires !first ==> pbase + Times(x, n + 1) <= base
    requires AboveIs(before, first, pbase, n, x, prow)
    requires Times(i, n) + n <= |r| && Times(i, n + 1) + n + 1 <= Times(x, n + 1)
    requires cur == Splice(before, base, AlphaPart(r, n, i, k))
    ensures Times(i, n) >= n && Times(i, n + 1) >= n + 1
    ensures var q, p := Times(i, n) + k, Times(i, n + 1) + k;
            && cur[base + p - (n + 1)] == At(r, q - n)
            && if first then At(prow, q) == 0 == At(prow, q - n)
               else cur[pbase + p] == At(prow, q) && cur[pbase + p - (n + 1)] == At(prow, q - n)
  {
    hide Times, Splice, AboveIs, AlphaPart, At;
    AboveLength(before, first, pbase, n, x, prow);
    var q := Times(i, n) + k;
    LeftAt(before, cur, r, base, n, x, i, k);
    AtInside(r, q - n);
    if first {
      AtNowhere(prow, q);
      AtNowhere(prow, q - n);
    } else {
      AboveBoth(before, cur, r, base, pbase, n, x, i, k, prow);
      AtInside(prow, q);
      AtInside(prow, q - n);
    }
  }

  lemma AtInside(row: seq<byte>, i: nat)
    requires i < |row|
    ensures At(row, i) == row[i]
  {}

  lemma AtBefore(row: seq<byte>, i: int)
    requires i < 0
    ensures At(row, i) == 0
  {}

  lemma AtNowhere(row: seq<byte>, i: int)
    requires row == []
    ensures At(row, i) == 0
  {}

  lemma AboveBoth(before: seq<byte>, cur: seq<byte>, r: seq<byte>, base: nat, pbase: nat, n: nat, x: nat, i: nat,
                  k: nat, prow: seq<byte>)
    requires 0 < n && 0 < i < x && k < n && |r| == Times(x, n) == |prow| && base + Times(x, n + 1) <= |before|
    requires pbase + Times(x, n + 1) <= base && AboveIs(before, false, pbase, n, x, prow)
    requires Times(i, n) + n <= |r| && Times(i, n + 1) + n + 1 <= Times(x, n + 1)
    requires cur == Splice(before, base, AlphaPart(r, n, i, k))
    ensures Times(i, n) >= n && Times(i, n + 1) >= n + 1
    ensures var q, p := Times(i, n) + k, Times(i, n + 1) + k;
            q < |prow| && cur[pbase + p] == prow[q] && cur[pbase + p - (n + 1)] == prow[q - n]
  {
    hide Times, Splice, AboveIs, AlphaPart;
    TimesNext(i - 1, n); TimesNext(i - 1, n + 1);
    AboveAt(before, cur, r, base, pbase, n, x, i, k, i, k, prow);
    AboveAt(before, cur, r, base, pbase, n, x, i - 1, k, i, k, prow);
  }
}
