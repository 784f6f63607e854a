/** PNG row filters (PNG specification, section 9) and their removal. */
module PngFilter {
  import opened Bits

  // ----- the specification

  function Abs(x: int): (r: nat)
    ensures r == x || r == -x
  {
    if x < 0 then -x else x
  }

  function Paeth(a: int, b: int, c: int): int {
    var p := a + b - c;
    var pa, pb, pc := Abs(p - a), Abs(p - b), Abs(p - c);
    if pa <= pb && pa <= pc then a else if pb <= pc then b else c
  }

  /** The predictor of filter type f from the bytes to the left, above and above left. */
  function Predict(f: nat, a: byte, b: byte, c: byte): (r: nat)
    requires f <= 4
    ensures r < 256
  {
    if f == 0 then 0 else if f == 1 then a else if f == 2 then b
    else if f == 3 then (a + b) / 2 else Paeth(a, b, c)
  }

  /** Byte i of a row, zero to the left of it. */
  function At(row: seq<byte>, i: int): byte {
    if 0 <= i < |row| then row[i] else 0
  }

  /** Filter a row: d is the distance of corresponding bytes of adjacent pixels. */
  function Filtered(f: nat, row: seq<byte>, prior: seq<byte>, d: nat): (r: seq<byte>)
    requires f <= 4 && d > 0
    ensures |r| == |row|
  {
    seq(|row|, i requires 0 <= i < |row| =>
      (row[i] + 256 - Predict(f, At(row, i - d), At(prior, i), At(prior, i - d))) % 256)
  }

  /** Reconstruct the first n bytes of a row from its filtered bytes. */
  function Recon(f: nat, raw: seq<byte>, prior: seq<byte>, d: nat, n: nat): (r: seq<byte>)
    requires f <= 4 && d > 0 && n <= |raw|
    ensures |r| == n
  {
    if n == 0 then []
    else
      var r := Recon(f, raw, prior, d, n - 1);
      r + [(raw[n - 1] + Predict(f, At(r, n - 1 - d), At(prior, n - 1), At(prior, n - 1 - d))) % 256]
  }

  lemma SubtractAdd(v: byte, p: nat)
    requires p < 256
    ensures ((v + 256 - p) % 256 + p) % 256 == v
  {}

  /** Removing a filter gives the row back, whatever the row above is. */
  lemma {:induction false} ReconInvertsFilter(f: nat, row: seq<byte>, prior: seq<byte>, d: nat, n: nat)
    requires f <= 4 && d > 0 && n <= |row|
    ensures Recon(f, Filtered(f, row, prior, d), prior, d, n) == row[..n]
  {
    hide Predict;
    if n > 0 {
      ReconInvertsFilter(f, row, prior, d, n - 1);
      var r := row[..n - 1];
      assert At(r, n - 1 - d) == At(row, n - 1 - d);
      SubtractAdd(row[n - 1], Predict(f, At(r, n - 1 - d), At(prior, n - 1), At(prior, n - 1 - d)));
      assert row[..n] == r + [row[n - 1]];
    }
  }

  lemma {:induction false} ReconPrefix(f: nat, raw: seq<byte>, prior: seq<byte>, d: nat, m: nat, n: nat)
    requires f <= 4 && d > 0 && m <= n <= |raw|
    ensures Recon(f, raw, prior, d, n)[..m] == Recon(f, raw, prior, d, m)
  {
    if m < n { ReconPrefix(f, raw, prior, d, m, n - 1); }
  }

  // ----- what a reconstructed byte is

  function Gap(u: int, v: int): nat { if u <= v then v - u else u - v }

  /** The choice of PNG section 9.4: the neighbour nearest to a + b - c, the left one
      before the one above, and that before the one above left. */
  lemma PaethLaw(a: byte, b: byte, c: byte)
    ensures var p, x := a + b - c, Paeth(a, b, c);
            && x in {a, b, c} && Gap(p, x) <= Gap(p, a) && Gap(p, x) <= Gap(p, b) && Gap(p, x) <= Gap(p, c)
            && (Gap(p, a) == Gap(p, x) ==> x == a)
            && (x != a && Gap(p, b) == Gap(p, x) ==> x == b)
  {}

  /** Byte v of a row that was filtered to raw, where a, b, c stand to the left, above and
      above left: the five filter types of PNG section 9.2. */
  predicate ByteRight(f: nat, raw: byte, a: byte, b: byte, c: byte, v: byte) {
    && (f == 0 ==> v == raw)
    && (f == 1 ==> v == (raw + a) % 256)
    && (f == 2 ==> v == (raw + b) % 256)
    && (f == 3 ==> v == (raw + (a + b) / 2) % 256)
    && (f == 4 ==>
          var da, db, dc := Gap(b, c), Gap(a, c), Gap(a + b, 2 * c);
          v == (raw + if da <= db && da <= dc then a else if db <= dc then b else c) % 256)
  }

  lemma PredictRight(f: nat, raw: byte, a: byte, b: byte, c: byte)
    requires f <= 4
    ensures ByteRight(f, raw, a, b, c, (raw + Predict(f, a, b, c)) % 256)
  {
    hide Paeth, Gap;
    PaethNearest(a, b, c);
  }

  lemma PaethNearest(a: byte, b: byte, c: byte)
    ensures var da, db, dc := Gap(b, c), Gap(a, c), Gap(a + b, 2 * c);
            Paeth(a, b, c) == if da <= db && da <= dc then a else if db <= dc then b else c
  {}

  /** All bytes of a row are right; there are zeros to the left of it and above the first row. */
  ghost predicate RowRight(f: nat, raw: seq<byte>, prior: seq<byte>, d: nat, row: seq<byte>) {
    && |row| == |raw| && (prior == [] || |prior| == |raw|)
    && forall k: nat :: k < |row| ==> NeighboursRight(f, raw, prior, d, row, k)
  }

  ghost predicate NeighboursRight(f: nat, raw: seq<byte>, prior: seq<byte>, d: nat, row: seq<byte>, k: nat)
    requires k < |row| == |raw| && (prior == [] || |prior| == |raw|)
  {
    ByteRight(f, raw[k], if k >= d then row[k - d] else 0, if prior == [] then 0 else prior[k],
              if prior == [] || k < d then 0 else prior[k - d], row[k])
  }

  // ----- the code's seven filters

  const NONE: nat := 0
  const SUB: nat := 1
  const UP: nat := 2
  const AVG: nat := 3
  const PAETH: nat := 4
  const AVG_FIRST: nat := 5
  const PAETH_FIRST: nat := 6

  /** The filters of the first row, which never look at the row above. */
  function FirstRowFilter(f: nat): nat
    requires f <= 4
  {
    if f == 0 then NONE else if f == 1 then SUB else if f == 2 then NONE else if f == 3 then AVG_FIRST else PAETH_FIRST
  }

  /** The first pixel of a row. */
  function UndoFirst(f: nat, raw: byte, b: byte): byte {
    if f == UP then (raw + b) % 256
    else if f == AVG then (raw + b / 2) % 256
    else if f == PAETH then (raw + Paeth(0, b, 0)) % 256
    else raw
  }

  /** The other pixels. */
  function Undo(f: nat, raw: byte, a: byte, b: byte, c: byte): byte {
    if f == SUB then (raw + a) % 256
    else if f == UP then (raw + b) % 256
    else if f == AVG then (raw + (b + a) / 2) % 256
    else if f == PAETH then (raw + Paeth(a, b, c)) % 256
    else if f == AVG_FIRST then (raw + a / 2) % 256
    else if f == PAETH_FIRST then (raw + Paeth(a, 0, 0)) % 256
    else raw
  }

  /** The filter that the code applies in row j. */
  function RowFilter(f: nat, first: bool): nat
    requires f <= 4
  {
    if first then FirstRowFilter(f) else f
  }

  /** The special cases for the first row and the first pixel are the general
      predictor with zeros outside the image. */
  lemma UndoIsRecon(f: nat, first: bool, raw: byte, a: byte, b: byte, c: byte)
    requires f <= 4
    ensures UndoFirst(RowFilter(f, first), raw, b) == (raw + Predict(f, 0, if first then 0 else b, 0)) % 256
    ensures Undo(RowFilter(f, first), raw, a, b, c) ==
            (raw + Predict(f, a, if first then 0 else b, if first then 0 else c)) % 256
  {
    hide Paeth;
    FirstColumn(b); FirstColumn(0);
  }

  /** With zeros to the left the Paeth predictor is never the row above's left byte. */
  lemma FirstColumn(b: byte)
    ensures Paeth(0, b, 0) == b
  {}
}
