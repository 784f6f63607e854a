/** PNG images as filtered lines: what a decoder has to compute. */
module PngLines {
  import opened Products
  import opened Bits
  import opened PngFilter
  import opened PngRows

  /** A filter type and the filtered bytes of a row. */
  datatype Line = Line(filter: byte, bytes: seq<byte>)

  predicate Decodable(lines: seq<Line>) {
    forall j :: 0 <= j < |lines| ==> lines[j].filter <= 4
  }

  /** Line j of a stream of lines of w bytes. */
  function LineAt(raw: seq<byte>, w: nat, j: nat): (l: Line)
    requires Times(j + 1, w + 1) <= |raw|
    ensures |l.bytes| == w
  {
    TimesNext(j, w + 1);
    Line(raw[Times(j, w + 1)], raw[Times(j, w + 1) + 1..Times(j, w + 1) + 1 + w])
  }

  function LinesOf(raw: seq<byte>, w: nat, y: nat): (lines: seq<Line>)
    requires Times(y, w + 1) <= |raw|
    ensures |lines| == y
  {
    seq(y, j requires 0 <= j < y => TimesMonotone(j + 1, y, w + 1); LineAt(raw, w, j))
  }

  /** All rows have w bytes. */
  predicate Uniform(rows: seq<seq<byte>>, w: nat) {
    forall j :: 0 <= j < |rows| ==> |rows[j]| == w
  }

  predicate UniformLines(lines: seq<Line>, w: nat) {
    forall j :: 0 <= j < |lines| ==> |lines[j].bytes| == w
  }

  function Last(rows: seq<seq<byte>>): seq<byte> {
    if rows == [] then [] else rows[|rows| - 1]
  }

  /** The rows that the lines denote: every filter refers to the row above. */
  function Rows(lines: seq<Line>, d: nat): (rows: seq<seq<byte>>)
    requires d > 0 && Decodable(lines)
    ensures |rows| == |lines|
  {
    if lines == [] then []
    else
      var l := lines[|lines| - 1];
      var above := Rows(lines[..|lines| - 1], d);
      above + [Recon(l.filter, l.bytes, Last(above), d, |l.bytes|)]
  }

  // ----- the encoder's side

  /** Filter rows, each with its own filter. */
  function FilterRows(rows: seq<seq<byte>>, filters: seq<byte>, d: nat): (lines: seq<Line>)
    requires d > 0 && |filters| == |rows| && forall j :: 0 <= j < |filters| ==> filters[j] <= 4
    ensures |lines| == |rows| && Decodable(lines)
  {
    if rows == [] then []
    else
      var m := |rows| - 1;
      FilterRows(rows[..m], filters[..m], d) + [Line(filters[m], Filtered(filters[m], rows[m], Last(rows[..m]), d))]
  }

  lemma {:induction false} FilteredUniform(rows: seq<seq<byte>>, filters: seq<byte>, d: nat, w: nat)
    requires d > 0 && |filters| == |rows| && forall j :: 0 <= j < |filters| ==> filters[j] <= 4
    requires Uniform(rows, w)
    ensures UniformLines(FilterRows(rows, filters, d), w)
    decreases |rows|
  {
    if rows != [] { FilteredUniform(rows[..|rows| - 1], filters[..|rows| - 1], d, w); }
  }

  lemma LinesOfUniform(raw: seq<byte>, w: nat, y: nat)
    requires Times(y, w + 1) <= |raw|
    ensures UniformLines(LinesOf(raw, w, y), w)
  {
    forall j | 0 <= j < y ensures |LinesOf(raw, w, y)[j].bytes| == w {
      TimesMonotone(j + 1, y, w + 1);
      assert LinesOf(raw, w, y)[j] == LineAt(raw, w, j);
    }
  }

  lemma RowsSnoc(lines: seq<Line>, l: Line, d: nat)
    requires d > 0 && Decodable(lines) && l.filter <= 4
    ensures Decodable(lines + [l])
    ensures Rows(lines + [l], d) == Rows(lines, d) + [Recon(l.filter, l.bytes, Last(Rows(lines, d)), d, |l.bytes|)]
  {
    hide Recon;
    assert (lines + [l])[..|lines|] == lines;
  }

  /** Whatever filter is chosen for each row, reconstruction gives the rows back. */
  lemma {:induction false} RowsOfFiltered(rows: seq<seq<byte>>, filters: seq<byte>, d: nat)
    requires d > 0 && |filters| == |rows| && forall j :: 0 <= j < |filters| ==> filters[j] <= 4
    ensures Rows(FilterRows(rows, filters, d), d) == rows
    decreases |rows|
  {
    hide Recon, Filtered, Rows;
    if rows == [] {
      RowsOfNone(d);
    } else {
      var m := |rows| - 1;
      var prior := Last(rows[..m]);
      RowsOfFiltered(rows[..m], filters[..m], d);
      RowsSnoc(FilterRows(rows[..m], filters[..m], d), Line(filters[m], Filtered(filters[m], rows[m], prior, d)), d);
      ReconInvertsFilter(filters[m], rows[m], prior, d, |rows[m]|);
      assert rows[m][..|rows[m]|] == rows[m];
      assert rows == rows[..m] + [rows[m]];
    }
  }

  lemma {:induction false} RowsUniform(lines: seq<Line>, d: nat, w: nat)
    requires d > 0 && Decodable(lines) && UniformLines(lines, w)
    ensures Uniform(Rows(lines, d), w)
    decreases |lines|
  {
    if lines != [] { RowsUniform(lines[..|lines| - 1], d, w); }
  }

  lemma RowsOfNone(d: nat)
    requires d > 0
    ensures Rows([], d) == []
  {}

  function Serialize(lines: seq<Line>): seq<byte> {
    if lines == [] then []
    else Serialize(lines[..|lines| - 1]) + [lines[|lines| - 1].filter] + lines[|lines| - 1].bytes
  }

  lemma {:induction false} LinesOfSerialized(lines: seq<Line>, w: nat, rest: seq<byte>)
    requires UniformLines(lines, w)
    ensures |Serialize(lines)| == Times(|lines|, w + 1)
    ensures LinesOf(Serialize(lines) + rest, w, |lines|) == lines
  {
    hide Times, LineAt;
    TimesNext(0, w + 1);
    if lines != [] {
      var m := |lines| - 1;
      var tail := [lines[m].filter] + lines[m].bytes + rest;
      LinesOfSerialized(lines[..m], w, tail);
      TimesNext(m, w + 1);
      assert Serialize(lines) + rest == Serialize(lines[..m]) + tail;
      LineBehind(Serialize(lines[..m]), lines[m], rest, w, m);
      assert LinesOf(Serialize(lines) + rest, w, m) == lines[..m];
      LinesPrefix(Serialize(lines) + rest, w, |lines|);
    }
  }

  lemma LinesPrefix(raw: seq<byte>, w: nat, y: nat)
    requires 0 < y && Times(y, w + 1) <= |raw|
    ensures Times(y - 1, w + 1) <= |raw|
    ensures LinesOf(raw, w, y) == LinesOf(raw, w, y - 1) + [LineAt(raw, w, y - 1)]
  {
    hide LineAt;
    TimesMonotone(y - 1, y, w + 1);
  }

  lemma LineBehind(front: seq<byte>, line: Line, rest: seq<byte>, w: nat, m: nat)
    requires |front| == Times(m, w + 1) && |line.bytes| == w
    ensures Times(m + 1, w + 1) == |front| + 1 + w
    ensures LineAt(front + ([line.filter] + line.bytes + rest), w, m) == line
  {
    TimesNext(m, w + 1);
  }

  // ----- whole 8-bit images in the output buffer

  /** A row as it is stored: as it is, or with an opaque alpha byte behind every pixel. */
  function Stored(row: seq<byte>, n: nat, outN: nat, x: nat): (r: seq<byte>)
    requires |row| == Times(x, n) && outN in {n, n + 1}
    ensures |r| == Times(x, outN)
  {
    if outN == n then row else WithAlpha(row, n, x)
  }

  /** Rows one behind the other. */
  function Assembled(rows: seq<seq<byte>>, n: nat, outN: nat, x: nat): (r: seq<byte>)
    requires outN in {n, n + 1} && Uniform(rows, Times(x, n))
    ensures |r| == Times(|rows|, Times(x, outN))
  {
    if rows == [] then TimesNext(0, Times(x, outN)); []
    else
      TimesNext(|rows| - 1, Times(x, outN));
      Assembled(rows[..|rows| - 1], n, outN, x) + Stored(rows[|rows| - 1], n, outN, x)
  }

  /** The image that y lines of x pixels with n bytes each denote. */
  function ImageOf(raw: seq<byte>, n: nat, outN: nat, x: nat, y: nat): (r: seq<byte>)
    requires 0 < n && outN in {n, n + 1} && Times(y, Times(x, n) + 1) <= |raw|
    requires Decodable(LinesOf(raw, Times(x, n), y))
    ensures |r| == Times(y, Times(x, outN))
  {
    var lines := LinesOf(raw, Times(x, n), y);
    LinesOfUniform(raw, Times(x, n), y);
    RowsUniform(lines, n, Times(x, n));
    Assembled(Rows(lines, n), n, outN, x)
  }
}
