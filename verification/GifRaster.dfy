/** The order in which decoded pixels reach the canvas, row by row or in the
    four interlace passes of GIF89a Appendix E. */
module GifRaster {
  import opened Products
  import opened Bits

  /** Where an image lies in the canvas; offsets count bytes, four to a pixel.
      `line` is the byte length of a canvas row. */
  datatype Area = Area(w: nat, h: nat, line: nat, startX: nat, startY: nat)
  {
    function MaxX(): nat { startX + 4 * w }

    function MaxY(): nat { startY + Times(h, line) }

    /** Number of pixels. */
    function Size(): nat { Times(h, w) }

    /** Inside a canvas of `size` bytes. */
    predicate Inside(size: nat) {
      startX + 4 * w <= line && MaxY() <= size
    }

    /** The areas whose pixels stay inside them. */
    predicate Valid(size: nat) {
      Inside(size) && (w >= 1 || MaxY() == startY)
    }
  }

  /** Row and column of the n-th pixel, counting rows of w pixels. */
  function RowOf(n: nat, w: nat): nat { if w == 0 then 0 else n / w }

  function ColOf(n: nat, w: nat): nat { if w == 0 then 0 else n % w }

  lemma RowCol(n: nat, w: nat)
    requires w > 0
    ensures n == Times(RowOf(n, w), w) + ColOf(n, w) && ColOf(n, w) < w
  {}

  /** Row and column are determined by that equation. */
  lemma RowColUnique(n: nat, w: nat, r: nat, c: nat)
    requires w > 0 && n == Times(r, w) + c && c < w
    ensures RowOf(n, w) == r && ColOf(n, w) == c
  {
    hide Times, RowOf, ColOf;
    RowCol(n, w);
    var q := RowOf(n, w);
    TimesAdd(1, 1, w);
    if q < r { TimesMonotone(q + 1, r, w); TimesAdd(q, 1, w); }
    if r < q { TimesMonotone(r + 1, q, w); TimesAdd(r, 1, w); }
  }

  lemma RowBound(n: nat, w: nat, h: nat)
    requires n < Times(h, w)
    ensures w > 0 && RowOf(n, w) < h && ColOf(n, w) < w
  {
    assert w > 0;
    hide Times, RowOf, ColOf;
    RowCol(n, w);
    if RowOf(n, w) >= h { TimesMonotone(h, RowOf(n, w), w); }
  }

  lemma NextPlace(n: nat, w: nat)
    requires w > 0
    ensures ColOf(n, w) + 1 < w ==> RowOf(n + 1, w) == RowOf(n, w) && ColOf(n + 1, w) == ColOf(n, w) + 1
    ensures ColOf(n, w) + 1 == w ==> RowOf(n + 1, w) == RowOf(n, w) + 1 && ColOf(n + 1, w) == 0
  {
    hide Times, RowOf, ColOf;
    RowCol(n, w);
    var q, c := RowOf(n, w), ColOf(n, w);
    TimesAdd(q, 1, w);
    if c + 1 < w { RowColUnique(n + 1, w, q, c + 1); } else { RowColUnique(n + 1, w, q + 1, 0); }
  }

  lemma LastPlace(w: nat, h: nat)
    requires w > 0
    ensures RowOf(Times(h, w), w) == h && ColOf(Times(h, w), w) == 0
  {
    RowColUnique(Times(h, w), w, h, 0);
  }

  /** The drawing position and the spacing of rows still to come. */
  datatype Cursor = Cursor(x: nat, y: nat, step: nat, parse: nat)

  // ----- rows

  /** The next row and spacing: past the last row of a pass, the next pass starts. */
  function NextRow(row: nat, step: nat, parse: nat, h: nat): (nat, nat, nat)
    decreases parse
  {
    if row >= h && parse > 0 then
      (ShlNonNegative(1, parse); NextRow(Shl(1, parse) / 2, Shl(1, parse), parse - 1, h))
    else (row, step, parse)
  }

  /** The rows visited from a state on. */
  function RowsFrom(row: nat, step: nat, parse: nat, h: nat): seq<nat>
    requires step > 0 && parse <= 3
    decreases parse, h + step - row
  {
    if row >= h then
      if parse == 0 then []
      else (ShlNonNegative(1, parse); RowsFrom(Shl(1, parse) / 2, Shl(1, parse), parse - 1, h))
    else [row] + RowsFrom(row + step, step, parse, h)
  }

  function Rows(interlaced: bool, h: nat): seq<nat> {
    if interlaced then RowsFrom(0, 8, 3, h) else RowsFrom(0, 1, 0, h)
  }

  /** The rows that the passes after `parse` visit, by their residues. */
  predicate LaterPass(r: nat, parse: nat) {
    || (parse >= 3 && r % 8 == 4)
    || (parse >= 2 && r % 4 == 2)
    || (parse >= 1 && r % 2 == 1)
  }

  /** Row and spacing belong to the pass that `parse` says. */
  predicate InPass(row: nat, step: nat, parse: nat) {
    || (parse == 3 && step == 8 && row % 8 == 0)
    || (parse == 2 && step == 8 && row % 8 == 4)
    || (parse == 1 && step == 4 && row % 4 == 2)
    || (parse == 0 && step == 2 && row % 2 == 1)
  }

  lemma SamePass(row: nat, step: nat, parse: nat, r: nat)
    requires InPass(row, step, parse)
    ensures InPass(row + step, step, parse)
    ensures r >= row && InPass(r, step, parse) <==> r == row || (r >= row + step && InPass(r, step, parse))
  {
    if parse >= 2 { Residue8(row, r); } else if parse == 1 { Residue4(row, r); } else { Residue2(row, r); }
  }

  lemma Residue8(row: nat, r: nat)
    ensures (row + 8) % 8 == row % 8
    ensures r >= row && r % 8 == row % 8 <==> r == row || (r >= row + 8 && r % 8 == row % 8)
  {}

  lemma Residue4(row: nat, r: nat)
    ensures (row + 4) % 4 == row % 4
    ensures r >= row && r % 4 == row % 4 <==> r == row || (r >= row + 4 && r % 4 == row % 4)
  {}

  lemma Residue2(row: nat, r: nat)
    ensures (row + 2) % 2 == row % 2
    ensures r >= row && r % 2 == row % 2 <==> r == row || (r >= row + 2 && r % 2 == row % 2)
  {}

  /** Every row belongs to the first pass or to a later one. */
  lemma EveryRow(r: nat)
    ensures InPass(r, 8, 3) || LaterPass(r, 3)
  {}

  lemma NextPass(row: nat, step: nat, parse: nat, r: nat)
    requires InPass(row, step, parse) && parse > 0
    ensures Shl(1, parse) >= 2 && InPass(Shl(1, parse) / 2, Shl(1, parse), parse - 1)
    ensures LaterPass(r, parse) <==>
              (r >= Shl(1, parse) / 2 && InPass(r, Shl(1, parse), parse - 1)) || LaterPass(r, parse - 1)
  {
    assert Shl(1, parse) == if parse == 1 then 2 else if parse == 2 then 4 else 8;
  }

  lemma {:induction false} RowsFromPass(row: nat, step: nat, parse: nat, h: nat)
    requires InPass(row, step, parse)
    ensures forall r: nat :: r in RowsFrom(row, step, parse, h) <==>
              r < h && ((r >= row && InPass(r, step, parse)) || LaterPass(r, parse))
    ensures forall i, j :: 0 <= i < j < |RowsFrom(row, step, parse, h)| ==>
              RowsFrom(row, step, parse, h)[i] != RowsFrom(row, step, parse, h)[j]
    decreases parse, h + step - row
  {
    assert step > 0 && parse <= 3;
    PassesDisjoint(row, step, parse);
    forall r: nat ensures LaterPass(r, 0) == false {}
    hide InPass, LaterPass;
    if row >= h {
      if parse > 0 {
        NextPass(row, step, parse, 0);
        RowsFromPass(Shl(1, parse) / 2, Shl(1, parse), parse - 1, h);
        forall r: nat ensures r in RowsFrom(row, step, parse, h) <==>
              r < h && ((r >= row && InPass(r, step, parse)) || LaterPass(r, parse)) {
          NextPass(row, step, parse, r);
        }
      }
    } else {
      SamePass(row, step, parse, 0);
      RowsFromPass(row + step, step, parse, h);
      var rest := RowsFrom(row + step, step, parse, h);
      assert RowsFrom(row, step, parse, h) == [row] + rest;
      forall r: nat ensures r in [row] + rest <==>
              r < h && ((r >= row && InPass(r, step, parse)) || LaterPass(r, parse)) {
        SamePass(row, step, parse, r);
      }
    }
  }

  lemma PassesDisjoint(row: nat, step: nat, parse: nat)
    requires InPass(row, step, parse)
    ensures !LaterPass(row, parse)
  {}

  lemma {:induction false} RowsInOrder(row: nat, h: nat)
    requires row <= h
    ensures |RowsFrom(row, 1, 0, h)| == h - row
    ensures forall i :: 0 <= i < h - row ==> RowsFrom(row, 1, 0, h)[i] == row + i
    decreases h - row
  {
    if row < h { RowsInOrder(row + 1, h); }
  }

  /** For every height, each row is visited exactly once, in both modes. */
  lemma RowsPermutation(interlaced: bool, h: nat)
    ensures forall r: nat :: r in Rows(interlaced, h) <==> r < h
    ensures forall i, j :: 0 <= i < j < |Rows(interlaced, h)| ==> Rows(interlaced, h)[i] != Rows(interlaced, h)[j]
    ensures |Rows(interlaced, h)| == h
  {
    if interlaced {
      RowsFromPass(0, 8, 3, h);
      forall r: nat ensures InPass(r, 8, 3) || LaterPass(r, 3) { EveryRow(r); }
      hide InPass, LaterPass, RowsFrom;
    } else {
      RowsInOrder(0, h);
      forall r: nat | r < h ensures r in RowsFrom(0, 1, 0, h) {
        assert RowsFrom(0, 1, 0, h)[r] == r;
      }
    }
    CountDistinct(Rows(interlaced, h), h);
  }

  /** Every step-th row below h. */
  function Every(first: nat, step: nat, h: nat): (rows: seq<nat>)
    requires step > 0
    decreases h + step - first
  {
    if first >= h then [] else [first] + Every(first + step, step, h)
  }

  /** The four groups of GIF89a Appendix E, or all rows in turn. */
  function Visited(interlaced: bool, h: nat): seq<nat> {
    if interlaced then Every(0, 8, h) + Every(4, 8, h) + Every(2, 4, h) + Every(1, 2, h) else Every(0, 1, h)
  }

  lemma {:induction false} EveryAt(first: nat, step: nat, h: nat, i: nat)
    requires step > 0 && i < |Every(first, step, h)|
    ensures Every(first, step, h)[i] == first + Times(i, step) < h
    decreases i
  {
    if i > 0 {
      EveryAt(first + step, step, h, i - 1);
      TimesAdd(i - 1, 1, step);
    }
  }

  lemma {:induction false} PassVisits(row: nat, step: nat, parse: nat, h: nat)
    requires step > 0 && parse <= 3
    ensures Shl(1, parse) > 0
    ensures RowsFrom(row, step, parse, h) ==
            Every(row, step, h) +
            if parse == 0 then [] else RowsFrom(Shl(1, parse) / 2, Shl(1, parse), parse - 1, h)
    decreases h + step - row
  {
    ShlNonNegative(1, parse);
    if row < h { PassVisits(row + step, step, parse, h); }
  }

  /** The rows are visited in the order of the standard. */
  lemma RowsVisited(interlaced: bool, h: nat)
    ensures Rows(interlaced, h) == Visited(interlaced, h)
  {
    hide RowsFrom, Every;
    if interlaced {
      assert Shl(1, 3) == 8 && Shl(1, 2) == 4 && Shl(1, 1) == 2;
      PassVisits(0, 8, 3, h);
      PassVisits(4, 8, 2, h);
      PassVisits(2, 4, 1, h);
      PassVisits(1, 2, 0, h);
    } else {
      PassVisits(0, 1, 0, h);
    }
  }

  /** A list without repetition of exactly the numbers below h has h elements. */
  lemma {:induction false} CountDistinct(s: seq<nat>, h: nat)
    requires forall r: nat :: r in s <==> r < h
    requires forall i, j :: 0 <= i < j < |s| ==> s[i] != s[j]
    ensures |s| == h
  {
    SetOfSeq(s);
    assert Elements(s) == UpTo(h);
  }

  function Elements(s: seq<nat>): set<nat> {
    set r | r in s
  }

  lemma {:induction false} SetOfSeq(s: seq<nat>)
    requires forall i, j :: 0 <= i < j < |s| ==> s[i] != s[j]
    ensures |Elements(s)| == |s|
  {
    if s != [] {
      var t, last := s[..|s| - 1], s[|s| - 1];
      SetOfSeq(t);
      assert last !in t;
      assert s == t + [last];
      assert Elements(s) == Elements(t) + {last};
    }
  }

  /** The numbers below h. */
  function UpTo(h: nat): (s: set<nat>)
    ensures forall r: nat :: r in s <==> r < h
    ensures |s| == h
  {
    if h == 0 then {} else UpTo(h - 1) + {h - 1}
  }

  // ----- one pixel

  /** The drawing code's bookkeeping at the end of a row. */
  function Wrap(a: Area, y: nat, step: nat, parse: nat): Cursor
    decreases parse
  {
    if y >= a.MaxY() && parse > 0 then
      ShlNonNegative(1, parse);
      var wider := Times(Shl(1, parse), a.line);
      Wrap(a, a.startY + wider / 2, wider, parse - 1)
    else Cursor(a.startX, y, step, parse)
  }

  function Advance(a: Area, c: Cursor): Cursor {
    if c.x + 4 >= a.MaxX() then Wrap(a, c.y + c.step, c.step, c.parse) else c.(x := c.x + 4)
  }

  /** Four bytes of a palette that holds blue, green, red, alpha; transparent
      colours leave the canvas alone. */
  function Blend(out: seq<byte>, at: nat, colors: seq<byte>, index: byte): (r: seq<byte>)
    requires |colors| == 1024
    ensures |r| == |out|
  {
    var c := colors[4 * index..4 * index + 4];
    if c[3] >= 128 && at + 4 <= |out| then out[..at] + [c[2], c[1], c[0], c[3]] + out[at + 4..] else out
  }

  datatype Canvas = Canvas(out: seq<byte>, cur: Cursor)

  function PutPixel(a: Area, colors: seq<byte>, cv: Canvas, index: byte): (r: Canvas)
    requires |colors| == 1024
    ensures |r.out| == |cv.out|
  {
    if cv.cur.y >= a.MaxY() then cv
    else Canvas(Blend(cv.out, cv.cur.x + cv.cur.y, colors, index), Advance(a, cv.cur))
  }

  /** Pixels drawn one after the other. */
  function Paint(a: Area, colors: seq<byte>, cv: Canvas, pixels: seq<byte>): (r: Canvas)
    requires |colors| == 1024
    ensures |r.out| == |cv.out|
  {
    if pixels == [] then cv
    else PutPixel(a, colors, Paint(a, colors, cv, pixels[..|pixels| - 1]), pixels[|pixels| - 1])
  }

  lemma PaintSnoc(a: Area, colors: seq<byte>, cv: Canvas, pixels: seq<byte>, index: byte)
    requires |colors| == 1024
    ensures Paint(a, colors, cv, pixels + [index]) == PutPixel(a, colors, Paint(a, colors, cv, pixels), index)
  {
    assert (pixels + [index])[..|pixels|] == pixels;
  }

  // ----- where pixel k goes

  function Start(a: Area, interlaced: bool): Cursor {
    if interlaced then Cursor(a.startX, a.startY, 8 * a.line, 3) else Cursor(a.startX, a.startY, a.line, 0)
  }

  /** The cursor stands at column col of the j-th visited row, or past the last row. */
  ghost predicate Stands(a: Area, interlaced: bool, c: Cursor, j: nat, col: nat) {
    var rows := Rows(interlaced, a.h);
    && |rows| == a.h && c.parse <= 3
    && (j < a.h ==>
          && col < a.w && c.x == a.startX + 4 * col
          && exists step: nat :: step > 0 && c.step == Times(step, a.line) && c.y == a.startY + Times(rows[j], a.line)
               && RowsFrom(rows[j], step, c.parse, a.h) == rows[j..])
    && (j >= a.h ==> c.y >= a.MaxY())
  }

  /** The spec's walk over rows and the code's walk over byte offsets agree. */
  lemma {:induction false} WrapIsNext(a: Area, row: nat, step: nat, parse: nat)
    requires a.line > 0 && a.line % 4 == 0 && step > 0 && parse <= 3
    ensures a.startY + Times(row, a.line) >= a.MaxY() <==> row >= a.h
    ensures var (r, s, p) := NextRow(row, step, parse, a.h);
            && s > 0 && p <= 3 && RowsFrom(row, step, parse, a.h) == RowsFrom(r, s, p, a.h)
            && (r >= a.h ==> p == 0)
            && Wrap(a, a.startY + Times(row, a.line), Times(step, a.line), parse) ==
               Cursor(a.startX, a.startY + Times(r, a.line), Times(s, a.line), p)
    decreases parse
  {
    hide Times;
    if row >= a.h {
      TimesMonotone(a.h, row, a.line);
    } else {
      TimesMonotone(row + 1, a.h, a.line);
      TimesAdd(row, 1, a.line);
    }
    if row >= a.h && parse > 0 {
      var wider := if parse == 1 then 2 else if parse == 2 then 4 else 8;
      assert Shl(1, parse) == wider;
      HalfProduct(wider, a.line);
      WrapIsNext(a, wider / 2, wider, parse - 1);
    }
  }

  lemma HalfProduct(wider: nat, k: nat)
    requires wider == 2 || wider == 4 || wider == 8
    ensures Times(wider, k) / 2 == Times(wider / 2, k)
  {}

  lemma StartStands(a: Area, interlaced: bool)
    ensures Stands(a, interlaced, Start(a, interlaced), 0, 0) || (a.w == 0 && a.h > 0)
  {
    RowsPermutation(interlaced, a.h);
    if a.h > 0 {
      var rows, step := Rows(interlaced, a.h), if interlaced then 8 else 1;
      assert rows[0] == 0 && rows[0..] == rows;
      assert Start(a, interlaced).step == Times(step, a.line) && Times(0, a.line) == 0;
    }
  }

  lemma AdvanceStands(a: Area, interlaced: bool, c: Cursor, j: nat, col: nat)
    requires a.line > 0 && a.line % 4 == 0 && Stands(a, interlaced, c, j, col) && j < a.h
    ensures col + 1 < a.w ==> Stands(a, interlaced, Advance(a, c), j, col + 1)
    ensures col + 1 == a.w ==> Stands(a, interlaced, Advance(a, c), j + 1, 0)
  {
    hide Rows, Times, Wrap;
    var rows := Rows(interlaced, a.h);
    var step: nat :| step > 0 && c.step == Times(step, a.line) && c.y == a.startY + Times(rows[j], a.line)
                     && RowsFrom(rows[j], step, c.parse, a.h) == rows[j..];
    if col + 1 == a.w {
      var row := rows[j];
      RowsPermutation(interlaced, a.h);
      assert row in rows && row < a.h;
      assert RowsFrom(row, step, c.parse, a.h)[1..] == RowsFrom(row + step, step, c.parse, a.h);
      assert rows[j..][1..] == rows[j + 1..];
      TimesAdd(row, step, a.line);
      WrapIsNext(a, row + step, step, c.parse);
      var (r, s, p) := NextRow(row + step, step, c.parse, a.h);
      if j + 1 < a.h {
        assert rows[j + 1] == r by { assert rows[j + 1..][0] == rows[j + 1]; }
      } else {
        assert rows[j + 1..] == [];
        TimesMonotone(a.h, r, a.line);
      }
    }
  }

  // ----- the finished picture

  /** Byte offset of the k-th pixel of an image. */
  function Offset(a: Area, interlaced: bool, k: nat): nat
    requires k < a.Size() && |Rows(interlaced, a.h)| == a.h
  {
    RowBound(k, a.w, a.h);
    a.startX + 4 * ColOf(k, a.w) + a.startY + Times(Rows(interlaced, a.h)[RowOf(k, a.w)], a.line)
  }

  /** Distinct pixels have disjoint places inside the canvas. */
  lemma OffsetsDisjoint(a: Area, interlaced: bool, size: nat, k: nat, l: nat)
    requires a.Valid(size) && k < a.Size() && l < a.Size() && |Rows(interlaced, a.h)| == a.h
    ensures Offset(a, interlaced, k) + 4 <= size
    ensures k != l ==>
              Offset(a, interlaced, k) + 4 <= Offset(a, interlaced, l) ||
              Offset(a, interlaced, l) + 4 <= Offset(a, interlaced, k)
  {
    hide Rows, Offset, Times, RowOf, ColOf;
    var rows := Rows(interlaced, a.h);
    OffsetIs(a, interlaced, k);
    OffsetIs(a, interlaced, l);
    RowCol(k, a.w);
    RowCol(l, a.w);
    RowsPermutation(interlaced, a.h);
    var rk, rl := rows[RowOf(k, a.w)], rows[RowOf(l, a.w)];
    assert rk in rows && rl in rows;
    PlacesApart(a, size, rk, ColOf(k, a.w), rl, ColOf(l, a.w));
  }

  lemma PlacesApart(a: Area, size: nat, r: nat, c: nat, s: nat, d: nat)
    requires a.Valid(size) && r < a.h && s < a.h && c < a.w && d < a.w
    ensures a.startX + 4 * c + a.startY + Times(r, a.line) + 4 <= size
    ensures r != s || c != d ==>
      || a.startX + 4 * c + a.startY + Times(r, a.line) + 4 <= a.startX + 4 * d + a.startY + Times(s, a.line)
      || a.startX + 4 * d + a.startY + Times(s, a.line) + 4 <= a.startX + 4 * c + a.startY + Times(r, a.line)
  {
    hide Times;
    TimesMonotone(r + 1, a.h, a.line);
    TimesAdd(r, 1, a.line);
    TimesAdd(s, 1, a.line);
    if r < s { TimesMonotone(r + 1, s, a.line); }
    if s < r { TimesMonotone(s + 1, r, a.line); }
  }

  /** In an area without rows or columns nothing is ever drawn. */
  lemma {:induction false} PaintsNothing(a: Area, interlaced: bool, colors: seq<byte>, out: seq<byte>,
                                         pixels: seq<byte>)
    requires |colors| == 1024 && a.MaxY() == a.startY
    ensures Paint(a, colors, Canvas(out, Start(a, interlaced)), pixels) == Canvas(out, Start(a, interlaced))
    decreases |pixels|
  {
    if pixels != [] { PaintsNothing(a, interlaced, colors, out, pixels[..|pixels| - 1]); }
  }

  /** After n pixels the cursor stands where pixel n goes. */
  lemma {:induction false} PaintStands(a: Area, interlaced: bool, colors: seq<byte>, out: seq<byte>, pixels: seq<byte>)
    requires |colors| == 1024 && a.Valid(|out|) && a.w > 0 && a.line % 4 == 0
    ensures var n := if |pixels| < a.Size() then |pixels| else a.Size();
            Stands(a, interlaced, Paint(a, colors, Canvas(out, Start(a, interlaced)), pixels).cur,
                   RowOf(n, a.w), ColOf(n, a.w))
  {
    hide Stands, Advance, Start, Blend, Times, RowOf, ColOf;
    if pixels == [] {
      StartStands(a, interlaced);
      TimesAdd(0, 0, a.w);
      RowColUnique(0, a.w, 0, 0);
    } else {
      var before := pixels[..|pixels| - 1];
      PaintStands(a, interlaced, colors, out, before);
      var cv := Paint(a, colors, Canvas(out, Start(a, interlaced)), before);
      var k := |before|;
      if k < a.Size() {
        RowCol(k, a.w);
        RowBound(k, a.w, a.h);
        CursorInside(a, interlaced, cv.cur, RowOf(k, a.w), ColOf(k, a.w));
        AdvanceStands(a, interlaced, cv.cur, RowOf(k, a.w), ColOf(k, a.w));
        NextPlace(k, a.w);
      } else {
        LastPlace(a.w, a.h);
        CursorPast(a, interlaced, cv.cur, a.h, 0);
      }
    }
  }

  lemma CursorInside(a: Area, interlaced: bool, c: Cursor, j: nat, col: nat)
    requires Stands(a, interlaced, c, j, col) && j < a.h && a.line > 0
    ensures c.y < a.MaxY() && c.x + c.y == a.startX + 4 * col + a.startY + Times(Rows(interlaced, a.h)[j], a.line)
  {
    hide Rows, Times;
    RowsPermutation(interlaced, a.h);
    var row := Rows(interlaced, a.h)[j];
    assert row in Rows(interlaced, a.h);
    TimesMonotone(row + 1, a.h, a.line);
    TimesAdd(row, 1, a.line);
  }

  lemma CursorPast(a: Area, interlaced: bool, c: Cursor, j: nat, col: nat)
    requires Stands(a, interlaced, c, j, col) && j >= a.h
    ensures c.y >= a.MaxY()
  {}

  /** The bytes of pixel k hold its colour (or, where transparent, what was there). */
  ghost predicate Drawn(a: Area, interlaced: bool, colors: seq<byte>, out: seq<byte>, r: seq<byte>, k: nat, index: byte)
    requires |colors| == 1024 && |r| == |out| && k < a.Size() && |Rows(interlaced, a.h)| == a.h
  {
    var at := Offset(a, interlaced, k);
    at + 4 <= |out| && r[at..at + 4] == Blend(out, at, colors, index)[at..at + 4]
  }

  /** Byte b belongs to none of the first n pixels. */
  ghost predicate Outside(a: Area, interlaced: bool, n: nat, b: nat)
    requires |Rows(interlaced, a.h)| == a.h
  {
    forall k: nat :: k < n && k < a.Size() ==> !(Offset(a, interlaced, k) <= b < Offset(a, interlaced, k) + 4)
  }

  /** The k-th pixel is drawn at its place, and no other byte is changed;
      pixels beyond the image are dropped. */
  ghost predicate Picture(a: Area, interlaced: bool, colors: seq<byte>, out: seq<byte>, r: seq<byte>, pixels: seq<byte>)
    requires |colors| == 1024 && |r| == |out| && |Rows(interlaced, a.h)| == a.h
  {
    && (forall k: nat :: k < |pixels| && k < a.Size() ==> Drawn(a, interlaced, colors, out, r, k, pixels[k]))
    && (forall b: nat :: b < |out| && Outside(a, interlaced, |pixels|, b) ==> r[b] == out[b])
  }

  /** Painting a list of pixels gives their picture, in raster or interlace order. */
  lemma {:induction false} PaintExact(a: Area, interlaced: bool, colors: seq<byte>, out: seq<byte>, pixels: seq<byte>)
    requires |colors| == 1024 && a.Valid(|out|) && a.line % 4 == 0
    ensures |Rows(interlaced, a.h)| == a.h
    ensures Picture(a, interlaced, colors, out, Paint(a, colors, Canvas(out, Start(a, interlaced)), pixels).out, pixels)
  {
    RowsPermutation(interlaced, a.h);
    hide Rows, Offset, Stands, Advance, Start, Picture, Blend, Times, RowOf, ColOf;
    if a.w == 0 {
      PaintsNothing(a, interlaced, colors, out, pixels);
      PictureOfNoPixels(a, interlaced, colors, out, pixels);
    } else if pixels == [] {
      PictureOfNothing(a, interlaced, colors, out);
    } else {
      var before, n := pixels[..|pixels| - 1], |pixels| - 1;
      PaintExact(a, interlaced, colors, out, before);
      PaintStands(a, interlaced, colors, out, before);
      var cv := Paint(a, colors, Canvas(out, Start(a, interlaced)), before);
      if n < a.Size() {
        OffsetIs(a, interlaced, n);
        CursorInside(a, interlaced, cv.cur, RowOf(n, a.w), ColOf(n, a.w));
        DrawOne(a, interlaced, colors, out, cv.out, pixels);
      } else {
        LastPlace(a.w, a.h);
        CursorPast(a, interlaced, cv.cur, a.h, 0);
        DrawNone(a, interlaced, colors, out, cv.out, pixels);
      }
    }
  }

  lemma PictureOfNoPixels(a: Area, interlaced: bool, colors: seq<byte>, out: seq<byte>, pixels: seq<byte>)
    requires |colors| == 1024 && a.w == 0 && |Rows(interlaced, a.h)| == a.h
    ensures Picture(a, interlaced, colors, out, out, pixels)
  {
    hide Rows, Offset;
    assert a.Size() == 0;
  }

  lemma PictureOfNothing(a: Area, interlaced: bool, colors: seq<byte>, out: seq<byte>)
    requires |colors| == 1024 && |Rows(interlaced, a.h)| == a.h
    ensures Picture(a, interlaced, colors, out, out, [])
  {}

  /** A pixel beyond the image changes nothing. */
  lemma DrawNone(a: Area, interlaced: bool, colors: seq<byte>, out: seq<byte>, r: seq<byte>, pixels: seq<byte>)
    requires |colors| == 1024 && |r| == |out| && a.Valid(|out|) && |Rows(interlaced, a.h)| == a.h
    requires |pixels| > a.Size() && Picture(a, interlaced, colors, out, r, pixels[..|pixels| - 1])
    ensures Picture(a, interlaced, colors, out, r, pixels)
  {
    hide Rows, Offset, Drawn;
    var before := pixels[..|pixels| - 1];
    forall k: nat | k < |pixels| && k < a.Size() ensures Drawn(a, interlaced, colors, out, r, k, pixels[k]) {
      assert pixels[k] == before[k];
    }
  }

  /** One more pixel leaves those before it drawn. */
  lemma DrawOne(a: Area, interlaced: bool, colors: seq<byte>, out: seq<byte>, r: seq<byte>, pixels: seq<byte>)
    requires |colors| == 1024 && |r| == |out| && a.Valid(|out|) && |Rows(interlaced, a.h)| == a.h
    requires pixels != [] && |pixels| <= a.Size() && Picture(a, interlaced, colors, out, r, pixels[..|pixels| - 1])
    ensures Picture(a, interlaced, colors, out,
                    Blend(r, Offset(a, interlaced, |pixels| - 1), colors, pixels[|pixels| - 1]), pixels)
  {
    hide Rows, Offset;
    var n, before := |pixels| - 1, pixels[..|pixels| - 1];
    var at := Offset(a, interlaced, n);
    var r' := Blend(r, at, colors, pixels[n]);
    OffsetsDisjoint(a, interlaced, |out|, n, n);
    forall b: nat | at <= b < at + 4 ensures Outside(a, interlaced, n, b) {
      forall k: nat | k < n ensures !(Offset(a, interlaced, k) <= b < Offset(a, interlaced, k) + 4) {
        OffsetsDisjoint(a, interlaced, |out|, k, n);
      }
    }
    assert r[at..at + 4] == out[at..at + 4];
    assert Drawn(a, interlaced, colors, out, r', n, pixels[n]);
    forall k: nat | k < n ensures Drawn(a, interlaced, colors, out, r', k, pixels[k]) {
      StaysDrawn(a, interlaced, colors, out, r, k, pixels[k], n, pixels[n]);
    }
  }

  lemma StaysDrawn(a: Area, interlaced: bool, colors: seq<byte>, out: seq<byte>, r: seq<byte>, k: nat, index: byte,
                   n: nat, next: byte)
    requires |colors| == 1024 && |r| == |out| && a.Valid(|out|) && |Rows(interlaced, a.h)| == a.h
    requires k < n < a.Size() && Drawn(a, interlaced, colors, out, r, k, index)
    ensures Drawn(a, interlaced, colors, out, Blend(r, Offset(a, interlaced, n), colors, next), k, index)
  {
    hide Rows, Offset, Blend;
    OffsetsDisjoint(a, interlaced, |out|, k, n);
    OffsetsDisjoint(a, interlaced, |out|, n, k);
    BlendElsewhere(r, Offset(a, interlaced, n), colors, next, Offset(a, interlaced, k));
  }

  lemma BlendElsewhere(r: seq<byte>, at: nat, colors: seq<byte>, index: byte, p: nat)
    requires |colors| == 1024 && p + 4 <= |r| && (p + 4 <= at || at + 4 <= p)
    ensures Blend(r, at, colors, index)[p..p + 4] == r[p..p + 4]
  {}

  lemma OffsetIs(a: Area, interlaced: bool, k: nat)
    requires k < a.Size() && |Rows(interlaced, a.h)| == a.h
    ensures RowOf(k, a.w) < a.h && ColOf(k, a.w) < a.w
    ensures Offset(a, interlaced, k) ==
            a.startX + 4 * ColOf(k, a.w) + a.startY + Times(Rows(interlaced, a.h)[RowOf(k, a.w)], a.line)
  {
    RowCol(k, a.w);
    RowBound(k, a.w, a.h);
  }

  /** The place of pixel k: four bytes to a pixel, `line` bytes to a canvas row. */
  function PlaceOf(a: Area, interlaced: bool, k: nat): nat
    requires k < a.h * a.w && |Visited(interlaced, a.h)| == a.h
  {
    RowBound(k, a.w, a.h);
    a.startX + a.startY + 4 * (k % a.w) + Visited(interlaced, a.h)[k / a.w] * a.line
  }

  /** Pixel k shows its palette entry, the first and third byte exchanged, unless the
      entry is transparent; then the canvas is as before. */
  ghost predicate PixelShown(a: Area, interlaced: bool, colors: seq<byte>, out: seq<byte>, r: seq<byte>, k: nat,
                             index: byte)
    requires |colors| == 1024 && |r| == |out| && k < a.h * a.w && |Visited(interlaced, a.h)| == a.h
  {
    var at, i: nat := PlaceOf(a, interlaced, k), 4 * (index as nat);
    && at + 4 <= |out|
    && r[at..at + 4] == if colors[i + 3] >= 128 then [colors[i + 2], colors[i + 1], colors[i], colors[i + 3]]
                        else out[at..at + 4]
  }

  /** Byte b of the canvas belongs to none of the first n pixels. */
  ghost predicate Beside(a: Area, interlaced: bool, n: nat, b: nat)
    requires |Visited(interlaced, a.h)| == a.h
  {
    forall k: nat :: k < n && k < a.h * a.w ==> b < PlaceOf(a, interlaced, k) || PlaceOf(a, interlaced, k) + 4 <= b
  }

  /** Every pixel of the image is shown, and every other byte is as before. */
  ghost predicate Shown(a: Area, interlaced: bool, colors: seq<byte>, out: seq<byte>, r: seq<byte>, pixels: seq<byte>)
    requires |colors| == 1024 && |r| == |out| && |Visited(interlaced, a.h)| == a.h
  {
    && (forall k: nat :: k < |pixels| && k < a.h * a.w ==> PixelShown(a, interlaced, colors, out, r, k, pixels[k]))
    && (forall b: nat :: b < |out| && Beside(a, interlaced, |pixels|, b) ==> r[b] == out[b])
  }

  /** The area of an image descriptor on a screen of W pixels to a row. */
  function AreaOf(W: nat, x: nat, y: nat, w: nat, h: nat): Area {
    Area(w, h, 4 * W, 4 * x, Times(y, 4 * W))
  }

  /** A descriptor that is accepted lies inside the screen. */
  lemma OnScreen(W: nat, H: nat, x: nat, y: nat, w: nat, h: nat)
    requires x + w <= W && y + h <= H
    ensures var a := AreaOf(W, x, y, w, h);
            a.line % 4 == 0 && a.Inside(4 * (W * H)) && (w > 0 || h == 0 ==> a.Valid(4 * (W * H)))
  {
    assert Times(H, 4 * W) == 4 * (W * H);
    hide Times;
    TimesAdd(y, h, 4 * W);
    TimesMonotone(y + h, H, 4 * W);
  }

  /** Pixel k of its image is pixel (x + k % w, y + row) of the screen. */
  lemma PlaceOnScreen(W: nat, x: nat, y: nat, w: nat, h: nat, interlaced: bool, k: nat)
    requires k < h * w && |Visited(interlaced, h)| == h
    ensures w > 0 && k / w < h
    ensures PlaceOf(AreaOf(W, x, y, w, h), interlaced, k) ==
            4 * ((y + Visited(interlaced, h)[k / w]) * W + x + k % w)
  {
    hide Visited;
    RowBound(k, w, h);
    RowsAbove(y, Visited(interlaced, h)[k / w], W);
  }

  lemma RowsAbove(y: nat, row: nat, W: nat)
    ensures Times(y, 4 * W) + row * (4 * W) == 4 * ((y + row) * W)
  {}

  lemma PictureShown(a: Area, interlaced: bool, colors: seq<byte>, out: seq<byte>, r: seq<byte>, pixels: seq<byte>)
    requires |colors| == 1024 && |r| == |out| && |Rows(interlaced, a.h)| == a.h
    requires Picture(a, interlaced, colors, out, r, pixels)
    ensures |Visited(interlaced, a.h)| == a.h && Shown(a, interlaced, colors, out, r, pixels)
  {
    hide Rows, Visited, Blend, PlaceOf, Offset;
    RowsVisited(interlaced, a.h);
    forall k: nat | k < a.h * a.w ensures k < a.Size() && PlaceOf(a, interlaced, k) == Offset(a, interlaced, k) {
      PlaceIsOffset(a, interlaced, k);
    }
    forall k: nat | k < |pixels| && k < a.h * a.w ensures PixelShown(a, interlaced, colors, out, r, k, pixels[k]) {
      assert Drawn(a, interlaced, colors, out, r, k, pixels[k]);
      BlendShows(out, Offset(a, interlaced, k), colors, pixels[k]);
    }
    forall b: nat | b < |out| && Beside(a, interlaced, |pixels|, b) ensures r[b] == out[b] {
      assert Outside(a, interlaced, |pixels|, b);
    }
  }

  lemma PlaceIsOffset(a: Area, interlaced: bool, k: nat)
    requires k < a.h * a.w && |Visited(interlaced, a.h)| == a.h && Rows(interlaced, a.h) == Visited(interlaced, a.h)
    ensures k < a.Size() && PlaceOf(a, interlaced, k) == Offset(a, interlaced, k)
  {
    hide Rows, Visited;
    RowBound(k, a.w, a.h);
  }

  lemma BlendShows(out: seq<byte>, at: nat, colors: seq<byte>, index: byte)
    requires |colors| == 1024 && at + 4 <= |out|
    ensures var i: nat := 4 * (index as nat);
            Blend(out, at, colors, index)[at..at + 4] ==
            if colors[i + 3] >= 128 then [colors[i + 2], colors[i + 1], colors[i], colors[i + 3]] else out[at..at + 4]
  {}

  // ----- images without columns

  /** The next pixel, if one is still drawn, lies inside the area. */
  predicate Confined(a: Area, c: Cursor) {
    c.y < a.MaxY() ==> a.startX <= c.x && c.x + 4 <= a.MaxX() && a.startY <= c.y && c.y + a.line <= a.MaxY()
  }

  /** All pixels stay inside their area exactly when the area has a column, or
      no row either. */
  lemma ConfinedExactly(a: Area, interlaced: bool, colors: seq<byte>, out: seq<byte>)
    requires |colors| == 1024 && a.Inside(|out|) && a.line % 4 == 0
    ensures (forall pixels :: Confined(a, Paint(a, colors, Canvas(out, Start(a, interlaced)), pixels).cur)) <==>
            a.w >= 1 || a.MaxY() == a.startY
  {
    if a.w >= 1 || a.MaxY() == a.startY {
      forall pixels ensures Confined(a, Paint(a, colors, Canvas(out, Start(a, interlaced)), pixels).cur) {
        StaysConfined(a, interlaced, colors, out, pixels);
      }
    } else {
      var none: seq<byte> := [];
      assert Paint(a, colors, Canvas(out, Start(a, interlaced)), none).cur == Start(a, interlaced);
      assert !Confined(a, Paint(a, colors, Canvas(out, Start(a, interlaced)), none).cur);
    }
  }

  lemma StaysConfined(a: Area, interlaced: bool, colors: seq<byte>, out: seq<byte>, pixels: seq<byte>)
    requires |colors| == 1024 && a.Valid(|out|) && a.line % 4 == 0
    ensures Confined(a, Paint(a, colors, Canvas(out, Start(a, interlaced)), pixels).cur)
  {
    hide Paint, Rows, Times, RowOf, ColOf;
    if a.w == 0 {
      PaintsNothing(a, interlaced, colors, out, pixels);
    } else {
      PaintStands(a, interlaced, colors, out, pixels);
      var n := if |pixels| < a.Size() then |pixels| else a.Size();
      var c := Paint(a, colors, Canvas(out, Start(a, interlaced)), pixels).cur;
      if RowOf(n, a.w) < a.h {
        var row := Rows(interlaced, a.h)[RowOf(n, a.w)];
        RowsPermutation(interlaced, a.h);
        assert row in Rows(interlaced, a.h);
        TimesMonotone(row + 1, a.h, a.line);
        TimesAdd(row, 1, a.line);
      }
    }
  }

  /** An image of width 0 and height 1 at the right edge of a canvas of one pixel:
      its first pixel goes behind the end of the canvas. */
  lemma ZeroWidthEscapes(interlaced: bool)
    ensures var a := Area(0, 1, 4, 4, 0);
            && a.Inside(4)
            && Start(a, interlaced).y < a.MaxY()
            && Start(a, interlaced).x + Start(a, interlaced).y >= 4
  {
    assert Times(1, 4) == 4;
  }
}
