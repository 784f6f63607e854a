/** The seven passes of an interlaced PNG (PNG specification, section 8.2). */
module Adam7 {
  function XOrig(p: nat): nat
    requires p < 7
  {
    if p == 1 then 4 else if p == 3 then 2 else if p == 5 then 1 else 0
  }

  function YOrig(p: nat): nat
    requires p < 7
  {
    if p == 2 then 4 else if p == 4 then 2 else if p == 6 then 1 else 0
  }

  function XSpace(p: nat): (s: nat)
    requires p < 7
    ensures XOrig(p) < s
  {
    if p < 2 then 8 else if p < 4 then 4 else if p < 6 then 2 else 1
  }

  function YSpace(p: nat): (s: nat)
    requires p < 7
    ensures YOrig(p) < s
  {
    if p < 3 then 8 else if p < 5 then 4 else 2
  }

  /** Column of the image that column i of pass p is. */
  function ColumnOf(p: nat, i: nat): nat
    requires p < 7
  {
    if p < 2 then 8 * i + XOrig(p) else if p < 4 then 4 * i + XOrig(p) else if p < 6 then 2 * i + XOrig(p) else i
  }

  /** Row of the image that row j of pass p is. */
  function RowOf(p: nat, j: nat): nat
    requires p < 7
  {
    if p < 3 then 8 * j + YOrig(p) else if p < 5 then 4 * j + YOrig(p) else 2 * j + YOrig(p)
  }

  /** The code multiplies by the spacing. */
  lemma OfIsAffine(p: nat, i: nat, j: nat)
    requires p < 7
    ensures ColumnOf(p, i) == i * XSpace(p) + XOrig(p) && RowOf(p, j) == j * YSpace(p) + YOrig(p)
  {}

  /** Size of pass p in an image of width w or height h: `(img_x - xorig + xspc - 1) / xspc`. */
  function PassWidth(p: nat, w: nat): nat
    requires p < 7 && 0 < w
  {
    var k := w + XSpace(p) - 1 - XOrig(p);
    if p < 2 then k / 8 else if p < 4 then k / 4 else if p < 6 then k / 2 else k
  }

  function PassHeight(p: nat, h: nat): nat
    requires p < 7 && 0 < h
  {
    var k := h + YSpace(p) - 1 - YOrig(p);
    if p < 3 then k / 8 else if p < 5 then k / 4 else k / 2
  }

  /** Pass sizes are exact: they count the columns and rows that lie in the image. */
  lemma SizesExact(p: nat, w: nat, h: nat, i: nat)
    requires p < 7 && 0 < w && 0 < h
    ensures i < PassWidth(p, w) <==> ColumnOf(p, i) < w
    ensures i < PassHeight(p, h) <==> RowOf(p, i) < h
  {}

  /** The pass, and the place in it, of a pixel of the image. */
  datatype Place = Place(p: nat, i: nat, j: nat)

  function PlaceOf(x: nat, y: nat): (q: Place)
    ensures q.p < 7
  {
    if y % 2 == 1 then Place(6, x, y / 2)
    else if x % 2 == 1 then Place(5, x / 2, y / 2)
    else if y % 4 == 2 then Place(4, x / 2, y / 4)
    else if x % 4 == 2 then Place(3, x / 4, y / 4)
    else if y % 8 == 4 then Place(2, x / 4, y / 8)
    else if x % 8 == 4 then Place(1, x / 8, y / 8)
    else Place(0, x / 8, y / 8)
  }

  /** The passes, numbered from 1, of an 8x8 square of pixels as the standard draws them. */
  lemma Pattern(x: nat, y: nat)
    ensures PlaceOf(x, y).p + 1 ==
            [[1, 6, 4, 6, 2, 6, 4, 6], [7, 7, 7, 7, 7, 7, 7, 7], [5, 6, 5, 6, 5, 6, 5, 6], [7, 7, 7, 7, 7, 7, 7, 7],
             [3, 6, 4, 6, 3, 6, 4, 6], [7, 7, 7, 7, 7, 7, 7, 7], [5, 6, 5, 6, 5, 6, 5, 6], [7, 7, 7, 7, 7, 7, 7, 7]]
            [y % 8][x % 8]
  {
    Within8(x);
    Within8(y);
    RowPattern(x % 8, y % 8);
  }

  lemma Within8(x: nat)
    ensures x % 4 == x % 8 % 4 && x % 2 == x % 8 % 2
  {
    var q, r := x / 8, x % 8;
    Fours(2 * q, r);
    Twos(4 * q, r);
  }

  lemma Fours(k: nat, r: nat)
    ensures (4 * k + r) % 4 == r % 4
  {}

  lemma Twos(k: nat, r: nat)
    ensures (2 * k + r) % 2 == r % 2
  {}

  lemma RowPattern(x: nat, y: nat)
    requires x < 8 && y < 8
    ensures PlaceOf(x, y).p + 1 ==
            [[1, 6, 4, 6, 2, 6, 4, 6], [7, 7, 7, 7, 7, 7, 7, 7], [5, 6, 5, 6, 5, 6, 5, 6], [7, 7, 7, 7, 7, 7, 7, 7],
             [3, 6, 4, 6, 3, 6, 4, 6], [7, 7, 7, 7, 7, 7, 7, 7], [5, 6, 5, 6, 5, 6, 5, 6], [7, 7, 7, 7, 7, 7, 7, 7]]
            [y][x]
  {}

  lemma PlaceIs(x: nat, y: nat)
    ensures var q := PlaceOf(x, y); ColumnOf(q.p, q.i) == x && RowOf(q.p, q.j) == y
  {
    var q := PlaceOf(x, y);
    if q.p == 6 {
    } else if q.p == 5 {
      assert y % 2 == 0;
    } else if q.p == 4 {
    } else {
      assert y % 4 == 0 by { Quarter(y); }
      assert x % 2 == 0;
      if q.p == 3 {
      } else {
        assert x % 4 == 0 by { Quarter(x); }
        if q.p == 2 {
        } else {
          Eighth(y);
          if q.p == 0 { Eighth(x); }
        }
      }
    }
  }

  lemma Quarter(x: nat)
    requires x % 2 == 0 && x % 4 != 2
    ensures x % 4 == 0
  {}

  lemma Eighth(x: nat)
    requires x % 4 == 0 && x % 8 != 4
    ensures x % 8 == 0
  {}

  /** Each pixel of the image is in exactly one pass, once. */
  lemma Partition(w: nat, h: nat, x: nat, y: nat, q: Place)
    requires 0 < w && 0 < h
    ensures q.p < 7 && q.i < PassWidth(q.p, w) && q.j < PassHeight(q.p, h) && ColumnOf(q.p, q.i) == x &&
            RowOf(q.p, q.j) == y
            <==> x < w && y < h && q == PlaceOf(x, y)
  {
    hide PassWidth, PassHeight, PlaceOf, ColumnOf, RowOf;
    PlaceIs(x, y);
    if q.p < 7 {
      SizesExact(q.p, w, h, q.i);
      SizesExact(q.p, w, h, q.j);
      PlaceUnique(q);
    }
  }

  lemma PlaceUnique(q: Place)
    requires q.p < 7
    ensures PlaceOf(ColumnOf(q.p, q.i), RowOf(q.p, q.j)) == q
  {
    var x, y := ColumnOf(q.p, q.i), RowOf(q.p, q.j);
    if q.p < 3 {
      Residues8(q.j, YOrig(q.p), y);
    } else if q.p < 5 {
      Residues4(q.j, YOrig(q.p), y);
    } else {
      Residues2(q.j, YOrig(q.p), y);
    }
    if q.p < 2 {
      Residues8(q.i, XOrig(q.p), x);
    } else if q.p < 4 {
      Residues4(q.i, XOrig(q.p), x);
    } else if q.p < 6 {
      Residues2(q.i, XOrig(q.p), x);
    }
    PlaceByResidues(x, y, q);
  }

  lemma PlaceByResidues(x: nat, y: nat, q: Place)
    requires q.p < 7
    requires if q.p < 3 then y / 8 == q.j && y % 8 == YOrig(q.p) && y % 4 == 0 && y % 2 == 0
             else if q.p < 5 then y / 4 == q.j && y % 4 == YOrig(q.p) && y % 2 == 0
             else y / 2 == q.j && y % 2 == YOrig(q.p)
    requires if q.p < 2 then x / 8 == q.i && x % 8 == XOrig(q.p) && x % 4 == 0 && x % 2 == 0
             else if q.p < 4 then x / 4 == q.i && x % 4 == XOrig(q.p) && x % 2 == 0
             else if q.p < 6 then x / 2 == q.i && x % 2 == XOrig(q.p) else x == q.i
    ensures PlaceOf(x, y) == q
  {}

  lemma Residues8(k: nat, r: nat, x: nat)
    requires (r == 0 || r == 4) && x == 8 * k + r
    ensures x / 8 == k && x % 8 == r && x % 4 == 0 && x % 2 == 0
  {
    Residues4(2 * k + r / 4, 0, x);
  }

  lemma Residues4(k: nat, r: nat, x: nat)
    requires (r == 0 || r == 2) && x == 4 * k + r
    ensures x / 4 == k && x % 4 == r && x % 2 == 0
  {
    Residues2(2 * k + r / 2, 0, x);
  }

  lemma Residues2(k: nat, r: nat, x: nat)
    requires r < 2 && x == 2 * k + r
    ensures x / 2 == k && x % 2 == r
  {}
}
