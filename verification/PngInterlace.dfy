/** `stbi__create_png_image`: assembling the passes of an interlaced image. */
module PngInterlace {
  import opened Products
  import opened Bits
  import opened Buffers
  import opened PngLines
  import opened PngPacked
  import opened PngRaw
  import opened Adam7

  /** Index of the pixel in column x and row y of an image of width w. */
  function Index(x: nat, y: nat, w: nat): nat { Times(y, w) + x }

  lemma IndexFits(x: nat, y: nat, w: nat, h: nat)
    requires x < w && y < h
    ensures Index(x, y, w) < Times(h, w)
  {
    TimesNext(y, w);
    TimesMonotone(y + 1, h, w);
  }

  lemma IndexUnique(x: nat, y: nat, x': nat, y': nat, w: nat)
    requires x < w && x' < w && Index(x, y, w) == Index(x', y', w)
    ensures x == x' && y == y'
  {
    hide Times;
    TimesNext(y, w); TimesNext(y', w);
    if y < y' { TimesMonotone(y + 1, y', w); }
    if y' < y { TimesMonotone(y' + 1, y, w); }
  }

  /** The bytes of a pixel. */
  function PixelAt(image: seq<byte>, x: nat, y: nat, w: nat, h: nat, outN: nat): (r: seq<byte>)
    requires x < w && y < h && |image| == Times(Times(h, w), outN)
    ensures |r| == outN
  {
    IndexFits(x, y, w, h);
    SlotFits(Times(h, w), outN, Index(x, y, w));
    Slot(image, outN, Index(x, y, w))
  }

  /** Rows of w pixels, outN bytes to a pixel. */
  lemma PixelBytes(image: seq<byte>, x: nat, y: nat, w: nat, h: nat, outN: nat)
    requires x < w && y < h && |image| == Times(Times(h, w), outN)
    ensures |image| == h * w * outN && (y * w + x) * outN + outN <= |image|
    ensures PixelAt(image, x, y, w, h, outN) == image[(y * w + x) * outN..(y * w + x) * outN + outN]
  {
    IndexFits(x, y, w, h);
    SlotFits(Times(h, w), outN, Index(x, y, w));
  }

  /** Pixel (x, y) shows the pixel at its place in its pass. */
  ghost predicate Shows(image: seq<byte>, pass: seq<byte>, w: nat, h: nat, outN: nat, x: nat, y: nat)
    requires x < w && y < h && |image| == Times(Times(h, w), outN)
    requires var p := PlaceOf(x, y).p; |pass| == Times(Times(PassHeight(p, h), PassWidth(p, w)), outN)
  {
    var q := PlaceOf(x, y);
    Partition(w, h, x, y, q);
    PlaceIs(x, y);
    PixelAt(image, x, y, w, h, outN) == PixelAt(pass, q.i, q.j, PassWidth(q.p, w), PassHeight(q.p, h), outN)
  }

  /** The place q comes before column i of row j in the order of the copying loops. */
  predicate Before(q: Place, j: nat, i: nat) { q.j < j || (q.j == j && q.i < i) }

  /** What the pixels are when the loops have reached column i of row j of pass p. */
  ghost predicate Scattered(image: seq<byte>, before: seq<byte>, pass: seq<byte>, p: nat, w: nat, h: nat, outN: nat,
    j: nat, i: nat, x: nat, y: nat)
    requires x < w && y < h && p < 7 && |image| == |before| == Times(Times(h, w), outN)
    requires |pass| == Times(Times(PassHeight(p, h), PassWidth(p, w)), outN)
  {
    if PlaceOf(x, y).p == p && Before(PlaceOf(x, y), j, i) then Shows(image, pass, w, h, outN, x, y)
    else PixelAt(image, x, y, w, h, outN) == PixelAt(before, x, y, w, h, outN)
  }

  ghost predicate AllScattered(image: seq<byte>, before: seq<byte>, pass: seq<byte>, p: nat, w: nat, h: nat,
                               outN: nat, j: nat, i: nat)
    requires 0 < w && 0 < h && p < 7 && |image| == |before| == Times(Times(h, w), outN)
    requires |pass| == Times(Times(PassHeight(p, h), PassWidth(p, w)), outN)
  {
    forall x, y | 0 <= x < w && 0 <= y < h :: Scattered(image, before, pass, p, w, h, outN, j, i, x, y)
  }

  /** `memcpy` of one pixel. */
  method CopyPixel(dst: array<byte>, at: nat, src: array<byte>, from: nat, n: nat)
    requires at + n <= dst.Length && from + n <= src.Length && dst != src
    modifies dst
    ensures dst[..] == Splice(old(dst[..]), at, src[from..from + n])
  {
    hide Splice;
    ghost var before := dst[..];
    ghost var px := src[from..from + n];
    SpliceNothing(before, at);
    var k := 0;
    while k < n
      invariant 0 <= k <= n
      invariant src[from..from + n] == px
      invariant dst[..] == Splice(before, at, px[..k])
    {
      assert px[k] == src[from + k];
      SpliceNext(before, dst[..], at, px, k);
      dst[at + k] := src[from + k];
      k := k + 1;
    }
    assert px[..n] == px;
  }

  /** Address of a pixel as the code computes it. */
  lemma Address(x: nat, y: nat, w: nat, outN: nat)
    ensures Times(Index(x, y, w), outN) == Times(Times(y, w), outN) + Times(x, outN)
  {}

  lemma ScatterNext(image: seq<byte>, before: seq<byte>, pass: seq<byte>, p: nat, w: nat, h: nat, outN: nat,
                    j: nat, i: nat)
    requires 0 < w && 0 < h && p < 7 && |image| == |before| == Times(Times(h, w), outN)
    requires |pass| == Times(Times(PassHeight(p, h), PassWidth(p, w)), outN)
    requires j < PassHeight(p, h) && i < PassWidth(p, w) && AllScattered(image, before, pass, p, w, h, outN, j, i)
    ensures ColumnOf(p, i) < w && RowOf(p, j) < h
    ensures var from := Times(Index(i, j, PassWidth(p, w)), outN);
            var at := Times(Index(ColumnOf(p, i), RowOf(p, j), w), outN);
            && from + outN <= |pass| && at + outN <= |image|
            && AllScattered(Splice(image, at, pass[from..from + outN]), before, pass, p, w, h, outN, j, i + 1)
  {
    hide Times, Splice, Index, PassWidth, PassHeight, ColumnOf, RowOf, PlaceOf, PixelAt, Scattered;
    var pw, ph := PassWidth(p, w), PassHeight(p, h);
    SizesExact(p, w, h, i); SizesExact(p, w, h, j);
    var cx, cy := ColumnOf(p, i), RowOf(p, j);
    IndexFits(i, j, pw, ph); SlotFits(Times(ph, pw), outN, Index(i, j, pw));
    IndexFits(cx, cy, w, h); SlotFits(Times(h, w), outN, Index(cx, cy, w));
    var next := i + 1;
    var after := Splice(image, Times(Index(cx, cy, w), outN), PixelAt(pass, i, j, pw, ph, outN));
    PixelIs(pass, i, j, pw, ph, outN);
    forall x, y | 0 <= x < w && 0 <= y < h ensures Scattered(after, before, pass, p, w, h, outN, j, next, x, y) {
      ScatterPixel(image, before, pass, p, w, h, outN, j, i, x, y);
    }
  }

  lemma PixelIs(image: seq<byte>, x: nat, y: nat, w: nat, h: nat, outN: nat)
    requires x < w && y < h && |image| == Times(Times(h, w), outN)
    ensures Times(Index(x, y, w), outN) + outN <= |image|
    ensures PixelAt(image, x, y, w, h, outN) == image[Times(Index(x, y, w), outN)..Times(Index(x, y, w), outN) + outN]
  {
    hide Times, Index;
    IndexFits(x, y, w, h);
    SlotFits(Times(h, w), outN, Index(x, y, w));
  }

  lemma ScatterPixel(image: seq<byte>, before: seq<byte>, pass: seq<byte>, p: nat, w: nat, h: nat, outN: nat,
    j: nat, i: nat, x: nat, y: nat)
    requires x < w && y < h && p < 7 && |image| == |before| == Times(Times(h, w), outN)
    requires |pass| == Times(Times(PassHeight(p, h), PassWidth(p, w)), outN)
    requires j < PassHeight(p, h) && i < PassWidth(p, w) && ColumnOf(p, i) < w && RowOf(p, j) < h
    requires Times(Index(ColumnOf(p, i), RowOf(p, j), w), outN) + outN <= |image|
    requires Scattered(image, before, pass, p, w, h, outN, j, i, x, y)
    ensures Scattered(Splice(image, Times(Index(ColumnOf(p, i), RowOf(p, j), w), outN),
                             PixelAt(pass, i, j, PassWidth(p, w), PassHeight(p, h), outN)),
                      before, pass, p, w, h, outN, j, i + 1, x, y)
  {
    hide Times, Splice, Index, PassWidth, PassHeight, ColumnOf, RowOf, PlaceOf;
    var cx, cy := ColumnOf(p, i), RowOf(p, j);
    var px := PixelAt(pass, i, j, PassWidth(p, w), PassHeight(p, h), outN);
    var after := Splice(image, Times(Index(cx, cy, w), outN), px);
    IndexFits(cx, cy, w, h); IndexFits(x, y, w, h);
    SpliceSlot(image, Times(h, w), outN, Index(cx, cy, w), 0, px, Index(x, y, w));
    PlaceUnique(Place(p, i, j));
    PlaceIs(x, y);
    if x == cx && y == cy {
      assert PixelAt(after, x, y, w, h, outN) == px;
    } else {
      if Index(x, y, w) == Index(cx, cy, w) { IndexUnique(x, y, cx, cy, w); }
      assert PixelAt(after, x, y, w, h, outN) == PixelAt(image, x, y, w, h, outN);
    }
  }

  lemma ScatterRow(image: seq<byte>, before: seq<byte>, pass: seq<byte>, p: nat, w: nat, h: nat, outN: nat, j: nat)
    requires 0 < w && 0 < h && p < 7 && |image| == |before| == Times(Times(h, w), outN)
    requires |pass| == Times(Times(PassHeight(p, h), PassWidth(p, w)), outN)
    requires AllScattered(image, before, pass, p, w, h, outN, j, PassWidth(p, w))
    ensures AllScattered(image, before, pass, p, w, h, outN, j + 1, 0)
  {
    hide Times, PassWidth, PassHeight, PlaceOf, PixelAt, Shows;
    var next := j + 1;
    forall x, y | 0 <= x < w && 0 <= y < h ensures Scattered(image, before, pass, p, w, h, outN, next, 0, x, y) {
      assert Scattered(image, before, pass, p, w, h, outN, j, PassWidth(p, w), x, y);
      Partition(w, h, x, y, PlaceOf(x, y));
    }
  }

  lemma ScatterStart(image: seq<byte>, pass: seq<byte>, p: nat, w: nat, h: nat, outN: nat)
    requires 0 < w && 0 < h && p < 7 && |image| == Times(Times(h, w), outN)
    requires |pass| == Times(Times(PassHeight(p, h), PassWidth(p, w)), outN)
    ensures AllScattered(image, image, pass, p, w, h, outN, 0, 0)
  {}

  /** The copying loops of one pass: its pixels go to their places, all others stay. */
  method ScatterPass(image: array<byte>, pass: array<byte>, p: nat, w: nat, h: nat, outN: nat)
    requires 0 < w && 0 < h && p < 7 && image != pass && image.Length == Times(Times(h, w), outN)
    requires pass.Length == Times(Times(PassHeight(p, h), PassWidth(p, w)), outN)
    modifies image
    ensures AllScattered(image[..], old(image[..]), pass[..], p, w, h, outN, PassHeight(p, h), 0)
  {
    hide Times, Splice, Index, PassWidth, PassHeight, ColumnOf, RowOf, XSpace, YSpace, XOrig, YOrig, AllScattered;
    ghost var before := image[..];
    var x, y := PassWidth(p, w), PassHeight(p, h);
    ScatterStart(before, pass[..], p, w, h, outN);
    var j := 0;
    while j < y
      invariant 0 <= j <= y
      invariant AllScattered(image[..], before, pass[..], p, w, h, outN, j, 0)
    {
      var i := 0;
      while i < x
        invariant 0 <= i <= x
        invariant AllScattered(image[..], before, pass[..], p, w, h, outN, j, i)
      {
        ScatterNext(image[..], before, pass[..], p, w, h, outN, j, i);
        OfIsAffine(p, i, j);
        var outY, outX := j * YSpace(p) + YOrig(p), i * XSpace(p) + XOrig(p);
        Address(outX, outY, w, outN);
        assert Times(j, x) + i == Index(i, j, x) by { IndexIs(i, j, x); }
        var from, at := Times(Times(j, x) + i, outN), Times(Times(outY, w), outN) + Times(outX, outN);
        assert pass[from..from + outN] == pass[..][from..from + outN];
        CopyPixel(image, at, pass, from, outN);
        i := i + 1;
      }
      ScatterRow(image[..], before, pass[..], p, w, h, outN, j);
      j := j + 1;
    }
  }

  lemma IndexIs(x: nat, y: nat, w: nat)
    ensures Index(x, y, w) == Times(y, w) + x
  {}

  // ----- all seven passes

  /** Where the lines of pass p begin: empty passes have none. */
  function PassOffset(fmt: Format, w: nat, h: nat, p: nat): nat
    requires fmt.Valid() && 0 < w && 0 < h && p <= 7
  {
    if p == 0 then 0
    else
      var x, y := PassWidth(p - 1, w), PassHeight(p - 1, h);
      PassOffset(fmt, w, h, p - 1) + if x == 0 || y == 0 then 0 else Times(y, fmt.RowBytes(x) + 1)
  }

  predicate PassAccepted(raw: seq<byte>, fmt: Format, w: nat, h: nat, p: nat)
    requires fmt.Valid() && 0 < w && 0 < h && p < 7
  {
    var x, y, at := PassWidth(p, w), PassHeight(p, h), PassOffset(fmt, w, h, p);
    x == 0 || y == 0 || (at <= |raw| && Accepts(raw[at..], fmt, x, y, x == w && y == h))
  }

  /** The pixels that y lines of x pixels denote, over some former contents of the buffer. */
  ghost predicate Denotes(out: seq<byte>, junk: seq<byte>, raw: seq<byte>, fmt: Format, x: nat, y: nat)
    requires fmt.Valid() && 0 < x && Times(y, fmt.RowBytes(x) + 1) <= |raw| &&
             Decodable(LinesOf(raw, fmt.RowBytes(x), y))
  {
    && |out| == |junk| == Times(y, Times(x, fmt.outN))
    && (fmt.depth == 8 ==> out == ImageOf(raw, fmt.n, fmt.outN, x, y))
    && (fmt.depth < 8 ==> forall i :: 0 <= i < y ==> PackedResult(out, junk, raw, fmt, x, y, i))
  }

  /** What reconstruction makes of y lines of x pixels. */
  ghost predicate Created(out: seq<byte>, junk: seq<byte>, raw: seq<byte>, fmt: Format, x: nat, y: nat, exact: bool,
                          ok: bool)
    requires fmt.Valid() && 0 < x
  {
    && |out| == Times(y, Times(x, fmt.outN))
    && ok == Accepts(raw, fmt, x, y, exact)
    && (ok ==> Denotes(out, junk, raw, fmt, x, y))
  }

  /** out is the reduced image of pass p. */
  ghost predicate PassHolds(out: seq<byte>, raw: seq<byte>, fmt: Format, w: nat, h: nat, p: nat)
    requires fmt.Valid() && 0 < w && 0 < h && p < 7
  {
    var x, y, at := PassWidth(p, w), PassHeight(p, h), PassOffset(fmt, w, h, p);
    && |out| == Times(Times(y, x), fmt.outN)
    && (x > 0 && y > 0 ==>
          && PassAccepted(raw, fmt, w, h, p)
          && exists junk :: Denotes(out, junk, raw[at..], fmt, x, y))
  }

  /** Pixels of the passes before p are in place. */
  ghost predicate Collected(image: seq<byte>, passes: seq<seq<byte>>, raw: seq<byte>, fmt: Format, w: nat, h: nat)
    requires fmt.Valid() && 0 < w && 0 < h && |passes| <= 7 && |image| == Times(Times(h, w), fmt.outN)
  {
    && (forall p :: 0 <= p < |passes| ==> PassHolds(passes[p], raw, fmt, w, h, p))
    && (forall x, y | 0 <= x < w && 0 <= y < h ::
          PlaceOf(x, y).p < |passes| ==> Shows(image, passes[PlaceOf(x, y).p], w, h, fmt.outN, x, y))
  }

  lemma PassLength(out: seq<byte>, raw: seq<byte>, fmt: Format, w: nat, h: nat, p: nat)
    requires fmt.Valid() && 0 < w && 0 < h && p < 7 && PassHolds(out, raw, fmt, w, h, p)
    ensures |out| == Times(Times(PassHeight(p, h), PassWidth(p, w)), fmt.outN)
  {}

  lemma CollectNext(image: seq<byte>, before: seq<byte>, pass: seq<byte>, passes: seq<seq<byte>>, raw: seq<byte>,
    fmt: Format, w: nat, h: nat)
    requires fmt.Valid() && 0 < w && 0 < h && |passes| < 7 && |image| == |before| == Times(Times(h, w), fmt.outN)
    requires Collected(before, passes, raw, fmt, w, h) && PassHolds(pass, raw, fmt, w, h, |passes|)
    requires AllScattered(image, before, pass, |passes|, w, h, fmt.outN, PassHeight(|passes|, h), 0)
    ensures Collected(image, passes + [pass], raw, fmt, w, h)
  {
    hide Times, PassWidth, PassHeight, PlaceOf, PixelAt, PassHolds;
    var p := |passes|;
    var all := passes + [pass];
    PassLength(pass, raw, fmt, w, h, p);
    forall x, y | 0 <= x < w && 0 <= y < h && PlaceOf(x, y).p < |all|
      ensures var q := PlaceOf(x, y).p;
              |all[q]| == Times(Times(PassHeight(q, h), PassWidth(q, w)), fmt.outN) &&
              Shows(image, all[q], w, h, fmt.outN, x, y)
    {
      PassLength(all[PlaceOf(x, y).p], raw, fmt, w, h, PlaceOf(x, y).p);
      assert Scattered(image, before, pass, p, w, h, fmt.outN, PassHeight(p, h), 0, x, y);
      Partition(w, h, x, y, PlaceOf(x, y));
    }
  }

  lemma Associate(a: nat, b: nat, c: nat)
    ensures Times(Times(a, b), c) == Times(a, Times(b, c)) && Times(0, c) == 0 && Times(a, 0) == 0
  {}

  /** Reconstruct and distribute the passes one after the other. It fails exactly
      when a nonempty pass is not acceptable; otherwise every pixel of the image is
      the pixel at its place in its pass. */
  method Deinterlace(raw: seq<byte>, fmt: Format, w: nat, h: nat)
    returns (ok: bool, image: array<byte>, ghost passes: seq<seq<byte>>)
    requires fmt.Valid() && 0 < w && 0 < h
    ensures fresh(image) && image.Length == Times(Times(h, w), fmt.outN)
    ensures ok == forall p :: 0 <= p < 7 ==> PassAccepted(raw, fmt, w, h, p)
    ensures ok ==> |passes| == 7 && Collected(image[..], passes, raw, fmt, w, h)
  {
    hide Times, PassWidth, PassHeight, PlaceOf, PixelAt, PassHolds, Collected, AllScattered, Accepts, PassAccepted,
         Created;
    image := new byte[Times(Times(h, w), fmt.outN)];
    passes := [];
    var p, at := 0, 0;
    CollectNothing(image[..], raw, fmt, w, h);
    while p < 7
      invariant 0 <= p <= 7 && |passes| == p && at == PassOffset(fmt, w, h, p) <= |raw|
      invariant forall q :: 0 <= q < p ==> PassAccepted(raw, fmt, w, h, q)
      invariant Collected(image[..], passes, raw, fmt, w, h)
    {
      var x, y := PassWidth(p, w), PassHeight(p, h);
      Associate(y, x, fmt.outN);
      Associate(x, y, fmt.outN);
      if x != 0 && y != 0 {
        var out := new byte[Times(y, Times(x, fmt.outN))];
        ghost var junk := out[..];
        var exact := x == w && y == h;
        ok := CreateRaw(out, raw[at..], fmt, x, y, exact);
        IsCreated(out[..], junk, raw[at..], fmt, x, y, exact, ok);
        PassOutcome(out[..], junk, raw, fmt, w, h, p, ok);
        if !ok { return; }
        ghost var before := image[..];
        ScatterPass(image, out, p, w, h, fmt.outN);
        CollectNext(image[..], before, out[..], passes, raw, fmt, w, h);
        passes := passes + [out[..]];
        at := at + Times(y, fmt.RowBytes(x) + 1);
      } else {
        EmptyPass(image[..], passes, raw, fmt, w, h, p);
        passes := passes + [[]];
      }
      p := p + 1;
    }
    ok := true;
  }

  lemma CollectNothing(image: seq<byte>, raw: seq<byte>, fmt: Format, w: nat, h: nat)
    requires fmt.Valid() && 0 < w && 0 < h && |image| == Times(Times(h, w), fmt.outN)
    ensures Collected(image, [], raw, fmt, w, h)
  {}

  lemma IsCreated(out: seq<byte>, junk: seq<byte>, raw: seq<byte>, fmt: Format, x: nat, y: nat, exact: bool, ok: bool)
    requires fmt.Valid() && 0 < x && |out| == |junk| == Times(y, Times(x, fmt.outN))
    requires ok == Accepts(raw, fmt, x, y, exact)
    requires ok && fmt.depth == 8 ==> out == ImageOf(raw, fmt.n, fmt.outN, x, y)
    requires ok && fmt.depth < 8 ==> forall i :: 0 <= i < y ==> PackedResult(out, junk, raw, fmt, x, y, i)
    ensures Created(out, junk, raw, fmt, x, y, exact, ok)
  {
    hide Times, ImageOf, LinesOf, PackedResult, Decodable;
  }

  lemma PassOutcome(out: seq<byte>, junk: seq<byte>, raw: seq<byte>, fmt: Format, w: nat, h: nat, p: nat, ok: bool)
    requires fmt.Valid() && 0 < w && 0 < h && p < 7 && PassOffset(fmt, w, h, p) <= |raw|
    requires PassWidth(p, w) > 0 && PassHeight(p, h) > 0
    requires var x, y := PassWidth(p, w), PassHeight(p, h);
             Created(out, junk, raw[PassOffset(fmt, w, h, p)..], fmt, x, y, x == w && y == h, ok)
    ensures ok == PassAccepted(raw, fmt, w, h, p)
    ensures ok ==> PassHolds(out, raw, fmt, w, h, p)
    ensures ok ==> PassOffset(fmt, w, h, p) + Times(PassHeight(p, h), fmt.RowBytes(PassWidth(p, w)) + 1) <= |raw|
  {
    hide Times, PassWidth, PassHeight, Denotes, PassOffset, Decodable, LinesOf;
    Associate(PassHeight(p, h), PassWidth(p, w), fmt.outN);
  }

  lemma EmptyPass(image: seq<byte>, passes: seq<seq<byte>>, raw: seq<byte>, fmt: Format, w: nat, h: nat, p: nat)
    requires fmt.Valid() && 0 < w && 0 < h && p < 7 && |image| == Times(Times(h, w), fmt.outN) && p == |passes|
    requires PassWidth(p, w) == 0 || PassHeight(p, h) == 0
    requires Collected(image, passes, raw, fmt, w, h)
    ensures PassAccepted(raw, fmt, w, h, p)
    ensures Collected(image, passes + [[]], raw, fmt, w, h)
  {
    hide PassWidth, PassHeight, PlaceOf, PixelAt, Shows, PassOffset;
    var all := passes + [[]];
    assert PassHolds([], raw, fmt, w, h, p);
    forall x, y | 0 <= x < w && 0 <= y < h ensures PlaceOf(x, y).p != p {
      Partition(w, h, x, y, PlaceOf(x, y));
    }
    forall x, y | 0 <= x < w && 0 <= y < h && PlaceOf(x, y).p < |all|
      ensures var q := PlaceOf(x, y).p;
              |all[q]| == Times(Times(PassHeight(q, h), PassWidth(q, w)), fmt.outN) &&
              Shows(image, all[q], w, h, fmt.outN, x, y)
    {
      assert all[PlaceOf(x, y).p] == passes[PlaceOf(x, y).p];
    }
  }
}
