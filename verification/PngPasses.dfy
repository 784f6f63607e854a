/** The seven passes of an interlaced image as lists of lines, one behind the
    other, and how the decoder finds them. */
module PngPasses {
  import opened Products
  import opened Bits
  import opened PngLines
  import opened PngRaw
  import opened Adam7
  import opened PngInterlace

  /** Pass p has pixels. */
  predicate Nonempty(w: nat, h: nat, p: nat)
    requires p < 7 && 0 < w && 0 < h
  {
    PassWidth(p, w) > 0 && PassHeight(p, h) > 0
  }

  /** The lines of every nonempty pass have its size. */
  predicate Fitting(parts: seq<seq<Line>>, fmt: Format, w: nat, h: nat)
    requires fmt.Valid() && 0 < w && 0 < h
  {
    |parts| == 7 && forall p: nat :: p < 7 && Nonempty(w, h, p) ==> PartFits(parts[p], fmt, w, h, p)
  }

  predicate PartFits(part: seq<Line>, fmt: Format, w: nat, h: nat, p: nat)
    requires fmt.Valid() && 0 < w && 0 < h && p < 7
  {
    |part| == PassHeight(p, h) && Decodable(part) && UniformLines(part, fmt.RowBytes(PassWidth(p, w)))
  }

  /** The bytes of pass p; empty passes have none. */
  function PassBytes(parts: seq<seq<Line>>, w: nat, h: nat, p: nat): seq<byte>
    requires p < 7 && 0 < w && 0 < h && |parts| == 7
  {
    if Nonempty(w, h, p) then Serialize(parts[p]) else []
  }

  /** The passes from a number on. */
  function Stream(parts: seq<seq<Line>>, w: nat, h: nat, from: nat): seq<byte>
    requires from <= 7 && 0 < w && 0 < h && |parts| == 7
    decreases 7 - from
  {
    if from == 7 then [] else PassBytes(parts, w, h, from) + Stream(parts, w, h, from + 1)
  }

  lemma StreamNext(parts: seq<seq<Line>>, w: nat, h: nat, p: nat)
    requires p < 7 && 0 < w && 0 < h && |parts| == 7
    ensures Stream(parts, w, h, p) == PassBytes(parts, w, h, p) + Stream(parts, w, h, p + 1)
  {
    hide PassBytes;
  }

  // ----- a pass as large as the image is the only one

  lemma WholePass(w: nat, h: nat, p: nat, q: nat)
    requires 0 < w && 0 < h && p < 7 && PassWidth(p, w) == w && PassHeight(p, h) == h && p < q < 7
    ensures !Nonempty(w, h, q)
  {}

  lemma {:induction false} EmptyTail(parts: seq<seq<Line>>, w: nat, h: nat, from: nat)
    requires from <= 7 && 0 < w && 0 < h && |parts| == 7
    requires forall q :: from <= q < 7 ==> !Nonempty(w, h, q)
    ensures Stream(parts, w, h, from) == []
    decreases 7 - from
  {
    hide Nonempty;
    if from < 7 { EmptyTail(parts, w, h, from + 1); }
  }

  lemma RestOfOnlyPass(parts: seq<seq<Line>>, w: nat, h: nat, p: nat)
    requires p < 7 && 0 < w && 0 < h && |parts| == 7
    requires PassWidth(p, w) == w && PassHeight(p, h) == h
    ensures Stream(parts, w, h, p + 1) == []
  {
    hide Nonempty, PassWidth, PassHeight;
    forall q | p + 1 <= q < 7 ensures !Nonempty(w, h, q) { WholePass(w, h, p, q); }
    EmptyTail(parts, w, h, p + 1);
  }

  // ----- finding the passes

  lemma OffsetNext(parts: seq<seq<Line>>, fmt: Format, w: nat, h: nat, p: nat)
    requires fmt.Valid() && p < 7 && 0 < w && 0 < h && Fitting(parts, fmt, w, h)
    ensures PassOffset(fmt, w, h, p + 1) == PassOffset(fmt, w, h, p) + |PassBytes(parts, w, h, p)|
  {
    hide PassWidth, PassHeight, Times, Serialize, Format.RowBytes;
    if Nonempty(w, h, p) {
      assert PartFits(parts[p], fmt, w, h, p);
      LinesOfSerialized(parts[p], fmt.RowBytes(PassWidth(p, w)), []);
    }
  }

  lemma StreamStep(raw: seq<byte>, at: nat, part: seq<byte>, rest: seq<byte>)
    requires at <= |raw| && raw[at..] == part + rest
    ensures at + |part| <= |raw| && raw[at + |part|..] == rest
  {
    assert raw[at + |part|..] == raw[at..][|part|..];
  }

  /** The decoder looks for pass p where it begins. */
  lemma {:induction false} PassStream(parts: seq<seq<Line>>, fmt: Format, w: nat, h: nat, p: nat)
    requires fmt.Valid() && p <= 7 && 0 < w && 0 < h && Fitting(parts, fmt, w, h)
    ensures var raw, at := Stream(parts, w, h, 0), PassOffset(fmt, w, h, p);
            at <= |raw| && raw[at..] == Stream(parts, w, h, p)
    decreases p
  {
    hide PassWidth, PassHeight, Times, PassBytes, Stream, Fitting;
    PartsCount(parts, fmt, w, h);
    if p > 0 {
      PassStream(parts, fmt, w, h, p - 1);
      OffsetNext(parts, fmt, w, h, p - 1);
      StreamNext(parts, w, h, p - 1);
      StreamStep(Stream(parts, w, h, 0), PassOffset(fmt, w, h, p - 1), PassBytes(parts, w, h, p - 1),
                 Stream(parts, w, h, p));
    }
  }

  lemma PartsCount(parts: seq<seq<Line>>, fmt: Format, w: nat, h: nat)
    requires fmt.Valid() && 0 < w && 0 < h && Fitting(parts, fmt, w, h)
    ensures |parts| == 7
  {}

  /** Every pass is accepted, and has the lines that were put there. */
  lemma PassFound(parts: seq<seq<Line>>, fmt: Format, w: nat, h: nat, p: nat)
    requires fmt.Valid() && p < 7 && 0 < w && 0 < h && Fitting(parts, fmt, w, h)
    ensures var raw, x, y, at := Stream(parts, w, h, 0), PassWidth(p, w), PassHeight(p, h), PassOffset(fmt, w, h, p);
            && PassAccepted(raw, fmt, w, h, p)
            && (Nonempty(w, h, p) ==>
                  && at <= |raw| && Times(y, fmt.RowBytes(x) + 1) <= |raw[at..]|
                  && LinesOf(raw[at..], fmt.RowBytes(x), y) == parts[p])
  {
    hide PassWidth, PassHeight, Times, Serialize, PassOffset, LinesOf, Decodable, UniformLines, Stream, Format.RowBytes;
    var x, y := PassWidth(p, w), PassHeight(p, h);
    PassStream(parts, fmt, w, h, p);
    if Nonempty(w, h, p) {
      assert PartFits(parts[p], fmt, w, h, p);
      StreamNext(parts, w, h, p);
      if x == w && y == h { RestOfOnlyPass(parts, w, h, p); }
      LinesOfSerialized(parts[p], fmt.RowBytes(x), Stream(parts, w, h, p + 1));
    }
  }
}
