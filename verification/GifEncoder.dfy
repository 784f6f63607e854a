/** Every encoder of GIF89a Appendix F, and the proof that its rasters are decoded
    to their pixels. */
module GifEncoder {
  import opened Options
  import opened Bits
  import opened BitStream
  import opened BitStrings
  import opened GifLzw
  import opened GifStandard

  // ----- the encoder's dictionary

  /** Behind a string w the encoder adds w with the next pixel, while there is room. */
  function Grown(dict: seq<seq<byte>>, w: seq<byte>, rest: seq<byte>): seq<seq<byte>> {
    if rest == [] || |dict| >= 4096 then dict else dict + [w + [rest[0]]]
  }

  /** The code stands for a string that the pixels begin with. */
  predicate Emits(dict: seq<seq<byte>>, clear: nat, code: nat, pixels: seq<byte>) {
    Live(clear, |dict|, code) && dict[code] != [] && dict[code] <= pixels
  }

  /** The codes cut the pixels into strings of the dictionary, with clear codes
      anywhere between them. */
  predicate Parses(codes: seq<nat>, cs: nat, dict: seq<seq<byte>>, pixels: seq<byte>)
    requires 2 <= cs <= 8
    decreases |codes|
  {
    if codes == [] then pixels == []
    else if codes[0] == Clear(cs) then Parses(codes[1..], cs, Base(cs), pixels)
    else
      Emits(dict, Clear(cs), codes[0], pixels) &&
      var w := dict[codes[0]];
      Parses(codes[1..], cs, Grown(dict, w, pixels[|w|..]), pixels[|w|..])
  }

  /** The codes and the end code, every one as wide as the dictionary asks for. */
  function CodesBits(codes: seq<nat>, cs: nat, width: nat, dict: seq<seq<byte>>, pixels: seq<byte>): seq<bool>
    requires 2 <= cs <= 8 && Parses(codes, cs, dict, pixels)
    decreases |codes|
  {
    if codes == [] then NumBits(Clear(cs) + 1, width)
    else if codes[0] == Clear(cs) then
      NumBits(Clear(cs), width) + CodesBits(codes[1..], cs, cs + 1, Base(cs), pixels)
    else
      var w := dict[codes[0]];
      NumBits(codes[0], width) +
      CodesBits(codes[1..], cs, NextWidth(|dict|, width), Grown(dict, w, pixels[|w|..]), pixels[|w|..])
  }

  /** A code is emitted after one whose string found no room in the dictionary. */
  predicate Overruns(codes: seq<nat>, cs: nat, dict: seq<seq<byte>>, pixels: seq<byte>, stuck: bool)
    requires 2 <= cs <= 8 && Parses(codes, cs, dict, pixels)
    decreases |codes|
  {
    if codes == [] then false
    else if codes[0] == Clear(cs) then Overruns(codes[1..], cs, Base(cs), pixels, false)
    else
      var w := dict[codes[0]];
      stuck || Overruns(codes[1..], cs, Grown(dict, w, pixels[|w|..]), pixels[|w|..], |dict| >= 4096)
  }

  /** A clear code, or a code for the first pixels. */
  lemma ParseStep(codes: seq<nat>, cs: nat, dict: seq<seq<byte>>, pixels: seq<byte>)
    requires 2 <= cs <= 8 && codes != []
    ensures Parses(codes, cs, dict, pixels) <==>
            if codes[0] == Clear(cs) then Parses(codes[1..], cs, Base(cs), pixels)
            else
              Emits(dict, Clear(cs), codes[0], pixels) &&
              var w := dict[codes[0]];
              Parses(codes[1..], cs, Grown(dict, w, pixels[|w|..]), pixels[|w|..])
  {
    hide Clear, Base, Grown;
  }

  lemma ParsedStep(codes: seq<nat>, cs: nat, width: nat, dict: seq<seq<byte>>, pixels: seq<byte>, stuck: bool)
    requires 2 <= cs <= 8 && codes != [] && Parses(codes, cs, dict, pixels)
    ensures codes[0] == Clear(cs) ==>
              && Parses(codes[1..], cs, Base(cs), pixels)
              && CodesBits(codes, cs, width, dict, pixels) ==
                 NumBits(Clear(cs), width) + CodesBits(codes[1..], cs, cs + 1, Base(cs), pixels)
              && Overruns(codes, cs, dict, pixels, stuck) == Overruns(codes[1..], cs, Base(cs), pixels, false)
    ensures codes[0] != Clear(cs) ==>
              && Emits(dict, Clear(cs), codes[0], pixels)
              && var w := dict[codes[0]];
              && var rest := pixels[|w|..];
              && var grown := Grown(dict, w, rest);
              && Parses(codes[1..], cs, grown, rest)
              && CodesBits(codes, cs, width, dict, pixels) ==
                 NumBits(codes[0], width) + CodesBits(codes[1..], cs, NextWidth(|dict|, width), grown, rest)
              && Overruns(codes, cs, dict, pixels, stuck) ==
                 (stuck || Overruns(codes[1..], cs, grown, rest, |dict| >= 4096))
  {
    hide Clear, Base, Grown, NextWidth, NumBits;
  }

  // ----- the decoder follows one entry behind

  /** The encoder's dictionary is the decoder's with the entry that the next pixel completes. */
  ghost predicate Follows(d: seq<seq<byte>>, last: int, dict: seq<seq<byte>>, clear: nat, pixels: seq<byte>) {
    && |d| <= 4096 && Dictionary(d, clear)
    && (last >= 0 ==> Live(clear, |d|, last))
    && dict == if last >= 0 then Grown(d, d[last], pixels) else d
  }

  /** After a code the decoder has the dictionary that the encoder had before it. */
  lemma StepFollows(d: seq<seq<byte>>, last: int, dict: seq<seq<byte>>, clear: nat, pixels: seq<byte>, code: nat)
    requires Follows(d, last, dict, clear, pixels) && Emits(dict, clear, code, pixels)
    ensures code < |d| ==> d[code] != []
    ensures StandardStep(d, last, true, code) == Some((dict, dict[code]))
    ensures Follows(dict, code, Grown(dict, dict[code], pixels[|dict[code]|..]), clear, pixels[|dict[code]|..])
  {
    assert pixels[0] == dict[code][0];
    if last >= 0 && |d| < 4096 {
      if code < |d| {
        assert dict[code] == d[code];
      } else {
        assert dict[code] == d[last] + [pixels[0]];
        assert pixels[0] == d[last][0];
      }
    }
  }

  lemma FollowsShape(d: seq<seq<byte>>, last: int, dict: seq<seq<byte>>, clear: nat, pixels: seq<byte>)
    requires Follows(d, last, dict, clear, pixels)
    ensures |d| <= 4096 && Dictionary(d, clear) && (last >= 0 ==> Live(clear, |d|, last))
  {}

  lemma CodeFits(d: seq<seq<byte>>, last: int, dict: seq<seq<byte>>, clear: nat, pixels: seq<byte>, width: nat)
    requires Follows(d, last, dict, clear, pixels) && Reached(|d|, width)
    ensures |dict| <= Shl(1, width) && clear + 1 < Shl(1, width)
    ensures |dict| <= 4096 && Reached(|dict|, NextWidth(|dict|, width))
  {
    TwelveBits();
    assert Shl(1, width + 1) == 2 * Shl(1, width);
    if width < 12 { ShlShl(1, width, 12 - width); WidthBelow(width); }
  }

  lemma {:induction false} WidthBelow(width: nat)
    requires width < 12
    ensures Shl(1, width) < 4096
    decreases 12 - width
  {
    TwelveBits();
    assert Shl(1, width + 1) == 2 * Shl(1, width);
    if width < 11 { WidthBelow(width + 1); }
    ShlNonNegative(1, width);
  }

  /** The decoder of the standard gives the pixels of every parse back, and the
      table is overfull exactly where the parse overruns. */
  lemma {:induction false} DecodeInverts(D: seq<byte>, cs: nat, p: nat, width: nat, d: seq<seq<byte>>, last: int,
                                         done: seq<byte>, dict: seq<seq<byte>>, codes: seq<nat>, pixels: seq<byte>)
    requires 2 <= cs <= 8 && Follows(d, last, dict, Clear(cs), pixels) && Reached(|d|, width)
    requires Parses(codes, cs, dict, pixels) && At(D, p, CodesBits(codes, cs, width, dict, pixels))
    ensures StandardDecode(D, cs, p, width, d, last, true, done) == Pixels(done + pixels)
    ensures Overfull(D, cs, p, width, d, last, true) <==>
            Overruns(codes, cs, dict, pixels, last >= 0 && |d| >= 4096)
    decreases |codes|
  {
    hide At, Window, NextWidth, Reached, Base, Clear, Shl, StandardDecode, Overfull, StandardStep, Dictionary, Follows,
         Grown, Parses, CodesBits, Overruns;
    var clear := Clear(cs);
    FollowsShape(d, last, dict, clear, pixels);
    CodeFits(d, last, dict, clear, pixels, width);
    ReachedBound(|d|, width);
    AtFits(D, p, CodesBits(codes, cs, width, dict, pixels));
    Round(D, cs, p, width, d, last, done);
    if codes == [] {
      ParseEnds(cs, width, dict, pixels, last >= 0 && |d| >= 4096);
      NumAt(D, p, clear + 1, width);
      assert done + pixels == done;
      return;
    }
    ParsedStep(codes, cs, width, dict, pixels, last >= 0 && |d| >= 4096);
    if codes[0] == clear {
      AtSplit(D, p, NumBits(clear, width), CodesBits(codes[1..], cs, cs + 1, Base(cs), pixels));
      NumAt(D, p, clear, width);
      BaseFollows(cs, pixels);
      DecodeInverts(D, cs, p + width, cs + 1, Base(cs), -1, done, Base(cs), codes[1..], pixels);
    } else {
      var w := dict[codes[0]];
      var rest, next := pixels[|w|..], NextWidth(|dict|, width);
      AtSplit(D, p, NumBits(codes[0], width), CodesBits(codes[1..], cs, next, Grown(dict, w, rest), rest));
      NumAt(D, p, codes[0], width);
      StepFollows(d, last, dict, clear, pixels, codes[0]);
      DataRound(D, cs, p, width, d, last, done, codes[0], dict);
      DecodeInverts(D, cs, p + width, next, dict, codes[0], done + w, Grown(dict, w, rest), codes[1..], rest);
      assert done + w + rest == done + pixels;
    }
  }

  lemma ParseEnds(cs: nat, width: nat, dict: seq<seq<byte>>, pixels: seq<byte>, stuck: bool)
    requires 2 <= cs <= 8 && Parses([], cs, dict, pixels)
    ensures pixels == [] && CodesBits([], cs, width, dict, pixels) == NumBits(Clear(cs) + 1, width)
    ensures !Overruns([], cs, dict, pixels, stuck)
  {}

  /** One code of the standard's decoder. */
  lemma Round(D: seq<byte>, cs: nat, p: nat, width: nat, d: seq<seq<byte>>, last: int, done: seq<byte>)
    requires 2 <= cs <= 8 && width > 0 && Dictionary(d, Clear(cs))
    requires last >= 0 ==> Live(Clear(cs), |d|, last)
    ensures var code := Window(D, p, width);
            p + width <= 8 * |D| ==>
              && (code == Clear(cs) ==>
                    && StandardDecode(D, cs, p, width, d, last, true, done) ==
                       StandardDecode(D, cs, p + width, cs + 1, Base(cs), -1, true, done)
                    && Overfull(D, cs, p, width, d, last, true) ==
                       Overfull(D, cs, p + width, cs + 1, Base(cs), -1, true))
              && (code == Clear(cs) + 1 ==>
                    && StandardDecode(D, cs, p, width, d, last, true, done) == Pixels(done)
                    && !Overfull(D, cs, p, width, d, last, true))
  {
    hide Window;
  }

  lemma DataRound(D: seq<byte>, cs: nat, p: nat, width: nat, d: seq<seq<byte>>, last: int, done: seq<byte>,
                  code: nat, dict: seq<seq<byte>>)
    requires 2 <= cs <= 8 && width > 0 && Dictionary(d, Clear(cs))
    requires last >= 0 ==> Live(Clear(cs), |d|, last)
    requires p + width <= 8 * |D| && Window(D, p, width) == code && code != Clear(cs) && code != Clear(cs) + 1
    requires code < |d| ==> d[code] != []
    requires Dictionary(dict, Clear(cs)) && Live(Clear(cs), |dict|, code)
    requires StandardStep(d, last, true, code) == Some((dict, dict[code]))
    ensures 0 < NextWidth(|dict|, width)
    ensures var next := NextWidth(|dict|, width);
            && StandardDecode(D, cs, p, width, d, last, true, done) ==
               StandardDecode(D, cs, p + width, next, dict, code, true, done + dict[code])
            && Overfull(D, cs, p, width, d, last, true) ==
               ((last >= 0 && |d| >= 4096) || Overfull(D, cs, p + width, next, dict, code, true))
  {
    hide Window, StandardStep;
  }

  lemma BaseFollows(cs: nat, pixels: seq<byte>)
    requires 2 <= cs <= 8
    ensures Follows(Base(cs), -1, Base(cs), Clear(cs), pixels) && Reached(|Base(cs)|, cs + 1)
  {
    BaseReached(cs);
  }

  // ----- rasters

  /** The codes of a raster: a clear code, those of the parse, the end code. */
  function RasterBits(cs: nat, codes: seq<nat>, pixels: seq<byte>): seq<bool>
    requires 2 <= cs <= 8 && Parses(codes, cs, Base(cs), pixels)
  {
    NumBits(Clear(cs), cs + 1) + CodesBits(codes, cs, cs + 1, Base(cs), pixels)
  }

  predicate AreBlocks(blocks: seq<seq<byte>>) {
    forall i :: 0 <= i < |blocks| ==> 0 < |blocks[i]| <= 255
  }

  /** Sub-blocks, each behind its length, and the empty one behind the last. */
  function Blocked(blocks: seq<seq<byte>>): seq<byte>
    requires AreBlocks(blocks)
  {
    if blocks == [] then [0] else [|blocks[0]|] + blocks[0] + Blocked(blocks[1..])
  }

  function Joined(blocks: seq<seq<byte>>): seq<byte> {
    if blocks == [] then [] else blocks[0] + Joined(blocks[1..])
  }

  lemma {:induction false} BlockRead(S: seq<byte>, pos: nat, block: seq<byte>)
    requires pos + |block| <= |S| && S[pos..pos + |block|] == block
    ensures SubBlocks(S, pos, |block|) == block + SubBlocks(S, pos + |block|, 0)
    decreases |block|
  {
    hide SubBlocks;
    if block == [] {
      assert [] + SubBlocks(S, pos, 0) == SubBlocks(S, pos, 0);
    } else {
      assert S[pos] == S[pos..pos + |block|][0] == block[0];
      assert S[pos + 1..pos + 1 + |block[1..]|] == block[1..] by {
        SliceTail(S, pos, block);
      }
      BlockRead(S, pos + 1, block[1..]);
      BlockByte(S, pos, |block|);
      assert [block[0]] + (block[1..] + SubBlocks(S, pos + |block|, 0)) == block + SubBlocks(S, pos + |block|, 0);
    }
  }

  lemma BlockByte(S: seq<byte>, pos: nat, len: nat)
    requires len > 0
    ensures SubBlocks(S, pos, len) == [ByteAt(S, pos)] + SubBlocks(S, pos + 1, len - 1)
  {}

  lemma SliceTail(S: seq<byte>, pos: nat, block: seq<byte>)
    requires block != [] && pos + |block| <= |S| && S[pos..pos + |block|] == block
    ensures S[pos + 1..pos + |block|] == block[1..]
  {
    assert S[pos + 1..pos + |block|] == S[pos..pos + |block|][1..];
  }

  /** The sub-blocks are read as one string. */
  lemma {:induction false} BlocksRead(prefix: seq<byte>, blocks: seq<seq<byte>>, rest: seq<byte>)
    requires AreBlocks(blocks)
    ensures SubBlocks(prefix + Blocked(blocks) + rest, |prefix|, 0) == Joined(blocks)
    decreases |blocks|
  {
    hide SubBlocks;
    if blocks == [] {
      LastBlock(prefix, rest);
    } else {
      var b, tail := blocks[0], Blocked(blocks[1..]) + rest;
      var longer := prefix + ([|b|] + b);
      Regroup(prefix, [|b|] + b, Blocked(blocks[1..]), rest);
      FirstBlock(prefix, b, tail);
      BlocksRead(longer, blocks[1..], rest);
    }
  }

  lemma Regroup(a: seq<byte>, b: seq<byte>, c: seq<byte>, d: seq<byte>)
    ensures a + (b + c) + d == a + b + (c + d) && a + b + (c + d) == a + b + c + d
  {
    assert a + (b + c) == a + b + c;
    assert a + b + c + d == a + b + (c + d);
  }

  lemma LastBlock(prefix: seq<byte>, rest: seq<byte>)
    ensures SubBlocks(prefix + [0] + rest, |prefix|, 0) == []
  {
    assert (prefix + [0] + rest)[|prefix|] == 0;
  }

  lemma FirstBlock(prefix: seq<byte>, b: seq<byte>, tail: seq<byte>)
    requires 0 < |b| <= 255
    ensures var S, longer := prefix + ([|b|] + b) + tail, prefix + ([|b|] + b);
            SubBlocks(S, |prefix|, 0) == b + SubBlocks(S, |longer|, 0)
  {
    var S, n := prefix + ([|b|] + b) + tail, |prefix|;
    assert S[n] == |b| && S[n + 1..n + 1 + |b|] == b;
    assert SubBlocks(S, n, 0) == SubBlocks(S, n + 1, |b|);
    BlockRead(S, n + 1, b);
  }

  /** The raster of any encoder: every parse of the pixels, its bits in sub-blocks
      of any lengths, anything behind. The decoder of the standard gives the pixels
      back; the code does exactly if the parse does not overrun the table, and
      calls the raster corrupt otherwise. */
  lemma RasterRoundTrip(cs: byte, codes: seq<nat>, pixels: seq<byte>, blocks: seq<seq<byte>>, rest: seq<byte>)
    requires 2 <= cs <= 8 && Parses(codes, cs, Base(cs), pixels) && AreBlocks(blocks)
    requires At(Joined(blocks), 0, RasterBits(cs, codes, pixels))
    ensures var S := [cs] + Blocked(blocks) + rest;
            && ByteAt(S, 0) == cs
            && StandardRaster(S) == Pixels(pixels)
            && OverfullRaster(S) == Overruns(codes, cs, Base(cs), pixels, false)
            && Raster(S) == if Overruns(codes, cs, Base(cs), pixels, false) then Corrupt else Pixels(pixels)
  {
    hide At, Parses, RasterBits, Overruns, SubBlocks, StandardRaster, OverfullRaster, Raster;
    var S, D := [cs] + Blocked(blocks) + rest, Joined(blocks);
    BlocksRead([cs], blocks, rest);
    DataRoundTrip(D, cs, codes, pixels);
    RasterIs(S, D, cs);
    RasterExact(S);
  }

  lemma RasterIs(S: seq<byte>, D: seq<byte>, cs: nat)
    requires 2 <= cs <= 8 && ByteAt(S, 0) == cs && SubBlocks(S, 1, 0) == D
    ensures StandardRaster(S) == StandardDecode(D, cs, 0, cs + 1, Base(cs), -1, false, [])
    ensures OverfullRaster(S) == Overfull(D, cs, 0, cs + 1, Base(cs), -1, false)
  {
    hide StandardDecode, Overfull, SubBlocks;
  }

  lemma DataRoundTrip(D: seq<byte>, cs: nat, codes: seq<nat>, pixels: seq<byte>)
    requires 2 <= cs <= 8 && Parses(codes, cs, Base(cs), pixels) && At(D, 0, RasterBits(cs, codes, pixels))
    ensures StandardDecode(D, cs, 0, cs + 1, Base(cs), -1, false, []) == Pixels(pixels)
    ensures Overfull(D, cs, 0, cs + 1, Base(cs), -1, false) == Overruns(codes, cs, Base(cs), pixels, false)
  {
    hide At, Window, StandardDecode, Overfull, Base, Clear, Shl, Parses, CodesBits, Overruns;
    var head, tail := NumBits(Clear(cs), cs + 1), CodesBits(codes, cs, cs + 1, Base(cs), pixels);
    AtSplit(D, 0, head, tail);
    AtFits(D, 0, head + tail);
    ClearFits(cs);
    NumAt(D, 0, Clear(cs), cs + 1);
    StartRound(D, cs);
    BaseFollows(cs, pixels);
    DecodeInverts(D, cs, cs + 1, cs + 1, Base(cs), -1, [], Base(cs), codes, pixels);
    assert [] + pixels == pixels;
  }

  lemma ClearFits(cs: nat)
    requires 2 <= cs <= 8
    ensures Clear(cs) < Shl(1, cs + 1)
  {
    assert Shl(1, cs + 1) == 2 * Shl(1, cs);
  }

  /** A clear code starts the decoder. */
  lemma StartRound(D: seq<byte>, cs: nat)
    requires 2 <= cs <= 8 && cs + 1 <= 8 * |D| && Window(D, 0, cs + 1) == Clear(cs)
    ensures StandardDecode(D, cs, 0, cs + 1, Base(cs), -1, false, []) ==
            StandardDecode(D, cs, cs + 1, cs + 1, Base(cs), -1, true, [])
    ensures Overfull(D, cs, 0, cs + 1, Base(cs), -1, false) == Overfull(D, cs, cs + 1, cs + 1, Base(cs), -1, true)
  {
    hide Window;
  }

  // ----- compressors

  /** Data cut into the longest sub-blocks. */
  function Chunked(D: seq<byte>): (blocks: seq<seq<byte>>)
    ensures AreBlocks(blocks)
  {
    if D == [] then [] else if |D| <= 255 then [D] else [D[..255]] + Chunked(D[255..])
  }

  lemma {:induction false} JoinedChunks(D: seq<byte>)
    ensures Joined(Chunked(D)) == D
    decreases |D|
  {
    if |D| > 255 { JoinedChunks(D[255..]); }
  }

  /** The raster of a parse, with its bits packed into bytes. */
  function Compress(cs: byte, codes: seq<nat>, pixels: seq<byte>): (S: seq<byte>)
    requires 2 <= cs <= 8 && Parses(codes, cs, Base(cs), pixels)
    ensures S != [] && S[0] == cs
  {
    [cs] + Blocked(Chunked(Pack(RasterBits(cs, codes, pixels))))
  }

  lemma CompressRoundTrip(cs: byte, codes: seq<nat>, pixels: seq<byte>)
    requires 2 <= cs <= 8 && Parses(codes, cs, Base(cs), pixels)
    ensures var S := Compress(cs, codes, pixels);
            && StandardRaster(S) == Pixels(pixels)
            && Raster(S) == if Overruns(codes, cs, Base(cs), pixels, false) then Corrupt else Pixels(pixels)
  {
    hide At, Parses, RasterBits, Pack, Overruns, StandardRaster, Raster, Blocked, Joined, Chunked;
    var bits := RasterBits(cs, codes, pixels);
    PackAt([], bits);
    assert [] + Pack(bits) == Pack(bits);
    JoinedChunks(Pack(bits));
    RasterRoundTrip(cs, codes, pixels, Chunked(Pack(bits)), []);
    assert Compress(cs, codes, pixels) + [] == Compress(cs, codes, pixels);
  }

  /** A clear code in front of every pixel. */
  function Plain(cs: nat, pixels: seq<byte>): seq<nat>
    requires 2 <= cs <= 8
  {
    if pixels == [] then [] else [Clear(cs), pixels[0] as nat] + Plain(cs, pixels[1..])
  }

  /** All pixels of the palette have a parse that never overruns the table. */
  lemma {:induction false} PlainParses(cs: nat, pixels: seq<byte>, dict: seq<seq<byte>>, stuck: bool)
    requires 2 <= cs <= 8 && forall i :: 0 <= i < |pixels| ==> (pixels[i] as nat) < Clear(cs)
    ensures Parses(Plain(cs, pixels), cs, dict, pixels) && !Overruns(Plain(cs, pixels), cs, dict, pixels, stuck)
    decreases |pixels|
  {
    hide Parses, Overruns, Base, Grown, Clear, Emits;
    if pixels == [] {
      NothingParses(cs, dict, stuck);
    } else {
      var c: nat, base, rest := pixels[0], Base(cs), pixels[1..];
      SingleEmits(cs, c, pixels);
      PlainParses(cs, rest, Grown(base, [pixels[0]], rest), |base| >= 4096);
      PixelParses(cs, c, pixels, Plain(cs, rest), dict, stuck);
    }
  }

  /** A clear code and a code for the first pixel, before a parse of the others. */
  lemma PixelParses(cs: nat, c: nat, pixels: seq<byte>, codes: seq<nat>, dict: seq<seq<byte>>, stuck: bool)
    requires 2 <= cs <= 8 && pixels != [] && c == pixels[0] && c < Clear(cs)
    requires Parses(codes, cs, Grown(Base(cs), [pixels[0]], pixels[1..]), pixels[1..])
    requires !Overruns(codes, cs, Grown(Base(cs), [pixels[0]], pixels[1..]), pixels[1..], |Base(cs)| >= 4096)
    ensures var all := [Clear(cs), c] + codes;
            Parses(all, cs, dict, pixels) && !Overruns(all, cs, dict, pixels, stuck)
  {
    hide Parses, Overruns, CodesBits, Base, Grown, Clear, Emits;
    SingleEmits(cs, c, pixels);
    var one, all := [c] + codes, [Clear(cs), c] + codes;
    assert all[1..] == one && one[1..] == codes;
    ParseStep(one, cs, Base(cs), pixels);
    ParseStep(all, cs, dict, pixels);
    ParsedStep(one, cs, 0, Base(cs), pixels, false);
    ParsedStep(all, cs, 0, dict, pixels, stuck);
  }

  lemma NothingParses(cs: nat, dict: seq<seq<byte>>, stuck: bool)
    requires 2 <= cs <= 8
    ensures Parses([], cs, dict, []) && !Overruns([], cs, dict, [], stuck)
  {}

  lemma SingleEmits(cs: nat, c: nat, pixels: seq<byte>)
    requires 2 <= cs <= 8 && pixels != [] && c == pixels[0] && c < Clear(cs)
    ensures Emits(Base(cs), Clear(cs), c, pixels) && Base(cs)[c] == [pixels[0]] && c != Clear(cs)
  {}

  // ----- a raster that fills the table

  function Zeros(n: nat): seq<nat> { seq(n, _ => 0) }

  function ZeroPixels(n: nat): seq<byte> { seq(n, _ => 0) }

  /** One code for every pixel adds an entry each, until the table is full. */
  lemma {:induction false} ZerosOverrun(n: nat, cs: nat, dict: seq<seq<byte>>, stuck: bool)
    requires 2 <= cs <= 8 && Clear(cs) + 2 <= |dict| <= 4096 && dict[0] == [0]
    ensures Parses(Zeros(n), cs, dict, ZeroPixels(n))
    ensures Overruns(Zeros(n), cs, dict, ZeroPixels(n), stuck) <==> n > 0 && (stuck || n >= 4096 - |dict| + 2)
    decreases n
  {
    if n > 0 {
      var rest := ZeroPixels(n - 1);
      assert Zeros(n)[1..] == Zeros(n - 1) && ZeroPixels(n)[1..] == rest;
      assert Emits(dict, Clear(cs), 0, ZeroPixels(n));
      ZerosOverrun(n - 1, cs, Grown(dict, [0], rest), |dict| >= 4096);
    }
  }

  /** A conforming raster that the code calls corrupt: 3840 pixels, a code each. */
  lemma FullTableInput() returns (S: seq<byte>)
    ensures ByteAt(S, 0) == 8 && OverfullRaster(S)
    ensures StandardRaster(S) == Pixels(ZeroPixels(3840)) && Raster(S) == Corrupt
  {
    var n := 3840;
    hide ZeroPixels, Zeros, Parses, Overruns, Compress, StandardRaster, Raster, OverfullRaster;
    var cs: byte := 8;
    assert Clear(8) == 256 by { EightBits(); }
    ZerosOverrun(n, 8, Base(8), false);
    S := Compress(cs, Zeros(n), ZeroPixels(n));
    CompressRoundTrip(cs, Zeros(n), ZeroPixels(n));
    RasterExact(S);
  }

  lemma EightBits()
    ensures Clear(8) == 256
  {
    assert Shl(1, 8) == 16 * Shl(1, 4) == 256;
  }
}
