/** What GIF89a Appendix F asks of a raster, a decoder that goes on with a full
    table, and where the code meets it. */
module GifStandard {
  import opened Options
  import opened Bits
  import opened BitStream
  import opened GifLzw

  // ----- the decoder of the standard

  /** A code of the standard: to a full table nothing is added. */
  function StandardStep(dict: seq<seq<byte>>, last: int, started: bool, code: nat):
    (r: Option<(seq<seq<byte>>, seq<byte>)>)
    requires last >= 0 ==> last < |dict| && dict[last] != []
    requires code < |dict| ==> dict[code] != []
  {
    if !started || code > |dict| then None
    else if last < 0 || |dict| >= 4096 then if code < |dict| then Some((dict, dict[code])) else None
    else if code < |dict| then Some((dict + [dict[last] + [dict[code][0]]], dict[code]))
    else
      var entry := dict[last] + [dict[last][0]];
      Some((dict + [entry], entry))
  }

  function StandardDecode(D: seq<byte>, cs: nat, p: nat, width: nat, dict: seq<seq<byte>>, last: int, started: bool,
                          pixels: seq<byte>): Outcome
    requires 2 <= cs <= 8 && width > 0 && Dictionary(dict, Clear(cs))
    requires last >= 0 ==> Live(Clear(cs), |dict|, last)
    decreases 8 * |D| - p
  {
    if p + width > 8 * |D| then Pixels(pixels)
    else
      var code := Window(D, p, width);
      if code == Clear(cs) then StandardDecode(D, cs, p + width, cs + 1, Base(cs), -1, true, pixels)
      else if code == Clear(cs) + 1 then Pixels(pixels)
      else
        match StandardStep(dict, last, started, code)
        case None => Corrupt
        case Some((longer, entry)) =>
          StandardDecode(D, cs, p + width, NextWidth(|longer|, width), longer, code, true, pixels + entry)
  }

  function StandardRaster(S: seq<byte>): Outcome
    requires 2 <= ByteAt(S, 0) <= 8
  {
    var cs := ByteAt(S, 0);
    StandardDecode(SubBlocks(S, 1, 0), cs, 0, cs + 1, Base(cs), -1, false, [])
  }

  /** A data code follows another one while the table has 4096 entries. */
  predicate Overfull(D: seq<byte>, cs: nat, p: nat, width: nat, dict: seq<seq<byte>>, last: int, started: bool)
    requires 2 <= cs <= 8 && width > 0 && Dictionary(dict, Clear(cs))
    requires last >= 0 ==> Live(Clear(cs), |dict|, last)
    decreases 8 * |D| - p
  {
    p + width <= 8 * |D| &&
    var code := Window(D, p, width);
    if code == Clear(cs) then Overfull(D, cs, p + width, cs + 1, Base(cs), -1, true)
    else if code == Clear(cs) + 1 then false
    else if started && last >= 0 && |dict| >= 4096 then true
    else
      match StandardStep(dict, last, started, code)
      case None => false
      case Some((longer, entry)) => Overfull(D, cs, p + width, NextWidth(|longer|, width), longer, code, true)
  }

  predicate OverfullRaster(S: seq<byte>)
    requires 2 <= ByteAt(S, 0) <= 8
  {
    var cs := ByteAt(S, 0);
    Overfull(SubBlocks(S, 1, 0), cs, 0, cs + 1, Base(cs), -1, false)
  }

  // ----- where the code meets it

  lemma StepsAgree(dict: seq<seq<byte>>, last: int, started: bool, code: nat)
    requires last >= 0 ==> last < |dict| && dict[last] != []
    requires code < |dict| ==> dict[code] != []
    ensures CodeStep(dict, last, started, code) ==
            if started && last >= 0 && |dict| >= 4096 then None else StandardStep(dict, last, started, code)
  {}

  /** The code's decoder gives up where the table is overfull, and is the decoder
      of the standard everywhere else. */
  lemma {:induction false} DecodersAgree(D: seq<byte>, cs: nat, p: nat, width: nat, dict: seq<seq<byte>>, last: int,
                                         started: bool, pixels: seq<byte>)
    requires 2 <= cs <= 8 && width > 0 && Dictionary(dict, Clear(cs))
    requires last >= 0 ==> Live(Clear(cs), |dict|, last)
    ensures Decode(D, cs, p, width, dict, last, started, pixels) ==
            if Overfull(D, cs, p, width, dict, last, started) then Corrupt
            else StandardDecode(D, cs, p, width, dict, last, started, pixels)
    decreases 8 * |D| - p
  {
    hide Window;
    if p + width <= 8 * |D| {
      var code := Window(D, p, width);
      if code == Clear(cs) {
        DecodersAgree(D, cs, p + width, cs + 1, Base(cs), -1, true, pixels);
      } else if code != Clear(cs) + 1 {
        StepsAgree(dict, last, started, code);
        match CodeStep(dict, last, started, code) {
          case None =>
          case Some((longer, entry)) =>
            DecodersAgree(D, cs, p + width, NextWidth(|longer|, width), longer, code, true, pixels + entry);
        }
      }
    }
  }

  /** The exact condition for whole rasters. */
  lemma RasterExact(S: seq<byte>)
    requires 2 <= ByteAt(S, 0) <= 8
    ensures OverfullRaster(S) ==> Raster(S) == Corrupt
    ensures Raster(S) == StandardRaster(S) <==> !OverfullRaster(S) || StandardRaster(S) == Corrupt
  {
    hide Decode, StandardDecode, Overfull, SubBlocks;
    var cs := ByteAt(S, 0);
    DecodersAgree(SubBlocks(S, 1, 0), cs, 0, cs + 1, Base(cs), -1, false, []);
  }

  // ----- data without a starting clear code

  /** What a raster denotes when decoding may start without a clear code. */
  function PromisedRaster(S: seq<byte>): Outcome
    requires 2 <= ByteAt(S, 0) <= 8
  {
    var cs := ByteAt(S, 0);
    Decode(SubBlocks(S, 1, 0), cs, 0, cs + 1, Base(cs), -1, true, [])
  }

  /** The data begin with a whole code that is neither the clear nor the end code. */
  predicate Headless(S: seq<byte>)
    requires 2 <= ByteAt(S, 0) <= 8
  {
    var cs, D := ByteAt(S, 0), SubBlocks(S, 1, 0);
    cs + 1 <= 8 * |D| && Window(D, 0, cs + 1) != Clear(cs) && Window(D, 0, cs + 1) != Clear(cs) + 1
  }

  /** Such data are called corrupt; the promise is kept for all others. */
  lemma HeadlessExact(S: seq<byte>)
    requires 2 <= ByteAt(S, 0) <= 8
    ensures Headless(S) ==> Raster(S) == Corrupt
    ensures Raster(S) == PromisedRaster(S) <==> !Headless(S) || PromisedRaster(S) == Corrupt
  {
    hide SubBlocks, Window;
  }

  /** The colour 0 and the end code in three bits each. */
  lemma HeadlessInput()
    ensures var S := [2, 1, 0x28, 0];
            Headless(S) && PromisedRaster(S) == Pixels([0]) && Raster(S) == Corrupt
  {
    var S: seq<byte>, D: seq<byte> := [2, 1, 0x28, 0], [0x28];
    assert SubBlocks(S, 1, 0) == SubBlocks(S, 2, 1) == [0x28] + SubBlocks(S, 3, 0) == D;
    TwoCodes(D);
    ColourThenEnd(D);
    HeadlessExact(S);
  }

  lemma TwoCodes(D: seq<byte>)
    requires D == [0x28]
    ensures Window(D, 0, 3) == 0 && Window(D, 3, 3) == 5
  {
    WindowInByte(D, 0, 0, 3);
    WindowInByte(D, 0, 3, 3);
    assert Shr(0x28, 3) == 5 && Low(0x28, 3) == 0 && Low(5, 3) == 5;
  }

  lemma ColourThenEnd(D: seq<byte>)
    requires |D| == 1 && Window(D, 0, 3) == 0 && Window(D, 3, 3) == 5
    ensures Clear(2) == 4 && Decode(D, 2, 0, 3, Base(2), -1, true, []) == Pixels([0])
  {
    hide Window;
    assert Clear(2) == 4;
    assert CodeStep(Base(2), -1, true, 0) == Some((Base(2), [0]));
    assert NextWidth(6, 3) == 3;
    assert Decode(D, 2, 3, 3, Base(2), 0, true, [0]) == Pixels([0]);
    assert [] + [0] == [0];
  }
}
