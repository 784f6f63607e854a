/** The GIF raster decoder: variable-width LZW codes (GIF89a Appendix F) whose
    strings are written pixel by pixel. */
module GifLzw {
  import opened Options
  import opened Products
  import opened Bits
  import opened BitStream
  import opened GifRaster

  // ----- the reference: a dictionary of strings

  datatype Outcome = Pixels(pixels: seq<byte>) | Corrupt

  /** The dictionary after a clear code: one string per colour and two unused places. */
  function Base(cs: nat): (d: seq<seq<byte>>)
    requires 2 <= cs <= 8
    ensures |d| == Clear(cs) + 2
    ensures forall i: nat :: i < Clear(cs) ==> i < 256 && d[i] == [i]
  {
    seq(Clear(cs), i requires 0 <= i < Clear(cs) => [i as byte]) + [[], []]
  }

  /** `1 << cs`. */
  function Clear(cs: nat): (r: nat)
    requires 2 <= cs <= 8
    ensures 4 <= r <= 256
  {
    ClearBound(cs);
    Shl(1, cs)
  }

  lemma ClearBound(cs: nat)
    requires 2 <= cs <= 8
    ensures 4 <= Shl(1, cs) <= 256
  {
    assert Shl(1, 2) == 4 && Shl(1, 3) == 8 && Shl(1, 4) == 16 && Shl(1, 5) == 32;
    assert Shl(1, 6) == 64 && Shl(1, 7) == 128 && Shl(1, 8) == 256;
  }

  /** Code width after a code: one more once the dictionary has filled the
      present one, up to 12. */
  function NextWidth(size: nat, width: nat): nat {
    if size == Shl(1, width) && size < 4096 then width + 1 else width
  }

  /** The clear code is the number of colours, and codes get wider with the entry that needs
      it (GIF89a Appendix F). */
  lemma ClearLaw(cs: nat)
    requires 2 <= cs <= 8
    ensures Clear(cs) == [4, 8, 16, 32, 64, 128, 256][cs - 2]
  {
    assert Shl(1, 2) == 4 && Shl(1, 3) == 8 && Shl(1, 4) == 16 && Shl(1, 5) == 32;
    assert Shl(1, 6) == 64 && Shl(1, 7) == 128 && Shl(1, 8) == 256;
  }

  lemma WidthLaw(size: nat, width: nat)
    requires 3 <= width <= 12 && size <= 4096
    ensures NextWidth(size, width) ==
            if width < 12 && size == [8, 16, 32, 64, 128, 256, 512, 1024, 2048][width - 3] then width + 1 else width
  {
    assert Shl(1, 3) == 8 && Shl(1, 4) == 16 && Shl(1, 5) == 32 && Shl(1, 6) == 64 && Shl(1, 7) == 128;
    assert Shl(1, 8) == 256 && Shl(1, 9) == 512 && Shl(1, 10) == 1024 && Shl(1, 11) == 2048 && Shl(1, 12) == 4096;
    ShlNonNegative(1, width);
  }

  /** The widths at which a code is read: there is room for the next entry, or
      the table is full. */
  predicate Reached(size: nat, width: nat) {
    0 < width <= 12 && (size < Shl(1, width) || (width == 12 && size == 4096))
  }

  /** Places that hold a string. */
  predicate Live(clear: nat, size: nat, c: int) {
    0 <= c < size && c != clear && c != clear + 1
  }

  /** A dictionary: every live place holds a string. */
  ghost predicate Dictionary(dict: seq<seq<byte>>, clear: nat) {
    clear + 2 <= |dict| && forall c: nat :: Live(clear, |dict|, c) ==> dict[c] != []
  }

  /** A code other than the clear and the end code: the dictionary after it and
      the string it stands for, or nothing if it is not allowed. */
  function CodeStep(dict: seq<seq<byte>>, last: int, started: bool, code: nat): Option<(seq<seq<byte>>, seq<byte>)>
    requires last >= 0 ==> last < |dict| && dict[last] != []
    requires code < |dict| ==> dict[code] != []
  {
    if code > |dict| || !started then None
    else if last >= 0 then
      if |dict| >= 4096 then None
      else
        var entry := if code < |dict| then dict[code] else dict[last] + [dict[last][0]];
        Some((dict + [dict[last] + [entry[0]]], entry))
    else if code == |dict| then None
    else Some((dict, dict[code]))
  }

  /** Decode the codes from bit p on. `last` is the previous code, -1 right after
      a clear code; before the first clear code nothing may be decoded. */
  function Decode(D: seq<byte>, cs: nat, p: nat, width: nat, dict: seq<seq<byte>>, last: int, started: bool,
                  pixels: seq<byte>): Outcome
    requires 2 <= cs <= 8 && width > 0 && Dictionary(dict, Clear(cs))
    requires last >= 0 ==> Live(Clear(cs), |dict|, last)
    decreases 8 * |D| - p
  {
    if p + width > 8 * |D| then Pixels(pixels)
    else
      var code := Window(D, p, width);
      if code == Clear(cs) then Decode(D, cs, p + width, cs + 1, Base(cs), -1, true, pixels)
      else if code == Clear(cs) + 1 then Pixels(pixels)
      else
        match CodeStep(dict, last, started, code)
        case None => Corrupt
        case Some((longer, entry)) =>
          Decode(D, cs, p + width, NextWidth(|longer|, width), longer, code, true, pixels + entry)
  }

  /** The data bytes of the sub-blocks from pos on, the first with len bytes left. */
  function SubBlocks(S: seq<byte>, pos: nat, len: nat): seq<byte>
    decreases (if pos < |S| then |S| - pos else 0) * 256 + len
  {
    if len > 0 then [ByteAt(S, pos)] + SubBlocks(S, pos + 1, len - 1)
    else if ByteAt(S, pos) == 0 then []
    else SubBlocks(S, pos + 1, ByteAt(S, pos))
  }

  /** What a raster that starts with its minimum code size denotes. */
  function Raster(S: seq<byte>): Outcome
    requires 2 <= ByteAt(S, 0) <= 8
  {
    var cs := ByteAt(S, 0);
    Decode(SubBlocks(S, 1, 0), cs, 0, cs + 1, Base(cs), -1, false, [])
  }

  // ----- the chained table

  /** A string as the string of its prefix and a last colour; `first` is its first colour. */
  datatype Code = Code(prefix: int, first: byte, suffix: byte)

  /** Chains lead strictly downwards, and spell the dictionary's strings. */
  predicate Spells(code: Code, dict: seq<seq<byte>>, clear: nat, c: nat)
    requires c < |dict|
  {
    && dict[c] != [] && code.first == dict[c][0]
    && (if code.prefix < 0 then dict[c] == [code.suffix]
        else code.prefix < c && Live(clear, |dict|, code.prefix) && dict[c] == dict[code.prefix] + [code.suffix])
  }

  /** The entries of the single colours. */
  ghost predicate Colours(codes: seq<Code>, clear: nat) {
    clear <= |codes| && clear <= 256 && forall c: nat :: c < clear ==> codes[c] == Code(-1, c, c)
  }

  ghost predicate Chained(codes: seq<Code>, dict: seq<seq<byte>>, clear: nat) {
    && |codes| == 4096 && |dict| <= 4096
    && forall c: nat :: Live(clear, |dict|, c) ==> Spells(codes[c], dict, clear, c)
  }

  lemma ChainedExtends(codes: seq<Code>, dict: seq<seq<byte>>, clear: nat, last: nat, s: byte)
    requires Chained(codes, dict, clear) && |dict| < 4096 && clear + 1 < |dict| && Live(clear, |dict|, last)
    ensures Chained(codes[|dict| := Code(last, codes[last].first, s)], dict + [dict[last] + [s]], clear)
  {
    var codes', dict' := codes[|dict| := Code(last, codes[last].first, s)], dict + [dict[last] + [s]];
    forall c: nat | Live(clear, |dict'|, c) ensures Spells(codes'[c], dict', clear, c) {
      if c < |dict| { assert Spells(codes[c], dict, clear, c); } else { assert Spells(codes[last], dict, clear, last); }
    }
  }

  class Gif {
    const codes: array<Code>
    const out: array<byte>
    const colors: seq<byte>
    const area: Area
    var curX: nat
    var curY: nat
    var step: nat
    var parse: nat
    ghost const interlaced: bool
    ghost const background: seq<byte>
    /** Every pixel drawn so far. */
    ghost var drawn: seq<byte>

    ghost function Canvas(): GifRaster.Canvas
      reads this`curX, this`curY, this`step, this`parse, out
    {
      GifRaster.Canvas(out[..], Cursor(curX, curY, step, parse))
    }

    ghost predicate Shape() {
      && codes.Length == 4096 && |colors| == 1024
      && area.Valid(out.Length) && area.line % 4 == 0 && |background| == out.Length
    }

    /** The canvas shows exactly the pixels drawn so far. */
    ghost predicate Valid()
      reads this`curX, this`curY, this`step, this`parse, this`drawn, out
    {
      && Shape()
      && Canvas() == Paint(area, colors, GifRaster.Canvas(background, Start(area, interlaced)), drawn)
    }

    /** Set up for an image whose place in the canvas is `area`. */
    constructor (out: array<byte>, colors: seq<byte>, area: Area, interlaced: bool)
      requires |colors| == 1024 && area.Valid(out.Length) && area.line % 4 == 0
      ensures Valid() && drawn == [] && this.out == out && this.colors == colors && this.area == area
      ensures this.interlaced == interlaced && background == out[..] && fresh(codes)
    {
      codes := new Code[4096](_ => Code(-1, 0, 0));
      this.out, this.colors, this.area := out, colors, area;
      curX, curY := area.startX, area.startY;
      if interlaced {
        step, parse := 8 * area.line, 3;
      } else {
        step, parse := area.line, 0;
      }
      this.interlaced, background, drawn := interlaced, out[..], [];
    }

    /** Draw one pixel and move on. */
    method PutPixel(index: byte)
      requires Valid()
      modifies this`curX, this`curY, this`step, this`parse, this`drawn, out
      ensures Valid() && drawn == old(drawn) + [index]
    {
      hide Paint, Blend, Wrap, Start;
      PaintSnoc(area, colors, GifRaster.Canvas(background, Start(area, interlaced)), drawn, index);
      if curY >= area.MaxY() {
        drawn := drawn + [index];
        return;
      }
      CursorInBounds(area, interlaced, colors, background, drawn);
      drawn := drawn + [index];
      Plot(curX + curY, index);
      MoveOn();
    }

    /** Store the four bytes of an opaque colour. */
    method Plot(p: nat, index: byte)
      requires Shape() && p + 4 <= out.Length
      modifies out
      ensures out[..] == Blend(old(out[..]), p, colors, index)
    {
      var c := 4 * (index as int);
      if colors[c + 3] >= 128 {
        out[p], out[p + 1], out[p + 2], out[p + 3] := colors[c + 2], colors[c + 1], colors[c], colors[c + 3];
      }
    }

    /** To the next column, row or interlace pass. */
    method MoveOn()
      modifies this`curX, this`curY, this`step, this`parse
      ensures Cursor(curX, curY, step, parse) == Advance(area, old(Cursor(curX, curY, step, parse)))
    {
      ghost var goal := Advance(area, Cursor(curX, curY, step, parse));
      curX := curX + 4;
      if curX >= area.MaxX() {
        curX := area.startX;
        curY := curY + step;
        while curY >= area.MaxY() && parse > 0
          invariant curX == area.startX
          invariant Wrap(area, curY, step, parse) == goal
          decreases parse
        {
          ShlNonNegative(1, parse);
          step := Times(Shl(1, parse), area.line);
          curY := area.startY + step / 2;
          parse := parse - 1;
        }
      }
    }

    /** Write the string of a code, its prefix first; the chain ends because
        every prefix is a smaller code. */
    method OutCode(code: nat, ghost dict: seq<seq<byte>>, ghost clear: nat)
      requires Valid() && Chained(codes[..], dict, clear) && Live(clear, |dict|, code)
      modifies this`curX, this`curY, this`step, this`parse, this`drawn, out
      ensures Valid() && drawn == old(drawn) + dict[code]
      decreases code
    {
      assert Spells(codes[code], dict, clear, code);
      if codes[code].prefix >= 0 {
        OutCode(codes[code].prefix, dict, clear);
      }
      PutPixel(codes[code].suffix);
    }

    /** The colours and the end of the table for code size cs. */
    method InitCodes(cs: nat)
      requires Shape() && 2 <= cs <= 8
      modifies codes
      ensures Colours(codes[..], Clear(cs))
    {
      for code := 0 to Clear(cs)
        invariant forall c :: 0 <= c < code ==> codes[c] == Code(-1, c, c)
      {
        codes[code] := Code(-1, code, code);
      }
    }

    /** Append the string of `last` followed by the first colour of `code`, which
        may be the very entry that is being made: its first colour is in place
        before it is read. (The code that asks for equality with the counter
        compares after counting up, so `code == avail` takes the other branch.) */
    method AddCode(avail: nat, last: nat, code: nat)
      requires Shape() && last < avail < 4096 && code <= avail + 1
      modifies codes
      ensures codes[..] == old(codes[..])[avail := Code(last, old(codes[last].first),
                             if code >= avail then old(codes[last].first) else old(codes[code].first))]
    {
      codes[avail] := codes[avail].(prefix := last);
      codes[avail] := codes[avail].(first := codes[last].first);
      codes[avail] := codes[avail].(suffix := if code == avail + 1 then codes[avail].first else codes[code].first);
    }

    /** Handle one code that is neither the clear nor the end code. */
    method HandleCode(code: nat, avail: nat, last: int, started: bool, ghost dict: seq<seq<byte>>, ghost cs: nat)
      returns (ok: bool, next: nat, ghost longer: seq<seq<byte>>)
      requires Valid() && 2 <= cs <= 8 && code != Clear(cs) && code != Clear(cs) + 1
      requires Dictionary(dict, Clear(cs)) && Chained(codes[..], dict, Clear(cs)) && avail == |dict|
      requires Colours(codes[..], Clear(cs))
      requires last >= 0 ==> Live(Clear(cs), |dict|, last)
      modifies this`curX, this`curY, this`step, this`parse, this`drawn, out, codes
      ensures Valid() && Colours(codes[..], Clear(cs))
      ensures ok <==> CodeStep(dict, last, started, code).Some?
      ensures ok ==> started && 0 < next <= 4096 && next <= avail + 1
      ensures ok ==>
                var (d, entry) := CodeStep(dict, last, started, code).value;
                && longer == d && next == |d| && drawn == old(drawn) + entry
                && Dictionary(d, Clear(cs)) && Chained(codes[..], d, Clear(cs)) && Live(Clear(cs), |d|, code)
    {
      ok, next, longer := false, avail, dict;
      ghost var clear := Clear(cs);
      if code > avail { return; }
      if !started { return; }
      if last >= 0 {
        next := next + 1;
        if next > 4096 { return; }
        assert Spells(codes[last], dict, clear, last);
        if code < avail { assert Spells(codes[code], dict, clear, code); }
        ghost var head := if code == avail then codes[last].first else codes[code].first;
        ChainedExtends(codes[..], dict, clear, last, head);
        longer := dict + [dict[last] + [head]];
        AddCode(avail, last, code);
      } else if code == avail {
        return;
      }
      OutCode(code, longer, clear);
      ok := true;
    }

    /** Decode a raster: it fails exactly where the reference decoder finds the
        data corrupt, and otherwise the canvas becomes the picture of the
        reference decoder's pixels. */
    method ProcessRaster(S: seq<byte>) returns (ok: bool)
      requires Valid() && drawn == [] && 2 <= ByteAt(S, 0) <= 8
      modifies this`curX, this`curY, this`step, this`parse, this`drawn, out, codes
      ensures Valid()
      ensures ok == Raster(S).Pixels? && |Rows(interlaced, area.h)| == area.h
      ensures ok ==> Picture(area, interlaced, colors, background, out[..], Raster(S).pixels)
      ensures |Visited(interlaced, area.h)| == area.h
      ensures ok ==> Shown(area, interlaced, colors, background, out[..], Raster(S).pixels)
    {
      hide Picture, Paint, Raster, Shown;
      ok := DecodeRaster(S);
      RowsPermutation(interlaced, area.h);
      RowsVisited(interlaced, area.h);
      PaintExact(area, interlaced, colors, background, drawn);
      PictureShown(area, interlaced, colors, background, out[..], drawn);
    }

    /** Act on one code: the clear code, the end code, or any other. */
    method HandleAny(code: nat, codesize: nat, avail: nat, last: int, started: bool,
                     ghost D: seq<byte>, cs: nat, ghost p: nat, ghost dict: seq<seq<byte>>)
      returns (ok: bool, ended: bool, codesize': nat, avail': nat, last': int, started': bool,
               ghost dict': seq<seq<byte>>)
      requires Valid() && 2 <= cs <= 8 && Colours(codes[..], Clear(cs)) && Reached(avail, codesize)
      requires Dictionary(dict, Clear(cs)) && Chained(codes[..], dict, Clear(cs)) && avail == |dict|
      requires last >= 0 ==> Live(Clear(cs), |dict|, last)
      requires p + codesize <= 8 * |D| && code == Window(D, p, codesize)
      modifies this`curX, this`curY, this`step, this`parse, this`drawn, out, codes
      ensures Valid() && Colours(codes[..], Clear(cs))
      ensures ok && !ended ==>
                && Dictionary(dict', Clear(cs)) && Chained(codes[..], dict', Clear(cs)) && avail' == |dict'|
                && Reached(avail', codesize') && (last' >= 0 ==> Live(Clear(cs), |dict'|, last'))
      ensures Decode(D, cs, p, codesize, dict, last, started, old(drawn)) ==
              if !ok then Corrupt
              else if ended then Pixels(drawn)
              else Decode(D, cs, p + codesize, codesize', dict', last', started', drawn)
    {
      hide Paint, Start, Decode, Chained, Dictionary, Colours, CodeStep, Base, Clear, Window, NextWidth, Reached;
      ok, ended, codesize', avail', last', started', dict' := true, false, codesize, avail, last, started, dict;
      ReachedBound(avail, codesize);
      DecodeStep(D, cs, p, codesize, dict, last, started, drawn);
      if code == Clear(cs) {
        codesize', avail', last', started' := cs + 1, Clear(cs) + 2, -1, true;
        dict' := Base(cs);
        BaseChained(codes[..], cs);
        BaseReached(cs);
      } else if code == Clear(cs) + 1 {
        ended := true;
      } else {
        ok, avail', dict' := HandleCode(code, avail, last, started, dict, cs);
        if !ok { return; }
        codesize' := Widen(avail', codesize, avail);
        last', started' := code, true;
      }
    }

    /** The decoding loop. */
    method DecodeRaster(S: seq<byte>) returns (ok: bool)
      requires Valid() && drawn == [] && 2 <= ByteAt(S, 0) <= 8
      modifies this`curX, this`curY, this`step, this`parse, this`drawn, out, codes
      ensures Valid()
      ensures match Raster(S) case Corrupt => !ok case Pixels(pixels) => ok && drawn == pixels
    {
      hide Paint, Start, Decode, SubBlocks, Chained, Dictionary, Colours, Base, Clear, Reached, Live, ByteAt, Canvas;
      var cs: nat := ByteAt(S, 0);
      var codesize: nat, avail: nat, validBits: nat := cs + 1, Clear(cs) + 2, 0;
      var bits, pos, len, started := 0, 1, 0, false;
      var last: int := -1;
      InitCodes(cs);
      ghost var D, n, p: nat, dict := SubBlocks(S, 1, 0), 0, 0, Base(cs);
      BaseChained(codes[..], cs);
      BaseReached(cs);
      assert D[0..] == D && bits == Window(D, 0, 0);
      ReachedBound(avail, codesize);
      hide Window;
      while true
        invariant Valid() && Colours(codes[..], Clear(cs))
        invariant n <= |D| && D[n..] == SubBlocks(S, pos, len)
        invariant Reached(avail, codesize) && 0 < codesize <= 12 && p + validBits == 8 * n
        invariant validBits <= 19 && bits == Window(D, p, validBits)
        invariant Dictionary(dict, Clear(cs)) && Chained(codes[..], dict, Clear(cs)) && avail == |dict|
        invariant last >= 0 ==> Live(Clear(cs), |dict|, last)
        invariant Decode(D, cs, p, codesize, dict, last, started, drawn) == Raster(S)
        decreases |D| - n, validBits
      {
        if validBits < codesize {
          var more;
          more, pos, len, bits := FetchByte(S, pos, len, bits, validBits, D, n, p);
          if !more {
            DecodeEnds(D, cs, p, codesize, dict, last, started, drawn);
            return true;
          }
          validBits := validBits + 8;
          n := n + 1;
        } else {
          var code, ended;
          ghost var width := codesize;
          code, bits := TakeCode(bits, codesize, validBits, D, p);
          validBits := validBits - codesize;
          ok, ended, codesize, avail, last, started, dict :=
            HandleAny(code, codesize, avail, last, started, D, cs, p, dict);
          if !ok || ended { return; }
          p := p + width;
          ReachedBound(avail, codesize);
        }
      }
    }
  }

  /** Add the next data byte above the buffered bits; a new sub-block starts with
      its length, and a zero length ends the data. */
  method FetchByte(S: seq<byte>, pos: nat, len: nat, bits: nat, valid: nat, ghost D: seq<byte>, ghost n: nat,
                   ghost p: nat)
    returns (more: bool, pos': nat, len': nat, bits': nat)
    requires n <= |D| && D[n..] == SubBlocks(S, pos, len)
    requires p + valid == 8 * n && bits == Window(D, p, valid)
    ensures !more ==> n == |D|
    ensures more ==> n < |D| && D[n + 1..] == SubBlocks(S, pos', len')
    ensures more ==> bits' == Window(D, p, valid + 8)
  {
    more, pos', len', bits' := false, pos, len, bits;
    SubBlocksStep(S, pos, len, D, n);
    if len' == 0 {
      len' := ByteAt(S, pos');
      pos' := pos' + 1;
      if len' == 0 { return; }
    }
    len' := len' - 1;
    FillWord(D, n, valid, p);
    bits' := Or(bits', Shl(ByteAt(S, pos'), valid));
    pos' := pos' + 1;
    more := true;
  }

  /** The low bits of the buffer are the next code. */
  method TakeCode(bits: nat, width: nat, valid: nat, ghost D: seq<byte>, ghost p: nat) returns (code: nat, bits': nat)
    requires width <= valid && bits == Window(D, p, valid)
    ensures code == Window(D, p, width) && bits' == Window(D, p + width, valid - width)
  {
    AndMask(bits, width);
    WindowTake(D, p, width, valid);
    code := And(bits, Shl(1, width) - 1);
    bits' := Shr(bits, width);
  }

  /** One more bit per code once the table fills the present width, up to 12. */
  method Widen(avail: nat, codesize: nat, ghost before: nat) returns (width: nat)
    requires 0 < avail <= 4096 && Reached(before, codesize) && avail <= before + 1
    ensures width == NextWidth(avail, codesize) && Reached(avail, width)
  {
    width := codesize;
    WidthReached(avail, codesize, before);
    AndMask(avail, codesize);
    if And(avail, Shl(1, codesize) - 1) == 0 && avail <= 0xFFF {
      width := width + 1;
    }
  }

  lemma BaseChained(codes: seq<Code>, cs: nat)
    requires 2 <= cs <= 8 && |codes| == 4096 && Colours(codes, Clear(cs))
    ensures Dictionary(Base(cs), Clear(cs)) && Chained(codes, Base(cs), Clear(cs))
  {
    forall c: nat | Live(Clear(cs), |Base(cs)|, c) ensures Spells(codes[c], Base(cs), Clear(cs), c) {
      assert codes[c] == Code(-1, c, c);
    }
  }

  /** The next data byte, wherever the sub-block boundary lies. */
  lemma SubBlocksStep(S: seq<byte>, pos: nat, len: nat, D: seq<byte>, n: nat)
    requires n <= |D| && D[n..] == SubBlocks(S, pos, len)
    ensures len > 0 ==> n < |D| && D[n] == ByteAt(S, pos) && D[n + 1..] == SubBlocks(S, pos + 1, len - 1)
    ensures len == 0 && ByteAt(S, pos) == 0 ==> n == |D|
    ensures len == 0 && ByteAt(S, pos) > 0 ==>
              n < |D| && D[n] == ByteAt(S, pos + 1) && D[n + 1..] == SubBlocks(S, pos + 2, ByteAt(S, pos) - 1)
  {
    assert n < |D| ==> D[n..][0] == D[n] && D[n..][1..] == D[n + 1..];
  }

  /** OR-ing a byte in above the buffered bits. */
  lemma FillWord(D: seq<byte>, n: nat, v: nat, p: nat)
    requires n < |D| && p + v == 8 * n
    ensures Shl(D[n], v) >= 0
    ensures Or(Window(D, p, v), Shl(D[n], v)) == Window(D, p, v + 8)
  {
    hide Window, Or;
    WindowBound(D, p, v);
    OrIsAdd(Window(D, p, v), D[n], v);
    WindowSplit(D, p, v, 8);
    ByteWindow(D, n, 8);
  }

  lemma DecodeEnds(D: seq<byte>, cs: nat, p: nat, width: nat, dict: seq<seq<byte>>, last: int, started: bool,
                   pixels: seq<byte>)
    requires 2 <= cs <= 8 && width > 0 && Dictionary(dict, Clear(cs))
    requires last >= 0 ==> Live(Clear(cs), |dict|, last)
    requires p + width > 8 * |D|
    ensures Decode(D, cs, p, width, dict, last, started, pixels) == Pixels(pixels)
  {}

  /** One round of the reference decoder. */
  lemma DecodeStep(D: seq<byte>, cs: nat, p: nat, width: nat, dict: seq<seq<byte>>, last: int, started: bool,
                   pixels: seq<byte>)
    requires 2 <= cs <= 8 && width > 0 && Dictionary(dict, Clear(cs))
    requires last >= 0 ==> Live(Clear(cs), |dict|, last)
    requires p + width <= 8 * |D|
    ensures Dictionary(Base(cs), Clear(cs))
    ensures var code := Window(D, p, width);
            Decode(D, cs, p, width, dict, last, started, pixels) ==
            if code == Clear(cs) then Decode(D, cs, p + width, cs + 1, Base(cs), -1, true, pixels)
            else if code == Clear(cs) + 1 then Pixels(pixels)
            else
              match CodeStep(dict, last, started, code)
              case None => Corrupt
              case Some((longer, entry)) =>
                Decode(D, cs, p + width, NextWidth(|longer|, width), longer, code, true, pixels + entry)
  {}

  lemma ReachedBound(size: nat, width: nat)
    requires Reached(size, width)
    ensures 0 < width <= 12
  {}

  /** The code's mask test asks whether the table has filled the present width;
      codes never get wider than 12 bits. */
  lemma WidthReached(size: nat, width: nat, before: nat)
    requires 0 < size <= 4096 && Reached(before, width) && size <= before + 1
    ensures Low(size, width) == 0 && size <= 0xFFF <==> size == Shl(1, width) && size < 4096
    ensures Reached(size, NextWidth(size, width))
  {
    TwelveBits();
    if size < Shl(1, width) {
      LowOfSmall(size, width);
    } else if size == Shl(1, width) {
      LowOfPower(width);
    }
    assert Shl(1, width + 1) == 2 * Shl(1, width);
    if width < 12 { ShlShl(1, width, 12 - width); }
  }

  lemma {:induction false} LowOfPower(n: nat)
    ensures Shl(1, n) > 0 && Low(Shl(1, n), n) == 0
  {
    if n > 0 { LowOfPower(n - 1); }
  }

  lemma BaseReached(cs: nat)
    requires 2 <= cs <= 8
    ensures Reached(Clear(cs) + 2, cs + 1)
  {
    assert Shl(1, cs + 1) == 2 * Shl(1, cs);
  }

  lemma TwelveBits()
    ensures Shl(1, 12) == 0x1000
  {
    ShlShl(1, 8, 4);
    assert Shl(1, 8) == 256;
    assert Shl(256, 4) == 2 * Shl(256, 3) == 4 * Shl(256, 2) == 8 * Shl(256, 1) == 16 * 256;
  }

  lemma NothingDrawn(a: Area, interlaced: bool, colors: seq<byte>, out: seq<byte>, pixels: seq<byte>)
    requires |colors| == 1024 && a.MaxY() == a.startY
    ensures Paint(a, colors, GifRaster.Canvas(out, Start(a, interlaced)), pixels).cur.y >= a.MaxY()
  {
    PaintsNothing(a, interlaced, colors, out, pixels);
  }

  lemma CursorInBounds(a: Area, interlaced: bool, colors: seq<byte>, out: seq<byte>, pixels: seq<byte>)
    requires |colors| == 1024 && a.Valid(|out|) && a.line % 4 == 0
    ensures var c := Paint(a, colors, GifRaster.Canvas(out, Start(a, interlaced)), pixels).cur;
            c.y < a.MaxY() ==> c.x + c.y + 4 <= |out|
  {
    hide Paint, Rows, Offset, Start, Times, RowOf, ColOf, Stands;
    if a.w == 0 {
      NothingDrawn(a, interlaced, colors, out, pixels);
      return;
    }
    PaintStands(a, interlaced, colors, out, pixels);
    RowsPermutation(interlaced, a.h);
    var c := Paint(a, colors, GifRaster.Canvas(out, Start(a, interlaced)), pixels).cur;
    if |pixels| < a.Size() {
      var n := |pixels|;
      OffsetIs(a, interlaced, n);
      CursorInside(a, interlaced, c, RowOf(n, a.w), ColOf(n, a.w));
      OffsetsDisjoint(a, interlaced, |out|, n, n);
    } else {
      LastPlace(a.w, a.h);
      CursorPast(a, interlaced, c, a.h, 0);
    }
  }
}
