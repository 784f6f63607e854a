/** The JPEG entropy decoder (ITU-T T.81 sections F.2.2.1 to F.2.2.3). */
module JpegDecode {
  import opened Options
  import opened Bits
  import opened BitStream
  import opened Canonical
  import opened PrefixDecode
  import T = JpegTable
  import opened JpegStream

  const WORD: nat := 32

  /** EXTEND: the signed value of n magnitude bits (ITU-T T.81 Table F.1). */
  function Extend(v: nat, n: nat): int
    requires n > 0
  {
    if v < Shl(1, n - 1) then v - Shl(1, n) + 1 else v
  }

  // ----- the combined table for AC coefficients

  /** What the table holds for a window that starts with the code of symbol i:
      value, run and total length, if they are small enough. */
  function AcValue(lens: seq<nat>, values: seq<byte>, i: nat, w: nat): int
    requires i < |lens| && i < |values| && 0 < lens[i] <= T.FAST_BITS
  {
    var run, mag, len := values[i] / 16, values[i] % 16, lens[i];
    if mag == 0 || len + mag > T.FAST_BITS then 0
    else
      ShlNonNegative(w, len);
      var v := Extend(Shr(Low(Shl(w, len), T.FAST_BITS), T.FAST_BITS - mag), mag);
      if -128 <= v <= 127 then 256 * v + 16 * run + len + mag else 0
  }

  /** Entry w of the table. */
  ghost predicate AcEntry(lens: seq<nat>, values: seq<byte>, w: nat, r: int)
    requires |lens| <= |values| && T.Ascending(lens)
  {
    && (forall i: nat :: i < |lens| && T.Hits(lens, i, w) ==> r == AcValue(lens, values, i, w))
    && (r != 0 ==> exists i: nat :: i < |lens| && T.Hits(lens, i, w))
  }

  /** The fields of an entry, as the code takes them apart. */
  function RunOf(r: int): int { (r / 16) % 16 }
  function LengthOf(r: int): int { r % 16 }
  function ValueOf(r: int): int { r / 256 }

  lemma Fields(v: int, run: nat, length: nat)
    requires run < 16 && length < 16
    ensures var r := 256 * v + 16 * run + length; RunOf(r) == run && LengthOf(r) == length && ValueOf(r) == v
  {}

  /** The magnitude bits in the window are the bits behind the code. */
  lemma WindowBits(S: seq<byte>, p: nat, n: nat, len: nat, mag: nat)
    requires len + mag <= n
    ensures var w := MsbCode(S, p, n); Shl(w, len) >= 0 && Shr(Low(Shl(w, len), n), n - mag) == MsbCode(S, p + len, mag)
  {
    hide MsbCode, Shl, Low, Shr;
    var w := MsbCode(S, p, n);
    LowOfShl(w, len, n);
    MsbAppend(S, p, len, n - len);
    MsbBound(S, p + len, n - len);
    Unpack(MsbCode(S, p + len, n - len), MsbCode(S, p, len), n - len);
    ShrOfShl(MsbCode(S, p + len, n - len), len, n - mag);
    MsbPrefix(S, p + len, mag, n - len);
  }

  /** A nonzero entry says exactly what decoding a code and then receiving and
      extending its magnitude bits would say. */
  lemma AcAgrees(lens: seq<nat>, values: seq<byte>, S: seq<byte>, p: nat, r: int)
    requires T.Ascending(lens) && |lens| <= |values|
    requires AcEntry(lens, values, MsbCode(S, p, T.FAST_BITS), r) && r != 0
    ensures Symbol(lens, S, p).Some?
    ensures var i := Symbol(lens, S, p).value;
            && i < |lens|
            && var mag := values[i] % 16;
            && mag > 0
            && RunOf(r) == values[i] / 16
            && LengthOf(r) == lens[i] + mag
            && ValueOf(r) == Extend(MsbCode(S, p + lens[i], mag), mag)
  {
    hide Shr, Low, Shl, Extend, Code;
    var w := MsbCode(S, p, T.FAST_BITS);
    var i: nat :| i < |lens| && T.Hits(lens, i, w);
    MsbPrefix(S, p, lens[i], T.FAST_BITS);
    SymbolIs(lens, S, p, i);
    var mag := values[i] % 16;
    WindowBits(S, p, T.FAST_BITS, lens[i], mag);
    Fields(Extend(MsbCode(S, p + lens[i], mag), mag), values[i] / 16, lens[i] + mag);
  }

  /** `stbi__build_fast_ac`. */
  method BuildFastAc(fac: array<int>, h: T.Huffman, ghost lens: seq<nat>)
    requires h.For(lens) && fac.Length == T.FAST_SIZE && fac !in h.Repr
    modifies fac
    ensures forall w :: 0 <= w < T.FAST_SIZE ==> AcEntry(lens, h.values[..], w, fac[w])
  {
    hide Shr, Low, Shl, Code, Fits;
    var i := 0;
    while i < T.FAST_SIZE
      invariant 0 <= i <= T.FAST_SIZE
      invariant forall w :: 0 <= w < i ==> AcEntry(lens, h.values[..], w, fac[w])
    {
      var fast := h.fast[i];
      fac[i] := 0;
      assert T.FastEntry(lens, |lens|, i, fast);
      if fast < 255 {
        var run, magbits, len := h.values[fast] / 16, h.values[fast] % 16, h.size[fast];
        if magbits != 0 && len + magbits <= T.FAST_BITS {
          fac[i] := Combined(i, run, len, magbits);
        }
      }
      assert AcEntry(lens, h.values[..], i, fac[i]);
      i := i + 1;
    }
  }

  function Combined(i: nat, run: nat, len: nat, magbits: nat): int
    requires 0 < magbits && len + magbits <= T.FAST_BITS
  {
    ShlNonNegative(i, len);
    var k := Shr(Low(Shl(i, len), T.FAST_BITS), T.FAST_BITS - magbits);
    var m := Shl(1, magbits - 1);
    var v := if k < m then k - Shl(1, magbits) + 1 else k;
    if -128 <= v <= 127 then 256 * v + 16 * run + len + magbits else 0
  }

  /** An entry is nonzero exactly when a short code and its magnitude bits fit in
      the window and their value fits in a signed byte. */
  lemma AcNonzero(lens: seq<nat>, values: seq<byte>, w: nat, r: int)
    requires T.Ascending(lens) && |lens| <= |values| && AcEntry(lens, values, w, r)
    ensures r != 0 <==>
            exists i: nat :: i < |lens| && T.Hits(lens, i, w) && AcFits(lens, values, i, w)
  {
    hide Shr, Low, Shl, Extend, Code;
    forall i: nat | i < |lens| && T.Hits(lens, i, w) ensures r != 0 <==> AcFits(lens, values, i, w) {
      var mag := values[i] % 16;
      if mag > 0 && lens[i] + mag <= T.FAST_BITS {
        ShlNonNegative(w, lens[i]);
        Fields(Extend(Shr(Low(Shl(w, lens[i]), T.FAST_BITS), T.FAST_BITS - mag), mag), values[i] / 16, lens[i] + mag);
      }
    }
  }

  predicate AcFits(lens: seq<nat>, values: seq<byte>, i: nat, w: nat)
    requires i < |lens| && i < |values| && lens[i] > 0
  {
    var mag := values[i] % 16;
    && mag > 0 && lens[i] + mag <= T.FAST_BITS
    && (ShlNonNegative(w, lens[i]);
        -128 <= Extend(Shr(Low(Shl(w, lens[i]), T.FAST_BITS), T.FAST_BITS - mag), mag) <= 127)
  }

  // ----- the decoder

  class Decoder {
    const raw: seq<byte>
    var next: nat
    var codeBuffer: nat
    var codeBits: int
    var marker: byte
    var noMore: bool

    /** The segment as a bit stream, the position in it, and the bytes fetched. */
    ghost const S: seq<byte>
    ghost var pos: nat
    ghost var fetched: nat

    ghost predicate Valid()
      reads this
    {
      && next <= |raw|
      && Holds(S, pos, codeBits, codeBuffer, WORD)
      && (noMore ==> Exhausted(S, pos, codeBits))
      && (!noMore ==>
            codeBits >= 0 && pos + codeBits == 8 * fetched && Rest(S, fetched, Mirrored(Unstuffed(raw[next..]))))
    }

    /** The data bits end before position p. */
    ghost predicate Beyond(p: nat)
      reads this
    { p > 8 * |S| }

    constructor (segment: seq<byte>)
      ensures Valid() && pos == 0 && S == Mirrored(Unstuffed(segment))
    {
      raw := segment;
      next, codeBuffer, codeBits, marker, noMore := 0, 0, 0, 0, false;
      S := Mirrored(Unstuffed(segment));
      pos, fetched := 0, 0;
      new;
      assert raw[0..] == segment;
      assert S[0..] == S;
      ShlZero(WORD);
    }

    method Get8() returns (b: byte)
      requires next <= |raw|
      modifies `next
      ensures b == ByteAt(raw, old(next)) && next == if old(next) < |raw| then old(next) + 1 else old(next)
    {
      if next == |raw| { return 0; }
      b := raw[next];
      next := next + 1;
    }

    /** `stbi__grow_buffer_unsafe`: fill the buffer, up to a marker. */
    method GrowBuffer()
      requires Valid() && codeBits <= 24
      modifies this
      ensures Valid() && pos == old(pos) && codeBits >= old(codeBits)
      ensures codeBits > 24 || noMore
    {
      var stop := GrowByte();
      while !stop && codeBits <= 24
        invariant Valid() && pos == old(pos) && codeBits >= old(codeBits)
        invariant stop ==> noMore
        decreases !stop, 25 - codeBits
      {
        stop := GrowByte();
      }
    }

    /** One round of the filling loop. */
    method GrowByte() returns (stop: bool)
      requires Valid() && codeBits <= 24
      modifies this
      ensures Valid() && pos == old(pos)
      ensures if stop then noMore && codeBits == old(codeBits) else codeBits == old(codeBits) + 8
    {
      hide Holds, Rest, Or, Unstuffed, Mirrored, MsbCode;
      var b: byte := 0;
      if noMore {
        ZeroBits(S, pos, codeBits, codeBuffer, WORD);
      } else {
        FetchByte(S, fetched, raw, next);
        ghost var from := next;
        b := Get8();
        if b == 0xFF {
          var c := Get8();
          if c != 0 {
            marker := c;
            noMore := true;
            return true;
          }
        }
        Append(S, pos, codeBits, codeBuffer, WORD, b);
        fetched := fetched + 1;
      }
      ShlNonNegative(b, 24 - codeBits);
      codeBuffer := Or(codeBuffer, Shl(b, 24 - codeBits));
      codeBits := codeBits + 8;
      stop := false;
    }

    /** Move on by n bits. */
    method Skip(n: nat)
      requires Valid() && n <= 16 && (n <= codeBits || noMore)
      modifies `codeBuffer, `codeBits, `pos
      ensures Valid() && pos == old(pos) + n && codeBits == old(codeBits) - n
    {
      hide Holds, Shl, Low;
      Consume(S, pos, codeBits, codeBuffer, WORD, n);
      codeBuffer := Low(Shl(codeBuffer, n), WORD);
      codeBits := codeBits - n;
      pos := pos + n;
    }

    /** The next n bits, left in the buffer. */
    method Look(n: nat) returns (v: nat)
      requires Valid() && n <= 16 && (n <= codeBits || noMore)
      ensures v == MsbCode(S, pos, n)
    {
      hide Holds, MsbCode, Shr, Low;
      Peek(S, pos, codeBits, codeBuffer, WORD, n);
      MsbBound(S, pos, n);
      LowOfSmall(MsbCode(S, pos, n), n);
      v := Low(Shr(codeBuffer, WORD - n), n);
    }

    /** `stbi__jpeg_huff_decode`: through the direct table or by comparing range
        ends, the symbol whose code comes next. Failure means that there is none,
        or that its code runs into the marker. */
    method HuffDecode(h: T.Huffman, ghost lens: seq<nat>) returns (v: int)
      requires Valid() && h.For(lens)
      modifies this
      ensures v >= 0 ==> Valid() && Symbol(lens, S, old(pos)).Some?
      ensures v >= 0 ==>
                var i := Symbol(lens, S, old(pos)).value;
                i < |lens| && v == h.values[i] as int && pos == old(pos) + lens[i]
      ensures v < 0 ==>
                Symbol(lens, S, old(pos)).None? || Beyond(old(pos) + CodeLength(lens, Symbol(lens, S, old(pos))))
    {
      hide Shr, Low, Shl, MsbCode, Fits, Symbol, Holds, Rest, End;
      if codeBits < 16 { GrowBuffer(); }
      var c := Look(T.FAST_BITS);
      MsbBound(S, pos, T.FAST_BITS);
      WindowSize();
      var k := h.fast[c];
      assert T.FastEntry(lens, |lens|, c, k);
      if k < 255 {
        FastFound(lens, S, pos, k);
        var s := h.size[k];
        if s > codeBits { return -1; }
        Skip(s);
        return h.values[k];
      }
      SlowStart(lens, S, pos, c);
      v := SlowDecode(h, lens);
    }

    /** The search through the range ends. */
    method SlowDecode(h: T.Huffman, ghost lens: seq<nat>) returns (v: int)
      requires Valid() && h.For(lens) && (codeBits >= 16 || noMore)
      requires End(lens, T.FAST_BITS) <= MsbCode(S, pos, T.FAST_BITS)
      modifies this
      ensures v >= 0 ==> Valid() && Symbol(lens, S, old(pos)).Some?
      ensures v >= 0 ==>
                var i := Symbol(lens, S, old(pos)).value;
                i < |lens| && v == h.values[i] as int && pos == old(pos) + lens[i]
      ensures v < 0 ==>
                Symbol(lens, S, old(pos)).None? || Beyond(old(pos) + CodeLength(lens, Symbol(lens, S, old(pos))))
    {
      hide Shr, Low, Shl, MsbCode, Fits, Symbol, Holds, Rest, End, Below, Code, T.FastEntry, T.Hits;
      var temp := Look(16);
      var k := SearchLength(h, lens, S, pos, temp);
      if k == 17 {
        NoMatch(lens, S, pos, k - 1);
        codeBits := codeBits - 16;
        return -1;
      }
      Justified(lens, S, pos, k, 16);
      ghost var i := SlowFound(lens, S, pos, k);
      if k > codeBits { return -1; }
      var c := Look(k);
      c := c + h.delta[k];
      Skip(k);
      v := h.values[c];
    }

    /** `stbi__extend_receive`. */
    method ExtendReceive(n: nat) returns (v: int)
      requires Valid() && 0 < n <= 15
      modifies this
      ensures Valid() && pos == old(pos) + n
      ensures v == Extend(MsbCode(S, old(pos), n), n)
    {
      hide Shr, Low, Shl, Or, MsbCode, Holds, Rest;
      if codeBits < n { GrowBuffer(); }
      Sign(S, pos, codeBits, codeBuffer, WORD, n);
      var negative := codeBuffer < Shl(1, WORD - 1);
      LowOfShl(codeBuffer, n, WORD);
      var k := Or(Low(Shl(codeBuffer, n), WORD), Shr(codeBuffer, WORD - n));
      Rotated(S, pos, codeBits, codeBuffer, WORD, n);
      Consume(S, pos, codeBits, codeBuffer, WORD, n);
      codeBuffer := k - Low(k, n);
      k := Low(k, n);
      codeBits := codeBits - n;
      pos := pos + n;
      v := k + if negative then 1 - Shl(1, n) else 0;
    }
  }

  ghost function CodeLength(lens: seq<nat>, i: Option<nat>): nat {
    if i.Some? && i.value < |lens| then lens[i.value] else 0
  }

  lemma WindowSize()
    ensures Shl(1, T.FAST_BITS) == 512
  {
    assert Shl(1, 9) == 512;
  }

  /** The loop of the slow path: the first length whose range ends beyond the reading. */
  method SearchLength(h: T.Huffman, ghost lens: seq<nat>, ghost S: seq<byte>, ghost p: nat, temp: nat) returns (k: nat)
    requires h.For(lens) && temp == MsbCode(S, p, 16)
    requires End(lens, T.FAST_BITS) <= MsbCode(S, p, T.FAST_BITS)
    ensures 10 <= k <= 17 && End(lens, k - 1) <= MsbCode(S, p, k - 1) && temp < h.maxcode[k]
  {
    hide Shl, MsbCode, Fits, End, Below, Code, T.FastEntry, T.Hits;
    MsbBound(S, p, 16);
    TempSize();
    k := T.FAST_BITS + 1;
    while temp >= h.maxcode[k]
      invariant 10 <= k <= 17
      invariant End(lens, k - 1) <= MsbCode(S, p, k - 1)
      decreases 17 - k
    {
      Justified(lens, S, p, k, 16);
      k := k + 1;
    }
  }

  lemma TempSize()
    ensures Shl(1, 16) == 0x10000
  {
    ShlShl(1, 8, 8);
    ShlShl(256, 4, 4);
    assert Shl(1, 8) == 256 && Shl(256, 4) == 4096 && Shl(4096, 4) == 0x10000;
  }

  lemma FastFound(lens: seq<nat>, S: seq<byte>, p: nat, i: nat)
    requires T.Ascending(lens) && i < |lens| && T.Hits(lens, i, MsbCode(S, p, T.FAST_BITS))
    ensures Symbol(lens, S, p) == Some(i) && lens[i] <= 9
  {
    hide MsbCode, Shr, Code;
    MsbPrefix(S, p, lens[i], T.FAST_BITS);
    SymbolIs(lens, S, p, i);
  }

  /** When the direct table has no entry, every short reading is beyond its range. */
  lemma SlowStart(lens: seq<nat>, S: seq<byte>, p: nat, c: nat)
    requires T.Ascending(lens) && |lens| <= 255 && c == MsbCode(S, p, T.FAST_BITS) && T.FastEntry(lens, |lens|, c, 255)
    ensures End(lens, T.FAST_BITS) <= MsbCode(S, p, T.FAST_BITS)
  {
    hide MsbCode, Shr, Code, End;
    forall i: nat | Matches(lens, i, S, p) ensures lens[i] > T.FAST_BITS {
      if lens[i] <= T.FAST_BITS {
        NoHit(lens, i, c);
        MsbPrefix(S, p, lens[i], T.FAST_BITS);
      }
    }
    BeyondRanges(lens, S, p, T.FAST_BITS);
  }

  lemma NoHit(lens: seq<nat>, i: nat, w: nat)
    requires T.Ascending(lens) && i < |lens| <= 255 && T.FastEntry(lens, |lens|, w, 255)
    ensures !T.Hits(lens, i, w)
  {
    hide T.Hits;
    if T.Hits(lens, i, w) { assert false; }
  }

  lemma SlowFound(lens: seq<nat>, S: seq<byte>, p: nat, k: nat) returns (i: nat)
    requires T.Ascending(lens) && k > 0
    requires End(lens, k - 1) <= MsbCode(S, p, k - 1) && MsbCode(S, p, k) < End(lens, k)
    ensures Symbol(lens, S, p) == Some(i) && i < |lens| && lens[i] == k
    ensures MsbCode(S, p, k) + Below(lens, |lens|, k) - First(lens, k) == i
  {
    hide MsbCode, End, Below, Count, Symbol;
    i := FirstRangeMatch(lens, S, p, k);
    SymbolIs(lens, S, p, i);
    T.SortedPosition(lens, i);
  }

  /** The sign bit of the buffer is the first of the bits received. */
  lemma Sign(S: seq<byte>, p: nat, c: int, buffer: nat, w: nat, n: nat)
    requires Holds(S, p, c, buffer, w) && 0 < n <= w && (n <= c || Exhausted(S, p, c))
    ensures buffer < Shl(1, w - 1) <==> MsbCode(S, p, n) < Shl(1, n - 1)
  {
    hide MsbCode, Holds;
    Peek(S, p, c, buffer, w, 1);
    ShrBound(buffer, 1, w - 1);
    MsbPrefix(S, p, 1, n);
    ShrBound(MsbCode(S, p, n), 1, n - 1);
  }

  /** A rotated buffer has the received bits below and the shifted buffer above them. */
  lemma Rotated(S: seq<byte>, p: nat, c: int, buffer: nat, w: nat, n: nat)
    requires Holds(S, p, c, buffer, w) && 0 < n <= w && (n <= c || Exhausted(S, p, c))
    ensures Shl(buffer, n) >= 0
    ensures var k := Or(Low(Shl(buffer, n), w), Shr(buffer, w - n));
            Low(k, n) == MsbCode(S, p, n) && k - Low(k, n) == Low(Shl(buffer, n), w)
  {
    hide MsbCode, Holds, Or, Low, Shr;
    Peek(S, p, c, buffer, w, n);
    MsbBound(S, p, n);
    LowOfShl(buffer, n, w);
    var lo, hi := MsbCode(S, p, n), Low(buffer, w - n);
    OrIsAdd(lo, hi, n);
    OrCommutes(lo, Shl(hi, n));
    Unpack(lo, hi, n);
  }

  /** Behind the end, zero bytes are OR-ed in. */
  lemma ZeroBits(S: seq<byte>, p: nat, c: int, buffer: nat, w: nat)
    requires Holds(S, p, c, buffer, w) && Exhausted(S, p, c) && c + 8 <= w
    ensures Shl(0, w - 8 - c) == 0
    ensures Holds(S, p, c + 8, Or(buffer, Shl(0, w - 8 - c)), w) && Exhausted(S, p, c + 8)
  {
    ShlZero(w - 8 - c);
    OrCommutes(buffer, 0);
    if c >= 0 {
      MsbPastEnd(S, p + c, 8);
      Append(S, p, c, buffer, w, 0);
    } else if c + 8 >= 0 {
      MsbPastEnd(S, p, c + 8);
      ShlZero(w - (c + 8));
    }
  }

  /** What the input holds at byte k of the stream: a data byte, perhaps followed
      by a stuffed zero, or a marker. */
  lemma FetchByte(S: seq<byte>, k: nat, raw: seq<byte>, next: nat)
    requires next <= |raw| && Rest(S, k, Mirrored(Unstuffed(raw[next..])))
    ensures var b, c := ByteAt(raw, next), ByteAt(raw, next + 1);
            var after := if next + 1 >= |raw| then |raw|
                         else if b == 0xFF && next + 2 <= |raw| then next + 2 else next + 1;
            if b == 0xFF && c != 0 then Exhausted(S, 8 * k, 0)
            else MsbCode(S, 8 * k, 8) == b && Rest(S, k + 1, Mirrored(Unstuffed(raw[after..])))
  {
    var rest := raw[next..];
    var b, c := ByteAt(raw, next), ByteAt(raw, next + 1);
    if rest == [] {
      RestEmpty(S, k);
      MsbPastEnd(S, 8 * k, 8);
    } else if b == 0xFF && c != 0 {
      assert ByteAt(rest, 1) == c;
      RestEmpty(S, k);
    } else {
      assert rest[0] == b && ByteAt(rest, 1) == c;
      var tail := if b != 0xFF then rest[1..] else if |rest| == 1 then [] else rest[2..];
      assert b != 0xFF ==> rest[1..] == raw[next + 1..];
      assert b == 0xFF && |rest| > 1 ==> rest[2..] == raw[next + 2..];
      RestFirst(S, k, MirrorByte(b), Mirrored(Unstuffed(tail)));
      MsbByte(S, k, 8);
      MirrorMirror(b);
    }
  }
}
