/** Every encoder of ITU-T T.81 section F.1.2, and the proof that its segments are
    decoded to the coefficients it was given. */
module JpegEncoder {
  import opened Options
  import opened Bits
  import opened BitStream
  import opened BitStrings
  import opened Canonical
  import opened PrefixDecode
  import opened JpegStream
  import opened JpegDecode
  import opened JpegBlock
  import opened JpegScan
  import opened JpegZigzag

  // ----- magnitudes

  function Width(m: nat): (n: nat) {
    if m == 0 then 0 else 1 + Width(m / 2)
  }

  function Abs(v: int): nat { if v < 0 then -v else v }

  /** The magnitude category of Tables F.1 and F.2. */
  function Category(v: int): nat { Width(Abs(v)) }

  lemma {:induction false} WidthExact(m: nat)
    requires m > 0
    ensures Width(m) > 0 && Shl(1, Width(m) - 1) <= m < Shl(1, Width(m))
  {
    if m > 1 { WidthExact(m / 2); }
  }

  /** The bits behind the category: a negative value is sent as the ones' complement
      of its amount. */
  function Magnitude(v: int): (m: nat)
    requires v != 0
    ensures m < Shl(1, Category(v))
  {
    WidthExact(Abs(v));
    if v > 0 then v else v + Shl(1, Category(v)) - 1
  }

  /** EXTEND inverts the encoder. */
  lemma ExtendMagnitude(v: int)
    requires v != 0
    ensures Category(v) > 0 && Extend(Magnitude(v), Category(v)) == v
  {
    hide Width;
    WidthExact(Abs(v));
  }

  lemma CategoryOfZero()
    ensures Category(0) == 0
  {}

  // ----- the symbols of a block

  predicate AllZero(zz: seq<int>, k: nat, m: nat)
    requires |zz| == 64
  {
    forall j :: k <= j < m && j < 64 ==> zz[j] == 0
  }

  /** Number of the coefficient behind the symbol: 0x00 ends the block, any other
      symbol takes the zeros of its run and one more. */
  function NextNumber(rs: byte, k: nat): (m: nat)
    ensures rs != 0 || k < 64 ==> k < m
  {
    if rs == 0 then 64 else k + rs / 16 + 1
  }

  /** The symbol fits the coefficients from number k on (section F.1.2.2): zeros up
      to the end of the block, sixteen zeros, or a run of zeros before a coefficient
      of the category. */
  predicate Fitting(t: Tables, code: nat, zz: seq<int>, k: nat)
    requires Usable(t) && |zz| == 64
  {
    HasCode(t.ac, code) &&
    var rs := t.acValues[code];
    var m := NextNumber(rs, k);
    && m <= 64
    && if rs % 16 == 0 then rs in {0, 0xF0} && AllZero(zz, k, m)
       else AllZero(zz, k, m - 1) && Category(zz[m - 1]) == rs % 16
  }

  /** The symbol, and behind it the magnitude it announces. */
  function SymbolAndValue(t: Tables, code: nat, zz: seq<int>, k: nat): seq<bool>
    requires Usable(t) && |zz| == 64 && Fitting(t, code, zz, k)
  {
    CategoryOfZero();
    var rs := t.acValues[code];
    var v := zz[NextNumber(rs, k) - 1];
    SymbolBits(t.ac, code) + if rs % 16 == 0 then [] else CodeBits(Magnitude(v), Category(v))
  }

  /** The symbols code the coefficients from number k on. */
  predicate AcParses(codes: seq<nat>, t: Tables, zz: seq<int>, k: nat)
    requires Usable(t) && |zz| == 64
    decreases |codes|
  {
    if k >= 64 then codes == []
    else
      && codes != [] && Fitting(t, codes[0], zz, k)
      && AcParses(codes[1..], t, zz, NextNumber(t.acValues[codes[0]], k))
  }

  function AcBits(codes: seq<nat>, t: Tables, zz: seq<int>, k: nat): seq<bool>
    requires Usable(t) && |zz| == 64 && AcParses(codes, t, zz, k)
    decreases |codes|
  {
    if k >= 64 then []
    else SymbolAndValue(t, codes[0], zz, k) + AcBits(codes[1..], t, zz, NextNumber(t.acValues[codes[0]], k))
  }

  /** The DC symbol codes the difference from the prediction (section F.1.2.1). */
  predicate DcParses(code: nat, t: Tables, diff: int)
    requires Usable(t)
  {
    HasCode(t.dc, code) && t.dcValues[code] == Category(diff)
  }

  function DcBits(code: nat, t: Tables, diff: int): seq<bool>
    requires Usable(t) && DcParses(code, t, diff)
  {
    SymbolBits(t.dc, code) + if diff == 0 then [] else CodeBits(Magnitude(diff), Category(diff))
  }

  datatype Coded = Coded(dc: nat, ac: seq<nat>)

  predicate BlockParses(c: Coded, t: Tables, zz: seq<int>, pred: int) {
    Usable(t) && |zz| == 64 && DcParses(c.dc, t, zz[0] - pred) && AcParses(c.ac, t, zz, 1)
  }

  function BlockBits(c: Coded, t: Tables, zz: seq<int>, pred: int): seq<bool>
    requires BlockParses(c, t, zz, pred)
  {
    DcBits(c.dc, t, zz[0] - pred) + AcBits(c.ac, t, zz, 1)
  }

  // ----- what the decoder makes of them

  /** The block with its first k coefficients dequantized and in their places. */
  function Partial(t: Tables, zz: seq<int>, k: nat): (data: seq<int>)
    requires Usable(t) && |zz| == 64
    ensures |data| == 64
  {
    seq(64, z requires 0 <= z < 64 => if Zigzag(z) < k then Short(zz[Zigzag(z)] * t.dequant[z]) else 0)
  }

  /** Every coefficient times its quantizer, as a 16-bit number, in its place. */
  function Dequantized(t: Tables, zz: seq<int>): (data: seq<int>)
    requires Usable(t) && |zz| == 64
    ensures |data| == 64
  {
    seq(64, z requires 0 <= z < 64 => Short(zz[Zigzag(z)] * t.dequant[z]))
  }

  /** The products stand in their places, as far as they fit 16 bits. */
  ghost predicate Products(t: Tables, zz: seq<int>, data: seq<int>)
    requires Usable(t) && |zz| == 64
  {
    |data| == 64 && forall z: nat :: z < 64 ==> ProductAt(t, zz, data, z)
  }

  ghost predicate ProductAt(t: Tables, zz: seq<int>, data: seq<int>, z: nat)
    requires Usable(t) && |zz| == |data| == 64 && z < 64
  {
    var v := zz[Zigzag(z)] * t.dequant[z];
    -32768 <= v <= 32767 ==> data[z] == v
  }

  lemma DequantizedProducts(t: Tables, zz: seq<int>)
    requires Usable(t) && |zz| == 64
    ensures Products(t, zz, Dequantized(t, zz))
  {
    hide Short, Zigzag, Fits;
    forall z: nat | z < 64 ensures ProductAt(t, zz, Dequantized(t, zz), z) {
      ShortLaw(zz[Zigzag(z)] * t.dequant[z]);
    }
  }

  lemma PartialAll(t: Tables, zz: seq<int>, k: nat)
    requires Usable(t) && |zz| == 64 && k >= 64
    ensures Partial(t, zz, k) == Dequantized(t, zz)
  {
    hide Zigzag;
  }

  lemma PartialZeros(t: Tables, zz: seq<int>, k: nat, m: nat)
    requires Usable(t) && |zz| == 64 && k <= m && AllZero(zz, k, m)
    ensures Partial(t, zz, k) == Partial(t, zz, m)
  {
    hide Zigzag, Usable;
  }

  lemma PartialNext(t: Tables, zz: seq<int>, m: nat)
    requires Usable(t) && |zz| == 64 && m < 64
    ensures var z := Dezigzag(m);
            Partial(t, zz, m)[z := Short(zz[m] * t.dequant[z])] == Partial(t, zz, m + 1)
  {
    hide Zigzag, Dezigzag, Short;
    var d := Dezigzag(m);
    NumberOfPlace(m);
    forall z: nat | z < 64 ensures Zigzag(z) == m <==> z == d { PlaceOfNumber(z); }
  }

  // ----- the decoder inverts the encoder

  /** A symbol with the magnitude behind it. */
  lemma SignedAt(lens: seq<nat>, S: seq<byte>, p: nat, code: nat, v: int, rest: seq<bool>)
    requires Fits(lens, 16) && HasCode(lens, code) && lens[code] <= 16 && v != 0
    requires At(S, p, SymbolBits(lens, code) + (CodeBits(Magnitude(v), Category(v)) + rest))
    ensures Symbol(lens, S, p) == Some(code) && Category(v) > 0
    ensures Extend(MsbCode(S, p + lens[code], Category(v)), Category(v)) == v
    ensures At(S, p + lens[code] + Category(v), rest)
  {
    hide At, Symbol, CodeBits, Magnitude, Category, MsbCode, Fits, Code, Extend;
    ExtendMagnitude(v);
    AtSplit(S, p, SymbolBits(lens, code), CodeBits(Magnitude(v), Category(v)) + rest);
    CodedSymbolAt(lens, 16, S, p, code);
    AtSplit(S, p + lens[code], CodeBits(Magnitude(v), Category(v)), rest);
    CodeAt(S, p + lens[code], Magnitude(v), Category(v));
  }

  /** The decoder's coefficients are those of every coding. */
  lemma {:induction false} AcInverts(codes: seq<nat>, t: Tables, zz: seq<int>, k: nat, S: seq<byte>, p: nat)
    requires Usable(t) && |zz| == 64 && AcParses(codes, t, zz, k) && At(S, p, AcBits(codes, t, zz, k))
    ensures AcFrom(t.ac, t.acValues, t.dequant, S, p, k, Partial(t, zz, k)) ==
            Some(Block(Dequantized(t, zz), p + |AcBits(codes, t, zz, k)|))
    decreases |codes|
  {
    hide At, AcFrom, Partial, SymbolAndValue, NextNumber, Fits, AllZero, Category;
    if k >= 64 {
      AcDone(t.ac, t.acValues, t.dequant, S, p, k, Partial(t, zz, k));
      PartialAll(t, zz, k);
    } else {
      var code, bits := codes[0], SymbolAndValue(t, codes[0], zz, k);
      var m := NextNumber(t.acValues[code], k);
      SymbolRound(t, zz, S, p, k, code, AcBits(codes[1..], t, zz, m));
      AcInverts(codes[1..], t, zz, m, S, p + |bits|);
    }
  }

  /** One symbol takes the decoder on to the next coefficient that is coded. */
  lemma SymbolRound(t: Tables, zz: seq<int>, S: seq<byte>, p: nat, k: nat, code: nat, rest: seq<bool>)
    requires Usable(t) && |zz| == 64 && k < 64 && Fitting(t, code, zz, k)
    requires At(S, p, SymbolAndValue(t, code, zz, k) + rest)
    ensures var q, m := p + |SymbolAndValue(t, code, zz, k)|, NextNumber(t.acValues[code], k);
            && At(S, q, rest)
            && AcFrom(t.ac, t.acValues, t.dequant, S, p, k, Partial(t, zz, k)) ==
               AcFrom(t.ac, t.acValues, t.dequant, S, q, m, Partial(t, zz, m))
  {
    hide At, AcFrom, Partial, CodeBits, Magnitude, Category, Fits, Short, Dezigzag, AllZero, SymbolBits;
    CategoryOfZero();
    var rs := t.acValues[code];
    var m := NextNumber(rs, k);
    if rs % 16 == 0 {
      assert SymbolAndValue(t, code, zz, k) == SymbolBits(t.ac, code);
      PlainRound(t, S, p, k, code, rest, Partial(t, zz, k));
      PartialZeros(t, zz, k, m);
      AcDone(t.ac, t.acValues, t.dequant, S, p + t.ac[code], 64, Partial(t, zz, k));
    } else {
      var v := zz[m - 1];
      var sym, value := SymbolBits(t.ac, code), CodeBits(Magnitude(v), Category(v));
      assert sym + value + rest == sym + (value + rest);
      SignedRound(t, S, p, k, code, v, rest, Partial(t, zz, k));
      PartialZeros(t, zz, k, m - 1);
      PartialNext(t, zz, m - 1);
    }
  }

  /** The end of the block, or sixteen zeros. */
  lemma PlainRound(t: Tables, S: seq<byte>, p: nat, k: nat, code: nat, rest: seq<bool>, data: seq<int>)
    requires Usable(t) && k < 64 && |data| == 64 && HasCode(t.ac, code) && t.acValues[code] in {0, 0xF0}
    requires At(S, p, SymbolBits(t.ac, code) + rest)
    ensures var q := p + t.ac[code];
            && At(S, q, rest)
            && AcFrom(t.ac, t.acValues, t.dequant, S, p, k, data) ==
               if t.acValues[code] == 0 then Some(Block(data, q))
               else AcFrom(t.ac, t.acValues, t.dequant, S, q, k + 16, data)
  {
    hide At, Symbol, MsbCode, Fits, Extend, AcFrom, Dezigzag, Short, CodeBits;
    AcRound(t.ac, t.acValues, t.dequant, S, p, k, data);
    AtSplit(S, p, SymbolBits(t.ac, code), rest);
    CodedSymbolAt(t.ac, 16, S, p, code);
  }

  /** A coefficient. */
  lemma SignedRound(t: Tables, S: seq<byte>, p: nat, k: nat, code: nat, v: int, rest: seq<bool>, data: seq<int>)
    requires Usable(t) && HasCode(t.ac, code) && t.acValues[code] % 16 == Category(v) > 0 && v != 0
    requires k + t.acValues[code] / 16 < 64 == |data|
    requires At(S, p, SymbolBits(t.ac, code) + (CodeBits(Magnitude(v), Category(v)) + rest))
    ensures var q, m := p + t.ac[code] + Category(v), k + t.acValues[code] / 16;
            var z := Dezigzag(m);
            && At(S, q, rest)
            && AcFrom(t.ac, t.acValues, t.dequant, S, p, k, data) ==
               AcFrom(t.ac, t.acValues, t.dequant, S, q, m + 1, data[z := Short(v * t.dequant[z])])
  {
    hide At, Symbol, MsbCode, Fits, Extend, CodeBits, Magnitude, Category, SymbolBits, AcFrom, Dezigzag, Short;
    AcRound(t.ac, t.acValues, t.dequant, S, p, k, data);
    SignedAt(t.ac, S, p, code, v, rest);
  }

  /** The decoder's difference is the encoder's. */
  lemma DcInverts(code: nat, t: Tables, diff: int, S: seq<byte>, p: nat)
    requires Usable(t) && DcParses(code, t, diff) && At(S, p, DcBits(code, t, diff))
    ensures DcAt(t.dc, t.dcValues, S, p) == Some((diff, p + |DcBits(code, t, diff)|))
  {
    hide At, Symbol, MsbCode, Fits, Extend, CodeBits, Magnitude, Category, SymbolBits;
    CategoryOfZero();
    if diff == 0 {
      AtSplit(S, p, SymbolBits(t.dc, code), []);
      CodedSymbolAt(t.dc, 16, S, p, code);
    } else {
      var bits := CodeBits(Magnitude(diff), Category(diff));
      assert bits + [] == bits;
      SignedAt(t.dc, S, p, code, diff, []);
    }
  }

  /** Whatever way the block was coded, the decoder puts its dequantized coefficients
      in their places and stops behind its bits. */
  lemma BlockRoundTrip(c: Coded, t: Tables, zz: seq<int>, pred: int, S: seq<byte>, p: nat)
    requires BlockParses(c, t, zz, pred) && At(S, p, BlockBits(c, t, zz, pred))
    ensures BlockAt(t.dc, t.dcValues, t.ac, t.acValues, t.dequant, S, p, pred) ==
            Some(Block(Dequantized(t, zz), p + |BlockBits(c, t, zz, pred)|))
    ensures Products(t, zz, BlockAt(t.dc, t.dcValues, t.ac, t.acValues, t.dequant, S, p, pred).value.data)
    ensures DcAt(t.dc, t.dcValues, S, p).value.0 == zz[0] - pred
  {
    hide At, DcAt, AcFrom, Partial, Dequantized, AcParses, AcBits, DcParses, DcBits, Usable, Short, Products;
    DequantizedProducts(t, zz);
    var diff := zz[0] - pred;
    AtSplit(S, p, DcBits(c.dc, t, diff), AcBits(c.ac, t, zz, 1));
    DcInverts(c.dc, t, diff, S, p);
    FirstPlace(t, zz);
    AcInverts(c.ac, t, zz, 1, S, p + |DcBits(c.dc, t, diff)|);
  }

  lemma FirstPlace(t: Tables, zz: seq<int>)
    requires Usable(t) && |zz| == 64
    ensures Partial(t, zz, 1) == seq(64, _ => 0)[0 := Short(zz[0] * t.dequant[0])]
  {
    hide Zigzag, Short, Usable;
    PartialNext(t, zz, 0);
    assert Dezigzag(0) == 0;
    assert Partial(t, zz, 0) == seq(64, _ => 0);
  }

  // ----- scans

  /** The codings of the blocks, in order. */
  predicate ScanParses(cs: seq<Coded>, t: Tables, blocks: seq<seq<int>>, pred: int) {
    && |cs| == |blocks|
    && (cs != [] ==> BlockParses(cs[0], t, blocks[0], pred) && ScanParses(cs[1..], t, blocks[1..], blocks[0][0]))
  }

  function ScanBits(cs: seq<Coded>, t: Tables, blocks: seq<seq<int>>, pred: int): seq<bool>
    requires ScanParses(cs, t, blocks, pred)
  {
    if cs == [] then []
    else BlockBits(cs[0], t, blocks[0], pred) + ScanBits(cs[1..], t, blocks[1..], blocks[0][0])
  }

  function DequantizedAll(t: Tables, blocks: seq<seq<int>>): seq<seq<int>>
    requires Usable(t) && forall i :: 0 <= i < |blocks| ==> |blocks[i]| == 64
  {
    if blocks == [] then [] else [Dequantized(t, blocks[0])] + DequantizedAll(t, blocks[1..])
  }

  /** Every block of the scan holds its products. */
  ghost predicate ScanProducts(t: Tables, blocks: seq<seq<int>>, data: seq<seq<int>>)
    requires Usable(t)
  {
    |data| == |blocks| && forall i: nat :: i < |blocks| ==> |blocks[i]| == 64 && Products(t, blocks[i], data[i])
  }

  lemma {:induction false} AllProducts(t: Tables, blocks: seq<seq<int>>)
    requires Usable(t) && forall i :: 0 <= i < |blocks| ==> |blocks[i]| == 64
    ensures ScanProducts(t, blocks, DequantizedAll(t, blocks))
  {
    hide Usable, Products, Dequantized;
    if blocks != [] {
      AllProducts(t, blocks[1..]);
      DequantizedProducts(t, blocks[0]);
      var data := DequantizedAll(t, blocks);
      forall i: nat | i < |blocks| ensures Products(t, blocks[i], data[i]) {
        if i > 0 { assert blocks[i] == blocks[1..][i - 1] && data[i] == data[1..][i - 1]; }
      }
    }
  }

  lemma {:induction false} BlockSizes(cs: seq<Coded>, t: Tables, blocks: seq<seq<int>>, pred: int)
    requires ScanParses(cs, t, blocks, pred)
    ensures forall i :: 0 <= i < |blocks| ==> |blocks[i]| == 64
  {
    if cs != [] { BlockSizes(cs[1..], t, blocks[1..], blocks[0][0]); }
  }

  /** Every coding of every list of blocks is decoded to those blocks. */
  lemma {:induction false} ScanRoundTrip(cs: seq<Coded>, t: Tables, blocks: seq<seq<int>>, pred: int, S: seq<byte>,
                                         p: nat)
    requires Usable(t) && ScanParses(cs, t, blocks, pred) && At(S, p, ScanBits(cs, t, blocks, pred))
    ensures forall i :: 0 <= i < |blocks| ==> |blocks[i]| == 64
    ensures ScanAt(t, S, p, pred, |blocks|) ==
            Some((DequantizedAll(t, blocks), p + |ScanBits(cs, t, blocks, pred)|))
    ensures ScanProducts(t, blocks, ScanAt(t, S, p, pred, |blocks|).value.0)
    decreases |cs|
  {
    hide At, BlockAt, DcAt, BlockParses, BlockBits, Usable, Dequantized, Products, ScanProducts;
    BlockSizes(cs, t, blocks, pred);
    AllProducts(t, blocks);
    if cs != [] {
      var bits := BlockBits(cs[0], t, blocks[0], pred);
      AtSplit(S, p, bits, ScanBits(cs[1..], t, blocks[1..], blocks[0][0]));
      BlockRoundTrip(cs[0], t, blocks[0], pred, S, p);
      ScanRoundTrip(cs[1..], t, blocks[1..], blocks[0][0], S, p + |bits|);
    }
  }

  // ----- segments

  /** A zero byte stuffed behind every 0xFF (section F.1.2.3). */
  function Stuffed(data: seq<byte>): seq<byte> {
    if data == [] then []
    else (if data[0] == 0xFF then [0xFF, 0] else [data[0]]) + Stuffed(data[1..])
  }

  /** The input ends, or a marker follows. */
  predicate EndsSegment(rest: seq<byte>) {
    rest == [] || (rest[0] == 0xFF && ByteAt(rest, 1) != 0)
  }

  lemma {:induction false} UnstuffedStuffed(data: seq<byte>, rest: seq<byte>)
    requires EndsSegment(rest)
    ensures Unstuffed(Stuffed(data) + rest) == data
  {
    if data == [] {
      assert Stuffed(data) + rest == rest;
    } else {
      UnstuffedStuffed(data[1..], rest);
      StuffedByte(data[0], Stuffed(data[1..]), rest);
      assert [data[0]] + data[1..] == data;
    }
  }

  lemma StuffedByte(b: byte, tail: seq<byte>, rest: seq<byte>)
    ensures Unstuffed((if b == 0xFF then [0xFF, 0] else [b]) + tail + rest) == [b] + Unstuffed(tail + rest)
  {
    var raw := (if b == 0xFF then [0xFF, 0] else [b]) + tail + rest;
    if b == 0xFF {
      assert raw[2..] == tail + rest;
    } else {
      assert raw[1..] == tail + rest;
    }
  }

  lemma {:induction false} MirroredTwice(data: seq<byte>)
    ensures Mirrored(Mirrored(data)) == data
  {
    if data != [] {
      hide MirrorByte;
      MirrorMirror(data[0]);
      MirroredTwice(data[1..]);
    }
  }

  function Ones(n: nat): seq<bool> { seq(n, _ => true) }

  /** The bits filled up with ones to whole bytes, most significant bit first. */
  function Segment(bits: seq<bool>): seq<byte> {
    Stuffed(Mirrored(Pack(bits + Ones((8 - |bits| % 8) % 8))))
  }

  /** Any coding of any blocks, as an entropy-coded segment before a marker: the
      decoder's data denote the blocks. */
  lemma SegmentRoundTrip(cs: seq<Coded>, t: Tables, blocks: seq<seq<int>>, rest: seq<byte>)
    requires Usable(t) && ScanParses(cs, t, blocks, 0) && EndsSegment(rest)
    ensures forall i :: 0 <= i < |blocks| ==> |blocks[i]| == 64
    ensures var bits := ScanBits(cs, t, blocks, 0);
            && ScanAt(t, Mirrored(Unstuffed(Segment(bits) + rest)), 0, 0, |blocks|) ==
               Some((DequantizedAll(t, blocks), |bits|))
            && ScanProducts(t, blocks, ScanAt(t, Mirrored(Unstuffed(Segment(bits) + rest)), 0, 0, |blocks|).value.0)
  {
    hide At, ScanAt, ScanParses, ScanBits, Usable, Pack, Mirrored, DequantizedAll, ScanProducts;
    var bits := ScanBits(cs, t, blocks, 0);
    var fill := Ones((8 - |bits| % 8) % 8);
    var packed := Pack(bits + fill);
    UnstuffedStuffed(Mirrored(packed), rest);
    MirroredTwice(packed);
    PackAt([], bits + fill);
    assert [] + packed == packed;
    AtSplit(packed, 0, bits, fill);
    ScanRoundTrip(cs, t, blocks, 0, packed, 0);
  }

  // ----- an encoder

  /** The table has a code for the value. */
  ghost predicate Coding(lens: seq<nat>, values: seq<byte>, rs: nat, i: nat)
    requires |lens| <= |values|
  { HasCode(lens, i) && values[i] == rs }

  ghost predicate Has(lens: seq<nat>, values: seq<byte>, rs: nat)
    requires |lens| <= |values|
  { exists i: nat :: Coding(lens, values, rs, i) }

  ghost function SymbolOf(lens: seq<nat>, values: seq<byte>, rs: nat): (i: nat)
    requires |lens| <= |values| && Has(lens, values, rs)
    ensures Coding(lens, values, rs, i)
  {
    var i: nat :| Coding(lens, values, rs, i); i
  }

  /** The AC table has codes for the end of the block, for sixteen zeros, and for
      every run before a coefficient of at most c bits. */
  ghost predicate Complete(t: Tables, c: nat)
    requires Usable(t)
  {
    && c <= 15 && Has(t.ac, t.acValues, 0) && Has(t.ac, t.acValues, 0xF0)
    && forall rs: byte :: 0 < rs % 16 <= c ==> Has(t.ac, t.acValues, rs)
  }

  /** Number of the next nonzero coefficient, 64 if there is none. */
  function NextNonzero(zz: seq<int>, k: nat): (m: nat)
    requires |zz| == 64 && k <= 64
    ensures k <= m <= 64 && AllZero(zz, k, m) && (m < 64 ==> zz[m] != 0)
    decreases 64 - k
  {
    if k == 64 || zz[k] != 0 then k else NextNonzero(zz, k + 1)
  }

  predicate Small(zz: seq<int>, c: nat)
    requires |zz| == 64
  { forall j :: 1 <= j < 64 ==> Category(zz[j]) <= c }

  lemma FirstZeros(zz: seq<int>, k: nat, m: nat, n: nat)
    requires |zz| == 64 && m <= n && AllZero(zz, k, n)
    ensures AllZero(zz, k, m)
  {}

  lemma HasMarks(t: Tables, c: nat)
    requires Usable(t) && Complete(t, c)
    ensures Has(t.ac, t.acValues, 0) && Has(t.ac, t.acValues, 0xF0)
  {}

  lemma HasRun(t: Tables, c: nat, zz: seq<int>, run: nat, m: nat)
    requires Usable(t) && Complete(t, c) && |zz| == 64 && Small(zz, c)
    requires run < 16 && 1 <= m < 64 && Category(zz[m]) > 0
    ensures Category(zz[m]) <= 15 && Has(t.ac, t.acValues, 16 * run + Category(zz[m]))
  {
    hide Has, Category, Fits;
    var rs: byte := 16 * run + Category(zz[m]);
    assert rs % 16 == Category(zz[m]);
  }

  lemma RunFits(t: Tables, zz: seq<int>, k: nat, m: nat, code: nat)
    requires Usable(t) && |zz| == 64 && k <= m < 64 && m - k < 16 && 0 < Category(zz[m]) <= 15 && AllZero(zz, k, m)
    requires HasCode(t.ac, code) && t.acValues[code] == 16 * (m - k) + Category(zz[m])
    ensures Fitting(t, code, zz, k)
  {
    hide Fits, Category, AllZero;
    assert t.acValues[code] % 16 == Category(zz[m]) && t.acValues[code] / 16 == m - k;
  }

  /** The next symbol of the procedure of Figure F.2. */
  ghost function NextSymbol(t: Tables, c: nat, zz: seq<int>, k: nat): (code: nat)
    requires Usable(t) && Complete(t, c) && |zz| == 64 && Small(zz, c) && 0 < k < 64
    ensures Fitting(t, code, zz, k)
  {
    hide Fits, Category, Has, AllZero, Complete, Small, NextNonzero;
    HasMarks(t, c);
    var m := NextNonzero(zz, k);
    if m == 64 then SymbolOf(t.ac, t.acValues, 0)
    else if m - k >= 16 then
      FirstZeros(zz, k, k + 16, m);
      SymbolOf(t.ac, t.acValues, 0xF0)
    else
      ExtendMagnitude(zz[m]);
      HasRun(t, c, zz, m - k, m);
      var code := SymbolOf(t.ac, t.acValues, 16 * (m - k) + Category(zz[m]));
      RunFits(t, zz, k, m, code);
      code
  }

  ghost function EncodeAc(t: Tables, c: nat, zz: seq<int>, k: nat): (codes: seq<nat>)
    requires Usable(t) && Complete(t, c) && |zz| == 64 && Small(zz, c) && 0 < k <= 64
    ensures AcParses(codes, t, zz, k)
    decreases 64 - k
  {
    hide Fits, Complete, Small, AllZero, Category;
    if k == 64 then []
    else
      var code := NextSymbol(t, c, zz, k);
      [code] + EncodeAc(t, c, zz, NextNumber(t.acValues[code], k))
  }

  /** Every block whose categories the tables have is coded. */
  lemma BlockEncoded(t: Tables, c: nat, zz: seq<int>, pred: int)
    requires Usable(t) && Complete(t, c) && |zz| == 64 && Small(zz, c)
    requires Has(t.dc, t.dcValues, Category(zz[0] - pred))
    ensures BlockParses(Coded(SymbolOf(t.dc, t.dcValues, Category(zz[0] - pred)), EncodeAc(t, c, zz, 1)), t, zz, pred)
  {
    hide Fits, Category, Complete, Small, AcParses;
  }
}
