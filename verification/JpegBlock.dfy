/** Decoding of one sequential 8x8 block (ITU-T T.81 sections F.2.2.1 and F.2.2.2). */
module JpegBlock {
  import opened Options
  import opened Bits
  import opened BitStream
  import opened Canonical
  import opened PrefixDecode
  import T = JpegTable
  import opened JpegStream
  import opened JpegDecode

  /** Row-major place of the k-th coefficient of the zig-zag order; corrupt data
      may run up to 15 places past the end. */
  function Dezigzag(k: nat): (z: nat)
    requires k < 79
    ensures z < 64
  {
    if k < 8 then [0, 1, 8, 16, 9, 2, 3, 10][k]
    else if k < 16 then [17, 24, 32, 25, 18, 11, 4, 5][k - 8]
    else if k < 24 then [12, 19, 26, 33, 40, 48, 41, 34][k - 16]
    else if k < 32 then [27, 20, 13, 6, 7, 14, 21, 28][k - 24]
    else if k < 40 then [35, 42, 49, 56, 57, 50, 43, 36][k - 32]
    else if k < 48 then [29, 22, 15, 23, 30, 37, 44, 51][k - 40]
    else if k < 56 then [58, 59, 52, 45, 38, 31, 39, 46][k - 48]
    else if k < 64 then [53, 60, 61, 54, 47, 55, 62, 63][k - 56]
    else 63
  }

  /** The cast to a 16-bit integer. */
  function Short(x: int): int { (x + 0x8000) % 0x10000 - 0x8000 }

  /** The 16-bit number congruent to x, which is x itself where it fits. */
  lemma ShortLaw(x: int)
    ensures -32768 <= Short(x) <= 32767 && (x - Short(x)) % 65536 == 0
    ensures -32768 <= x <= 32767 ==> Short(x) == x
  {}

  // ----- the specification

  /** One step of F.2.2.2 with coefficient k next: no code, the end of the block,
      sixteen zeros, or a coefficient. */
  datatype Ac = Bad | Stop | Zeros | Coefficient(k: nat, value: int)

  ghost function AcStep(lens: seq<nat>, values: seq<byte>, S: seq<byte>, p: nat, k: nat): (a: Ac)
    requires |lens| <= |values|
    ensures a.Coefficient? ==> k <= a.k < k + 16
  {
    match Symbol(lens, S, p)
    case None => Bad
    case Some(i) =>
      var run, mag := values[i] / 16, values[i] % 16;
      if mag == 0 then if values[i] != 0xF0 then Stop else Zeros
      else Coefficient(k + run, Extend(MsbCode(S, p + lens[i], mag), mag))
  }

  /** The position behind the step. */
  ghost function AcEnd(lens: seq<nat>, values: seq<byte>, S: seq<byte>, p: nat): (q: nat)
    requires |lens| <= |values|
    ensures q >= p + CodeLength(lens, Symbol(lens, S, p))
  {
    match Symbol(lens, S, p)
    case None => p
    case Some(i) => p + lens[i] + values[i] % 16
  }

  datatype Block = Block(data: seq<int>, pos: nat)

  /** The AC coefficients from number k on. */
  ghost function AcFrom(lens: seq<nat>, values: seq<byte>, dequant: seq<byte>, S: seq<byte>, p: nat, k: nat,
                        data: seq<int>): (r: Option<Block>)
    requires |lens| <= |values| && |dequant| == 64 == |data|
    ensures r.Some? ==> r.value.pos >= p && |r.value.data| == 64
    decreases 80 - k
  {
    if k >= 64 then Some(Block(data, p))
    else
      var q := AcEnd(lens, values, S, p);
      match AcStep(lens, values, S, p, k)
      case Bad => None
      case Stop => Some(Block(data, q))
      case Zeros => AcFrom(lens, values, dequant, S, q, k + 16, data)
      case Coefficient(m, v) =>
        var z := Dezigzag(m);
        AcFrom(lens, values, dequant, S, q, m + 1, data[z := Short(v * dequant[z])])
  }

  /** The difference of the DC coefficient, and the position behind it. */
  ghost function DcAt(lens: seq<nat>, values: seq<byte>, S: seq<byte>, p: nat): (r: Option<(int, nat)>)
    requires |lens| <= |values|
    ensures r.Some? ==> r.value.1 >= p + CodeLength(lens, Symbol(lens, S, p))
  {
    match Symbol(lens, S, p)
    case None => None
    case Some(i) =>
      var t, q := values[i], p + lens[i];
      if t == 0 then Some((0, q)) else Some((Extend(MsbCode(S, q, t), t), q + t))
  }

  /** A whole block over the DC prediction pred. */
  ghost function BlockAt(dc: seq<nat>, dcValues: seq<byte>, ac: seq<nat>, acValues: seq<byte>, dequant: seq<byte>,
                         S: seq<byte>, p: nat, pred: int): (r: Option<Block>)
    requires |dc| <= |dcValues| && |ac| <= |acValues| && |dequant| == 64
    ensures r.Some? ==> r.value.pos >= p
  {
    match DcAt(dc, dcValues, S, p)
    case None => None
    case Some((diff, q)) =>
      AcFrom(ac, acValues, dequant, S, q, 1, seq(64, _ => 0)[0 := Short((pred + diff) * dequant[0])])
  }

  // ----- the code

  /** The table of combined entries for an AC code. */
  ghost predicate AcTable(fac: seq<int>, lens: seq<nat>, values: seq<byte>) {
    && |fac| == T.FAST_SIZE && |lens| <= |values| && T.Ascending(lens)
    && forall w :: 0 <= w < |fac| ==> AcEntry(lens, values, w, fac[w])
  }

  lemma FastStep(lens: seq<nat>, values: seq<byte>, fac: seq<int>, S: seq<byte>, p: nat, k: nat, r: int)
    requires AcTable(fac, lens, values) && MsbCode(S, p, T.FAST_BITS) < 512
    requires r == fac[MsbCode(S, p, T.FAST_BITS)] && r != 0
    ensures 0 <= RunOf(r) < 16 && 0 < LengthOf(r) < 16
    ensures AcStep(lens, values, S, p, k) == Coefficient(k + RunOf(r), ValueOf(r)) &&
            AcEnd(lens, values, S, p) == p + LengthOf(r)
  {
    hide AcEntry, MsbCode, ValueOf, Symbol, Extend;
    AcAgrees(lens, values, S, p, r);
  }

  // ----- decoding into a block

  /** `stbi__jpeg_decode_block`: fails only when a code is missing or the block runs
      past the data of the segment; otherwise the coefficients are those of the
      standard, whichever of them came out of the combined table. */
  method DecodeBlock(j: Decoder, hdc: T.Huffman, ghost dc: seq<nat>, hac: T.Huffman, ghost ac: seq<nat>,
                     fac: array<int>, dequant: seq<byte>, pred: int, data: array<int>)
    returns (ok: bool, newPred: int)
    requires j.Valid() && hdc.For(dc) && hac.For(ac) && AcTable(fac[..], ac, hac.values[..])
    requires |dequant| == 64 && data.Length == 64 && forall i :: 0 <= i < 256 ==> hdc.values[i] <= 15
    requires data != fac && data !in hdc.Repr && data !in hac.Repr
    modifies j, data
    ensures var spec := BlockAt(dc, hdc.values[..], ac, hac.values[..], dequant, j.S, old(j.pos), pred);
            && (ok ==> j.Valid() && spec == Some(Block(data[..], j.pos)))
            && (ok ==> newPred == pred + DcAt(dc, hdc.values[..], j.S, old(j.pos)).value.0)
            && (!ok ==> spec.None? || j.Beyond(spec.value.pos))
  {
    hide Symbol, AcEntry, AcTable, DcAt, AcFrom;
    ghost var table := fac[..];
    var diff;
    ok, diff := DecodeDc(j, hdc, dc);
    newPred := pred;
    if !ok { return; }
    ClearBlock(data);
    newPred := pred + diff;
    data[0] := Short(newPred * dequant[0]);
    assert fac[..] == table;
    ok := DecodeAc(j, hac, ac, fac, dequant, data);
  }

  /** The difference of the DC coefficient. */
  method DecodeDc(j: Decoder, hdc: T.Huffman, ghost dc: seq<nat>) returns (ok: bool, diff: int)
    requires j.Valid() && hdc.For(dc) && forall i :: 0 <= i < 256 ==> hdc.values[i] <= 15
    modifies j
    ensures var spec := DcAt(dc, hdc.values[..], j.S, old(j.pos));
            && (ok ==> j.Valid() && spec == Some((diff, j.pos)))
            && (!ok ==> spec.None? || j.Beyond(spec.value.1))
  {
    hide Symbol, Extend;
    var t := j.HuffDecode(hdc, dc);
    if t < 0 { return false, 0; }
    diff := 0;
    if t != 0 { diff := j.ExtendReceive(t); }
    ok := true;
  }

  /** `memset` of the 64 coefficients. */
  method ClearBlock(data: array<int>)
    requires data.Length == 64
    modifies data
    ensures data[..] == seq(64, _ => 0)
  {
    var i := 0;
    while i < 64
      invariant 0 <= i <= 64 && forall m :: 0 <= m < i ==> data[m] == 0
    {
      data[i] := 0;
      i := i + 1;
    }
  }

  /** The coefficient loop. */
  method DecodeAc(j: Decoder, hac: T.Huffman, ghost ac: seq<nat>, fac: array<int>, dequant: seq<byte>,
                  data: array<int>)
    returns (ok: bool)
    requires j.Valid() && hac.For(ac) && AcTable(fac[..], ac, hac.values[..])
    requires |dequant| == 64 && data.Length == 64 && data != fac && data !in hac.Repr
    modifies j, data
    ensures var spec := AcFrom(ac, hac.values[..], dequant, j.S, old(j.pos), 1, old(data[..]));
            && (ok ==> j.Valid() && spec == Some(Block(data[..], j.pos)))
            && (!ok ==> spec.None? || j.Beyond(spec.value.pos))
  {
    hide AcTable, AcEntry, Dezigzag, Symbol, AcStep, AcEnd, AcFrom, Short, Fits, T.Hits, MsbCode, Holds, Rest;
    ghost var values := hac.values[..];
    ghost var spec := AcFrom(ac, values, dequant, j.S, j.pos, 1, data[..]);
    var k := 1;
    while k < 64
      invariant j.Valid() && 1 <= k < 80
      invariant AcTable(fac[..], ac, values) && hac.For(ac) && values == hac.values[..]
      invariant spec == AcFrom(ac, values, dequant, j.S, j.pos, k, data[..])
      decreases 80 - k
    {
      AcRound(ac, values, dequant, j.S, j.pos, k, data[..]);
      var a := NextAc(j, hac, ac, fac, k);
      match a
      case Bad => return false;
      case Stop => return true;
      case Zeros => k := k + 16;
      case Coefficient(m, v) =>
        var zig := Dezigzag(m);
        data[zig] := Short(v * dequant[zig]);
        k := m + 1;
    }
    AcDone(ac, values, dequant, j.S, j.pos, k, data[..]);
    ok := true;
  }

  /** One coefficient of the block. */
  lemma AcRound(lens: seq<nat>, values: seq<byte>, dequant: seq<byte>, S: seq<byte>, p: nat, k: nat, data: seq<int>)
    requires |lens| <= |values| && |dequant| == 64 == |data| && k < 64
    ensures var q := AcEnd(lens, values, S, p);
            AcFrom(lens, values, dequant, S, p, k, data) ==
            match AcStep(lens, values, S, p, k)
            case Bad => None
            case Stop => Some(Block(data, q))
            case Zeros => AcFrom(lens, values, dequant, S, q, k + 16, data)
            case Coefficient(m, v) =>
              var z := Dezigzag(m);
              AcFrom(lens, values, dequant, S, q, m + 1, data[z := Short(v * dequant[z])])
  {}

  lemma AcDone(lens: seq<nat>, values: seq<byte>, dequant: seq<byte>, S: seq<byte>, p: nat, k: nat, data: seq<int>)
    requires |lens| <= |values| && |dequant| == 64 == |data| && k >= 64
    ensures AcFrom(lens, values, dequant, S, p, k, data) == Some(Block(data, p))
  {}

  /** One coefficient, through the combined table or the slow path. */
  method NextAc(j: Decoder, hac: T.Huffman, ghost ac: seq<nat>, fac: array<int>, k: nat) returns (a: Ac)
    requires j.Valid() && hac.For(ac) && AcTable(fac[..], ac, hac.values[..])
    modifies j
    ensures var step := AcStep(ac, hac.values[..], j.S, old(j.pos), k);
            var end := AcEnd(ac, hac.values[..], j.S, old(j.pos));
            && (a != Bad ==> j.Valid() && a == step && j.pos == end)
            && (a == Bad ==> step == Bad || j.Beyond(end))
  {
    hide MsbCode, Symbol, Extend, AcEntry, RunOf, LengthOf, ValueOf;
    if j.codeBits < 16 { j.GrowBuffer(); }
    var c := j.Look(T.FAST_BITS);
    MsbBound(j.S, j.pos, T.FAST_BITS);
    WindowSize();
    var r := fac[c];
    if r != 0 {
      FastStep(ac, hac.values[..], fac[..], j.S, j.pos, k, r);
      j.Skip(LengthOf(r));
      return Coefficient(k + RunOf(r), ValueOf(r));
    }
    var rs := j.HuffDecode(hac, ac);
    if rs < 0 { return Bad; }
    var s := rs % 16;
    if s == 0 {
      if rs != 0xF0 { return Stop; }
      return Zeros;
    }
    var v := j.ExtendReceive(s);
    a := Coefficient(k + rs / 16, v);
  }
}
