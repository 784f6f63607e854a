/** Conforming DEFLATE encodings (RFC 1951 section 3.2), and the proof that the
    inflater inverts every one of them. */
module Deflate {
  import opened Options
  import opened Bits
  import opened BitStream
  import opened Canonical
  import opened PrefixDecode
  import opened InflateSpec
  import opened BitStrings

  // ----- symbols

  /** Code lengths of a usable code. */
  ghost predicate UsableCode(lens: seq<nat>) {
    Fits(lens, 15) && forall i :: 0 <= i < |lens| ==> lens[i] <= 15
  }

  lemma SymbolAt(lens: seq<nat>, S: seq<byte>, p: nat, i: nat)
    requires UsableCode(lens) && HasCode(lens, i) && At(S, p, SymbolBits(lens, i))
    ensures Symbol(lens, S, p) == Some(i)
  {
    CodedSymbolAt(lens, 15, S, p, i);
  }

  // ----- literals and length-distance pairs

  /** A literal byte, or a pair given by its two symbols and their extra bits. */
  datatype Token = Literal(b: byte) | Match(lsym: nat, lext: nat, dsym: nat, dext: nat)
  {
    predicate InRange() {
      Match? ==>
        && 257 <= lsym < 286 && lext < Shl(1, LengthExtra(lsym - 257))
        && dsym < 30 && dext < Shl(1, DistExtra(dsym))
    }

    function Len(): (r: nat)
      requires Match? && InRange()
      ensures r >= 3
    {
      LengthBase(lsym - 257) + lext
    }

    function Dist(): (r: nat)
      requires Match? && InRange()
      ensures r >= 1
    {
      DistBase(dsym) + dext
    }

    /** The symbols have codes, and the distance stays inside the output. */
    predicate Valid(ll: seq<nat>, dl: seq<nat>, out: seq<byte>) {
      InRange() &&
      match this
      case Literal(b) => HasCode(ll, b)
      case Match(_, _, _, _) => HasCode(ll, lsym) && HasCode(dl, dsym) && Dist() <= |out|
    }

    function Out(ll: seq<nat>, dl: seq<nat>, out: seq<byte>): (r: seq<byte>)
      requires Valid(ll, dl, out)
      ensures |r| > |out|
    {
      match this
      case Literal(b) => out + [b]
      case Match(_, _, _, _) => Copied(out, Dist(), Len())
    }

    function Encoding(ll: seq<nat>, dl: seq<nat>, out: seq<byte>): seq<bool>
      requires Valid(ll, dl, out)
    {
      match this
      case Literal(b) => SymbolBits(ll, b)
      case Match(_, _, _, _) =>
        SymbolBits(ll, lsym) + PairBits(dl, this)
    }
  }

  lemma TokenDecodes(S: seq<byte>, ll: seq<nat>, dl: seq<nat>, p: nat, t: Token, out: seq<byte>, cap: nat)
    requires UsableCode(ll) && UsableCode(dl) && t.Valid(ll, dl, out)
    requires At(S, p, t.Encoding(ll, dl, out)) && |t.Out(ll, dl, out)| <= cap
    ensures StepData(S, ll, dl, p, out, cap) == More(p + |t.Encoding(ll, dl, out)|, t.Out(ll, dl, out))
  {
    hide Symbol, PairData, Copied, UsableCode, At, SymbolBits;
    match t {
      case Literal(b) =>
        SymbolAt(ll, S, p, b);
      case Match(_, _, _, _) =>
        var a, rest := SymbolBits(ll, t.lsym), PairBits(dl, t);
        AtSplit(S, p, a, rest);
        SymbolAt(ll, S, p, t.lsym);
        PairDecodes(S, dl, p + |a|, t);
    }
  }

  /** The part of a pair after its length symbol. */
  function PairBits(dl: seq<nat>, t: Token): seq<bool>
    requires t.Match? && t.InRange() && HasCode(dl, t.dsym)
  {
    NumBits(t.lext, LengthExtra(t.lsym - 257)) + (SymbolBits(dl, t.dsym) + NumBits(t.dext, DistExtra(t.dsym)))
  }

  lemma PairDecodes(S: seq<byte>, dl: seq<nat>, p: nat, t: Token)
    requires UsableCode(dl) && t.Match? && t.InRange() && HasCode(dl, t.dsym)
    requires At(S, p, PairBits(dl, t))
    ensures PairData(S, dl, p, t.lsym) == Pair(t.Len(), t.Dist(), p + |PairBits(dl, t)|)
  {
    hide Symbol, UsableCode, At, SymbolBits, Window, LengthBase, LengthExtra, DistBase, DistExtra;
    var b, c, d := NumBits(t.lext, LengthExtra(t.lsym - 257)), SymbolBits(dl, t.dsym),
        NumBits(t.dext, DistExtra(t.dsym));
    AtSplit(S, p, b, c + d);
    AtSplit(S, p + |b|, c, d);
    NumAt(S, p, t.lext, LengthExtra(t.lsym - 257));
    SymbolAt(dl, S, p + |b|, t.dsym);
    NumAt(S, p + |b| + |c|, t.dext, DistExtra(t.dsym));
  }

  predicate ValidTokens(ll: seq<nat>, dl: seq<nat>, ts: seq<Token>, out: seq<byte>) {
    if ts == [] then HasCode(ll, 256)
    else ts[0].Valid(ll, dl, out) && ValidTokens(ll, dl, ts[1..], ts[0].Out(ll, dl, out))
  }

  /** What the tokens append to the output. */
  function TokensOut(ll: seq<nat>, dl: seq<nat>, ts: seq<Token>, out: seq<byte>): (r: seq<byte>)
    requires ValidTokens(ll, dl, ts, out)
    ensures |r| >= |out|
  {
    if ts == [] then out else TokensOut(ll, dl, ts[1..], ts[0].Out(ll, dl, out))
  }

  /** The tokens and the end-of-block symbol. */
  function TokensBits(ll: seq<nat>, dl: seq<nat>, ts: seq<Token>, out: seq<byte>): seq<bool>
    requires ValidTokens(ll, dl, ts, out)
  {
    if ts == [] then SymbolBits(ll, 256)
    else ts[0].Encoding(ll, dl, out) + TokensBits(ll, dl, ts[1..], ts[0].Out(ll, dl, out))
  }

  lemma {:induction false} TokensDecode(S: seq<byte>, ll: seq<nat>, dl: seq<nat>, p: nat, ts: seq<Token>,
                                        out: seq<byte>, cap: nat)
    requires UsableCode(ll) && UsableCode(dl) && ValidTokens(ll, dl, ts, out)
    requires At(S, p, TokensBits(ll, dl, ts, out)) && |TokensOut(ll, dl, ts, out)| <= cap
    ensures HuffmanData(S, ll, dl, p, out, cap) ==
            Done(p + |TokensBits(ll, dl, ts, out)|, TokensOut(ll, dl, ts, out))
    decreases |ts|
  {
    hide StepData, UsableCode, At, SymbolBits;
    if ts == [] {
      EndDecodes(S, ll, dl, p, out, cap);
    } else {
      var t, longer := ts[0], ts[0].Out(ll, dl, out);
      AtSplit(S, p, t.Encoding(ll, dl, out), TokensBits(ll, dl, ts[1..], longer));
      TokenDecodes(S, ll, dl, p, t, out, cap);
      TokensDecode(S, ll, dl, p + |t.Encoding(ll, dl, out)|, ts[1..], longer, cap);
    }
  }

  lemma EndDecodes(S: seq<byte>, ll: seq<nat>, dl: seq<nat>, p: nat, out: seq<byte>, cap: nat)
    requires UsableCode(ll) && HasCode(ll, 256) && At(S, p, SymbolBits(ll, 256)) && |out| <= cap
    ensures StepData(S, ll, dl, p, out, cap) == Stop(p + ll[256])
  {
    SymbolAt(ll, S, p, 256);
  }

  // ----- dynamic headers

  /** A code length symbol with its extra bits: a length below 16, a repetition
      (16), a short run of zeros (17) or a long one (18). */
  datatype LengthOp = LengthOp(symbol: nat, ext: nat)
  {
    predicate InRange() {
      symbol <= 18 && ext < Shl(1, ExtraBits())
    }

    function ExtraBits(): nat {
      if symbol < 16 then 0 else if symbol == 16 then 2 else if symbol == 17 then 3 else 7
    }

    /** The code lengths it adds to those before it. */
    function Out(acc: seq<byte>): (r: seq<byte>)
      requires InRange() && (symbol == 16 ==> acc != [])
      ensures |r| > |acc|
    {
      if symbol < 16 then acc + [symbol]
      else acc + Fill(if symbol == 16 then acc[|acc| - 1] else 0, ext + if symbol == 18 then 11 else 3)
    }

    predicate Valid(cl: seq<nat>, acc: seq<byte>, total: nat) {
      InRange() && HasCode(cl, symbol) && (symbol == 16 ==> acc != []) && |Out(acc)| <= total
    }

    function Encoding(cl: seq<nat>): (b: seq<bool>)
      requires HasCode(cl, symbol)
    {
      SymbolBits(cl, symbol) + NumBits(ext, ExtraBits())
    }
  }

  /** The operations fill exactly `total` code lengths. */
  predicate ValidOps(cl: seq<nat>, ops: seq<LengthOp>, acc: seq<byte>, total: nat) {
    if ops == [] then |acc| == total
    else ops[0].Valid(cl, acc, total) && ValidOps(cl, ops[1..], ops[0].Out(acc), total)
  }

  function OpsOut(cl: seq<nat>, ops: seq<LengthOp>, acc: seq<byte>, total: nat): (r: seq<byte>)
    requires ValidOps(cl, ops, acc, total)
    ensures |r| == total
  {
    if ops == [] then acc else OpsOut(cl, ops[1..], ops[0].Out(acc), total)
  }

  function OpsBits(cl: seq<nat>, ops: seq<LengthOp>, acc: seq<byte>, total: nat): seq<bool>
    requires ValidOps(cl, ops, acc, total)
  {
    if ops == [] then [] else ops[0].Encoding(cl) + OpsBits(cl, ops[1..], ops[0].Out(acc), total)
  }

  lemma OpDecodes(S: seq<byte>, cl: seq<nat>, p: nat, op: LengthOp, acc: seq<byte>, total: nat)
    requires UsableCode(cl) && op.Valid(cl, acc, total) && total <= 320
    requires At(S, p, op.Encoding(cl))
    ensures LengthStep(S, cl, p, acc) == Some((op.Out(acc), p + |op.Encoding(cl)|))
  {
    hide Symbol, UsableCode, At, SymbolBits;
    AtSplit(S, p, SymbolBits(cl, op.symbol), NumBits(op.ext, op.ExtraBits()));
    SymbolAt(cl, S, p, op.symbol);
    NumAt(S, p + |SymbolBits(cl, op.symbol)|, op.ext, op.ExtraBits());
  }

  lemma {:induction false} OpsDecode(S: seq<byte>, cl: seq<nat>, p: nat, ops: seq<LengthOp>, acc: seq<byte>, total: nat)
    requires UsableCode(cl) && ValidOps(cl, ops, acc, total) && total <= 320
    requires forall i :: 0 <= i < |acc| ==> acc[i] <= 15
    requires At(S, p, OpsBits(cl, ops, acc, total))
    ensures ReadLengths(S, cl, p, acc, total) == Lens(OpsOut(cl, ops, acc, total), p + |OpsBits(cl, ops, acc, total)|)
    decreases |ops|
  {
    hide LengthStep, UsableCode, At, SymbolBits, ReadLengths, LengthOp.Out, LengthOp.Encoding;
    if ops == [] {
      LengthsDone(S, cl, p, acc);
    } else {
      AtSplit(S, p, ops[0].Encoding(cl), OpsBits(cl, ops[1..], ops[0].Out(acc), total));
      OpDecodes(S, cl, p, ops[0], acc, total);
      LengthStepBound(S, cl, p, acc);
      LengthsStep(S, cl, p, acc, total);
      OpsDecode(S, cl, p + |ops[0].Encoding(cl)|, ops[1..], ops[0].Out(acc), total);
    }
  }

  lemma LengthsDone(S: seq<byte>, cl: seq<nat>, p: nat, acc: seq<byte>)
    requires forall i :: 0 <= i < |acc| ==> acc[i] <= 15
    ensures ReadLengths(S, cl, p, acc, |acc|) == Lens(acc, p)
  {}

  lemma LengthsStep(S: seq<byte>, cl: seq<nat>, p: nat, acc: seq<byte>, total: nat)
    requires |acc| < total && LengthStep(S, cl, p, acc).Some?
    requires forall i :: 0 <= i < |acc| ==> acc[i] <= 15
    ensures forall i :: 0 <= i < |LengthStep(S, cl, p, acc).value.0| ==> LengthStep(S, cl, p, acc).value.0[i] <= 15
    ensures var (longer, q) := LengthStep(S, cl, p, acc).value;
            ReadLengths(S, cl, p, acc, total) == ReadLengths(S, cl, q, longer, total)
  {
    hide LengthStep;
    LengthStepBound(S, cl, p, acc);
  }

  /** The first n transmitted code length code lengths, the others zero. */
  function Transmitted(cl: seq<byte>, n: nat): (r: seq<byte>)
    requires |cl| == 19 && n <= 19
    ensures |r| == 19
  {
    if n == 0 then seq(19, _ => 0) else Transmitted(cl, n - 1)[Order()[n - 1] := cl[Order()[n - 1]]]
  }

  function TransmittedBits(cl: seq<byte>, n: nat): (b: seq<bool>)
    requires |cl| == 19 && n <= 19
    ensures |b| == 3 * n
  {
    if n == 0 then [] else TransmittedBits(cl, n - 1) + NumBits(cl[Order()[n - 1]], 3)
  }

  lemma {:induction false} TransmittedDecodes(S: seq<byte>, p: nat, cl: seq<byte>, n: nat)
    requires |cl| == 19 && n <= 19 && forall i :: 0 <= i < 19 ==> cl[i] < Shl(1, 3)
    requires At(S, p, TransmittedBits(cl, n))
    ensures CodeLengthSizes(S, p, n) == Transmitted(cl, n)
  {
    hide Window, At, Order, Dezigzag;
    if n > 0 {
      DezigzagIsOrder(n - 1);
      AtSplit(S, p, TransmittedBits(cl, n - 1), NumBits(cl[Order()[n - 1]], 3));
      TransmittedDecodes(S, p, cl, n - 1);
      NumAt(S, p + 3 * (n - 1), cl[Order()[n - 1]], 3);
    }
  }

  /** The two codes of a dynamic block and one way to transmit them. */
  datatype DynamicCode = DynamicCode(hlit: nat, hdist: nat, hclen: nat, cl: seq<byte>, ops: seq<LengthOp>)
  {
    ghost predicate Valid() {
      && 257 <= hlit < 257 + Shl(1, 5) && 1 <= hdist < 1 + Shl(1, 5) && 4 <= hclen <= 19
      && |cl| == 19 && (forall i :: 0 <= i < 19 ==> cl[i] < Shl(1, 3))
      && Transmitted(cl, hclen) == cl && UsableCode(cl)
      && ValidOps(cl, ops, [], hlit + hdist)
      && UsableCode(LitLens()) && UsableCode(DistLens())
    }

    function LitLens(): seq<byte>
      requires ValidOps(cl, ops, [], hlit + hdist)
    {
      OpsOut(cl, ops, [], hlit + hdist)[..hlit]
    }

    function DistLens(): seq<byte>
      requires ValidOps(cl, ops, [], hlit + hdist)
    {
      OpsOut(cl, ops, [], hlit + hdist)[hlit..]
    }

    ghost function CountBits(): (b: seq<bool>)
      requires Valid()
      ensures |b| == 14
    {
      NumBits(hlit - 257, 5) + (NumBits(hdist - 1, 5) + NumBits(hclen - 4, 4))
    }

    ghost function Encoding(): seq<bool>
      requires Valid()
    {
      CountBits() + (TransmittedBits(cl, hclen) + OpsBits(cl, ops, [], hlit + hdist))
    }
  }

  lemma CountsDecode(S: seq<byte>, p: nat, d: DynamicCode)
    requires d.Valid() && At(S, p, d.CountBits())
    ensures Window(S, p, 5) == d.hlit - 257 && Window(S, p + 5, 5) == d.hdist - 1 && Window(S, p + 10, 4) == d.hclen - 4
  {
    hide Window, At, UsableCode;
    AtSplit(S, p, NumBits(d.hlit - 257, 5), NumBits(d.hdist - 1, 5) + NumBits(d.hclen - 4, 4));
    AtSplit(S, p + 5, NumBits(d.hdist - 1, 5), NumBits(d.hclen - 4, 4));
    assert Shl(1, 4) == 16;
    NumAt(S, p, d.hlit - 257, 5);
    NumAt(S, p + 5, d.hdist - 1, 5);
    NumAt(S, p + 10, d.hclen - 4, 4);
  }

  lemma HeaderDecodes(S: seq<byte>, p: nat, d: DynamicCode)
    requires d.Valid() && At(S, p, d.Encoding())
    ensures DynamicHeader(S, p) == Tables(d.LitLens(), d.DistLens(), p + |d.Encoding()|)
  {
    hide Window, At, ReadLengths, CodeLengthSizes, Fits, OpsBits, OpsOut, TransmittedBits, Transmitted, ValidOps,
         DynamicCode.CountBits;
    var total := d.hlit + d.hdist;
    var counts, cls, ops := d.CountBits(), TransmittedBits(d.cl, d.hclen), OpsBits(d.cl, d.ops, [], total);
    AtSplit(S, p, counts, cls + ops);
    AtSplit(S, p + 14, cls, ops);
    CountsDecode(S, p, d);
    TransmittedDecodes(S, p + 14, d.cl, d.hclen);
    assert Shl(1, 5) == 32;
    OpsDecode(S, d.cl, p + 14 + 3 * d.hclen, d.ops, [], total);
  }

  // ----- blocks

  datatype Block =
    | Stored(padding: seq<bool>, data: seq<byte>)
    | Fixed(tokens: seq<Token>)
    | Dynamic(code: DynamicCode, tokens: seq<Token>)
  {
    /** A block that starts at position p, after this output. */
    ghost predicate Valid(p: nat, out: seq<byte>) {
      match this
      case Stored(padding, data) => |padding| == (13 - p % 8) % 8 && |data| <= 0xFFFF
      case Fixed(ts) => ValidTokens(FixedLengths(), FixedDistances(), ts, out)
      case Dynamic(code, ts) => code.Valid() && ValidTokens(code.LitLens(), code.DistLens(), ts, out)
    }

    /** The output after the block. */
    ghost function Out(p: nat, out: seq<byte>): (r: seq<byte>)
      requires Valid(p, out)
      ensures |r| >= |out|
    {
      match this
      case Stored(_, data) => out + data
      case Fixed(ts) => TokensOut(FixedLengths(), FixedDistances(), ts, out)
      case Dynamic(code, ts) => TokensOut(code.LitLens(), code.DistLens(), ts, out)
    }

    function Kind(): nat {
      if Stored? then 0 else if Fixed? then 1 else 2
    }

    ghost function Body(p: nat, out: seq<byte>): seq<bool>
      requires Valid(p, out)
    {
      match this
      case Stored(padding, data) =>
        padding + StoredBits(data)
      case Fixed(ts) => TokensBits(FixedLengths(), FixedDistances(), ts, out)
      case Dynamic(code, ts) => code.Encoding() + TokensBits(code.LitLens(), code.DistLens(), ts, out)
    }

    ghost function Encoding(final: bool, p: nat, out: seq<byte>): (b: seq<bool>)
      requires Valid(p, out)
      ensures |b| > 0
    {
      [final] + (NumBits(Kind(), 2) + Body(p, out))
    }
  }

  function BytesBits(data: seq<byte>): (b: seq<bool>)
    ensures |b| == 8 * |data|
  {
    if data == [] then [] else NumBits(data[0], 8) + BytesBits(data[1..])
  }

  lemma {:induction false} BytesAt(S: seq<byte>, k: nat, data: seq<byte>)
    requires At(S, 8 * k, BytesBits(data))
    ensures k + |data| <= |S| && S[k..k + |data|] == data
    decreases |data|
  {
    if data == [] {
      assert S[k..k] == [];
    } else {
      AtSplit(S, 8 * k, NumBits(data[0], 8), BytesBits(data[1..]));
      ByteAtBoundary(S, k, data[0]);
      BytesAt(S, k + 1, data[1..]);
      assert S[k..k + |data|] == [S[k]] + S[k + 1..k + 1 + |data[1..]|];
    }
  }

  lemma ByteAtBoundary(S: seq<byte>, k: nat, b: byte)
    requires At(S, 8 * k, NumBits(b, 8))
    ensures k < |S| && S[k] == b
  {
    assert Shl(1, 8) == 256;
    NumAt(S, 8 * k, b, 8);
    ByteWindow(S, k, 8);
  }

  lemma SixteenBits()
    ensures Shl(1, 16) == 0x10000
  {
    ShlShl(1, 8, 8);
    var x := Shl(1, 8);
    assert x == 256;
    assert Shl(x, 8) == 2 * Shl(x, 7) == 4 * Shl(x, 6) == 8 * Shl(x, 5) == 16 * Shl(x, 4);
    assert Shl(x, 4) == 2 * Shl(x, 3) == 4 * Shl(x, 2) == 8 * Shl(x, 1) == 16 * x;
  }

  /** Sixteen bits from a byte boundary are two bytes, low byte first. */
  lemma PairAtBoundary(S: seq<byte>, k: nat, x: nat)
    requires At(S, 8 * k, NumBits(x, 16)) && x <= 0xFFFF
    ensures 256 * ByteAt(S, k + 1) + ByteAt(S, k) == x
  {
    hide Window, NumBits, At;
    SixteenBits();
    NumAt(S, 8 * k, x, 16);
    WindowSplit(S, 8 * k, 8, 8);
    ByteWindow(S, k, 8);
    ByteWindow(S, k + 1, 8);
    var b: nat := ByteAt(S, k + 1);
    assert Shl(b, 8) == 2 * Shl(b, 7) == 4 * Shl(b, 6) == 8 * Shl(b, 5) == 16 * Shl(b, 4);
    assert Shl(b, 4) == 2 * Shl(b, 3) == 4 * Shl(b, 2) == 8 * Shl(b, 1) == 16 * b;
  }

  /** The part of a stored block behind its padding. */
  function StoredBits(data: seq<byte>): (b: seq<bool>)
    requires |data| <= 0xFFFF
    ensures |b| == 32 + 8 * |data|
  {
    NumBits(|data|, 16) + (NumBits(0xFFFF - |data|, 16) + BytesBits(data))
  }

  lemma StoredParts(S: seq<byte>, q: nat, data: seq<byte>)
    requires |data| <= 0xFFFF && At(S, 8 * q, StoredBits(data))
    ensures 256 * ByteAt(S, q + 1) + ByteAt(S, q) == |data|
    ensures 256 * ByteAt(S, q + 3) + ByteAt(S, q + 2) == 0xFFFF - |data|
    ensures q + 4 + |data| <= |S| && S[q + 4..q + 4 + |data|] == data
  {
    hide At, ByteAt, NumBits, BytesBits;
    var n := |data|;
    AtSplit(S, 8 * q, NumBits(n, 16), NumBits(0xFFFF - n, 16) + BytesBits(data));
    AtSplit(S, 8 * (q + 2), NumBits(0xFFFF - n, 16), BytesBits(data));
    PairAtBoundary(S, q, n);
    PairAtBoundary(S, q + 2, 0xFFFF - n);
    BytesAt(S, q + 4, data);
  }

  lemma StoredDecodes(S: seq<byte>, p: nat, padding: seq<bool>, data: seq<byte>, out: seq<byte>, cap: nat)
    requires |padding| == (16 - p % 8) % 8 && |data| <= 0xFFFF && |out| + |data| <= cap
    requires At(S, p, padding + StoredBits(data))
    ensures StoredData(S, p, out, cap) == Done(p + |padding + StoredBits(data)|, out + data)
  {
    hide At, ByteAt, StoredBits;
    assert p + |padding| == 8 * ((p + 7) / 8);
    AtSplit(S, p, padding, StoredBits(data));
    StoredParts(S, (p + 7) / 8, data);
  }

  lemma FixedUsable()
    ensures UsableCode(FixedLengths()) && UsableCode(FixedDistances())
  {
    FixedFits();
    FixedEntries();
  }

  /** One block: its data are decoded and the reader stops right behind it. */
  lemma BlockDecodes(S: seq<byte>, p: nat, b: Block, final: bool, out: seq<byte>, cap: nat)
    requires b.Valid(p, out) && At(S, p, b.Encoding(final, p, out)) && |b.Out(p, out)| <= cap
    ensures BlockData(S, p, out, cap) == Done(p + |b.Encoding(final, p, out)|, b.Out(p, out))
    ensures BitOf(S, p) == if final then 1 else 0
  {
    hide At, Window, BitOf, BlockData, Block.Body, Block.Out, Block.Valid;
    var kind, body := NumBits(b.Kind(), 2), b.Body(p, out);
    AtSplit(S, p, [final], kind + body);
    AtSplit(S, p + 1, kind, body);
    AtOne(S, p, final);
    assert Shl(1, 2) == 4;
    NumAt(S, p + 1, b.Kind(), 2);
    BodyDecodes(S, p, b, out, cap);
  }

  lemma BodyDecodes(S: seq<byte>, p: nat, b: Block, out: seq<byte>, cap: nat)
    requires b.Valid(p, out) && At(S, p + 3, b.Body(p, out)) && |b.Out(p, out)| <= cap
    requires Window(S, p + 1, 2) == b.Kind()
    ensures BlockData(S, p, out, cap) == Done(p + 3 + |b.Body(p, out)|, b.Out(p, out))
  {
    hide At, Window, BitOf, HuffmanData, StoredData, DynamicHeader, FixedLengths, FixedDistances, StoredBits,
         ValidTokens, TokensOut, TokensBits, DynamicCode.Valid, DynamicCode.Encoding, UsableCode, Shl;
    match b {
      case Stored(padding, data) =>
        StoredDecodes(S, p + 3, padding, data, out, cap);
      case Fixed(ts) =>
        FixedUsable();
        TokensDecode(S, FixedLengths(), FixedDistances(), p + 3, ts, out, cap);
      case Dynamic(code, ts) =>
        DynamicDecodes(S, p + 3, code, ts, out, cap);
    }
  }

  lemma DynamicDecodes(S: seq<byte>, p: nat, code: DynamicCode, ts: seq<Token>, out: seq<byte>, cap: nat)
    requires code.Valid() && ValidTokens(code.LitLens(), code.DistLens(), ts, out)
    requires At(S, p, code.Encoding() + TokensBits(code.LitLens(), code.DistLens(), ts, out))
    requires |TokensOut(code.LitLens(), code.DistLens(), ts, out)| <= cap
    ensures DynamicHeader(S, p) == Tables(code.LitLens(), code.DistLens(), p + |code.Encoding()|)
    ensures HuffmanData(S, code.LitLens(), code.DistLens(), p + |code.Encoding()|, out, cap) ==
            Done(p + |code.Encoding() + TokensBits(code.LitLens(), code.DistLens(), ts, out)|,
                 TokensOut(code.LitLens(), code.DistLens(), ts, out))
  {
    hide At, HuffmanData, DynamicHeader, ValidTokens, TokensOut, TokensBits, DynamicCode.Encoding, UsableCode;
    AtSplit(S, p, code.Encoding(), TokensBits(code.LitLens(), code.DistLens(), ts, out));
    HeaderDecodes(S, p, code);
    TokensDecode(S, code.LitLens(), code.DistLens(), p + |code.Encoding()|, ts, out, cap);
  }

  // ----- streams of blocks

  ghost predicate ValidBlocks(bs: seq<Block>, p: nat, out: seq<byte>)
    decreases |bs|
  {
    bs != [] && bs[0].Valid(p, out) &&
    (|bs| > 1 ==> ValidBlocks(bs[1..], p + |bs[0].Encoding(false, p, out)|, bs[0].Out(p, out)))
  }

  /** The bytes that a list of blocks denotes. */
  ghost function BlocksOut(bs: seq<Block>, p: nat, out: seq<byte>): (r: seq<byte>)
    requires ValidBlocks(bs, p, out)
    ensures |r| >= |bs[0].Out(p, out)|
    decreases |bs|
  {
    hide Block.Valid, Block.Out, Block.Encoding;
    if |bs| == 1 then bs[0].Out(p, out)
    else BlocksOut(bs[1..], p + |bs[0].Encoding(false, p, out)|, bs[0].Out(p, out))
  }

  /** A bit string that encodes them, the last one marked final. */
  ghost function BlocksBits(bs: seq<Block>, p: nat, out: seq<byte>): seq<bool>
    requires ValidBlocks(bs, p, out)
    decreases |bs|
  {
    hide Block.Valid, Block.Out, Block.Encoding;
    if |bs| == 1 then bs[0].Encoding(true, p, out)
    else
      var first := bs[0].Encoding(false, p, out);
      first + BlocksBits(bs[1..], p + |first|, bs[0].Out(p, out))
  }

  /** Inflation inverts every conforming encoding of every list of blocks: it
      succeeds with the bytes they denote and stops behind the final block,
      whatever bits follow. */
  lemma {:induction false} InflateInverts(S: seq<byte>, bs: seq<Block>, p: nat, out: seq<byte>, cap: nat)
    requires ValidBlocks(bs, p, out) && At(S, p, BlocksBits(bs, p, out)) && |BlocksOut(bs, p, out)| <= cap
    ensures Blocks(S, p, out, cap) == Done(p + |BlocksBits(bs, p, out)|, BlocksOut(bs, p, out))
    decreases |bs|
  {
    hide At, BlockData, BitOf, Block.Valid, Block.Out, Block.Encoding;
    if |bs| == 1 {
      BlockDecodes(S, p, bs[0], true, out, cap);
    } else {
      var first := bs[0].Encoding(false, p, out);
      AtSplit(S, p, first, BlocksBits(bs[1..], p + |first|, bs[0].Out(p, out)));
      BlockDecodes(S, p, bs[0], false, out, cap);
      InflateInverts(S, bs[1..], p + |first|, bs[0].Out(p, out), cap);
    }
  }

  // ----- a compressor for any list of blocks

  /** The two header bytes of RFC 1950 section 2.2: method 8, no dictionary, check bits. */
  function Header(cinfo: nat, level: nat): (r: seq<byte>)
    requires cinfo < 16 && level < 4
    ensures |r| == 2
  {
    var cmf, flg := 8 + 16 * cinfo, 64 * level;
    [cmf, flg + (31 - (256 * cmf + flg) % 31) % 31]
  }

  /** A zlib stream of the blocks: the header, then their bits. */
  ghost function Compress(bs: seq<Block>, cinfo: nat, level: nat): seq<byte>
    requires ValidBlocks(bs, 16, []) && cinfo < 16 && level < 4
  {
    Header(cinfo, level) + Pack(BlocksBits(bs, 16, []))
  }

  lemma HeaderAccepted(cinfo: nat, level: nat, rest: seq<byte>)
    requires cinfo < 16 && level < 4
    ensures ZlibHeader(Header(cinfo, level) + rest)
  {
    var sum := 256 * (8 + 16 * cinfo) + 64 * level;
    var check := (31 - sum % 31) % 31;
    assert (sum + check) % 31 == 0;
    HeaderFields(Header(cinfo, level) + rest, 8, cinfo, check, 0, level);
  }

  /** Decompressing a compressed list of blocks gives the bytes they denote, for
      every window size and level in the header. */
  lemma ZlibRoundTrip(bs: seq<Block>, cinfo: nat, level: nat, cap: nat)
    requires ValidBlocks(bs, 16, []) && |BlocksOut(bs, 16, [])| <= cap && cinfo < 16 && level < 4
    ensures Zlib(Compress(bs, cinfo, level), true, cap) ==
            Done(16 + |BlocksBits(bs, 16, [])|, BlocksOut(bs, 16, []))
  {
    hide ValidBlocks, BlocksBits, BlocksOut, Pack, At, Blocks, ZlibHeader, Header;
    HeaderAccepted(cinfo, level, Pack(BlocksBits(bs, 16, [])));
    PackAt(Header(cinfo, level), BlocksBits(bs, 16, []));
    InflateInverts(Compress(bs, cinfo, level), bs, 16, [], cap);
  }
}
