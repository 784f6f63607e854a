/** What the inflater computes from a byte string, as functions of the bit
    position. `Undefined` marks the streams on which the C code leaves its own
    tables or buffers; it rejects the `Failed` ones. */
module InflateSpec {
  import opened Options
  import opened Bits
  import opened BitStream
  import opened Canonical
  import opened PrefixDecode

  datatype Result = Done(pos: nat, out: seq<byte>) | Failed | Undefined

  datatype Pair = Pair(len: nat, dist: nat, pos: nat) | BadPair | UndefinedPair

  datatype Step = More(pos: nat, out: seq<byte>) | Stop(pos: nat) | BadStep | UndefinedStep

  datatype Header = Tables(ll: seq<byte>, dl: seq<byte>, pos: nat) | BadHeader | UndefinedHeader

  datatype LengthList = Lens(lens: seq<byte>, pos: nat) | BadLens | UndefinedLens

  // The four 31- and 32-entry tables of base values and extra bit counts,
  // written as piecewise linear functions of the index.

  /** Extra bits of length symbol 257 + k. */
  function LengthExtra(k: nat): (r: nat)
    ensures r <= 5
  {
    if k < 8 then 0 else if k < 28 then k / 4 - 1 else 0
  }

  function LengthBase(k: nat): (r: nat)
    ensures k < 29 ==> 3 <= r
  {
    if k < 8 then 3 + k else if k < 12 then 2 * k - 5 else if k < 16 then 4 * k - 29
    else if k < 20 then 8 * k - 93 else if k < 24 then 16 * k - 253 else if k < 28 then 32 * k - 637
    else if k == 28 then 258 else 0
  }

  /** Extra bits of distance symbol k. */
  function DistExtra(k: nat): (r: nat)
    ensures r <= 13
  {
    if k < 4 then 0 else if k < 30 then k / 2 - 1 else 0
  }

  function DistBase(k: nat): (r: nat)
    ensures k < 30 ==> 1 <= r
  {
    if k < 4 then k + 1 else if k < 6 then 2 * k - 3 else if k < 8 then 4 * k - 15
    else if k < 10 then 8 * k - 47 else if k < 12 then 16 * k - 127 else if k < 14 then 32 * k - 319
    else if k < 16 then 64 * k - 767 else if k < 18 then 128 * k - 1791 else if k < 20 then 256 * k - 4095
    else if k < 22 then 512 * k - 9215 else if k < 24 then 1024 * k - 20479 else if k < 26 then 2048 * k - 45055
    else if k < 28 then 4096 * k - 98303 else if k < 30 then 8192 * k - 212991 else 0
  }

  // The tables of RFC 1951 section 3.2.5, entry by entry.

  lemma LengthBases(k: nat)
    requires k < 29
    ensures LengthBase(k) ==
            [3, 4, 5, 6, 7, 8, 9, 10, 11, 13, 15, 17, 19, 23, 27, 31, 35, 43, 51, 59, 67, 83, 99, 115, 131,
             163, 195, 227, 258][k]
  {}

  lemma LengthExtras(k: nat)
    requires k < 29
    ensures LengthExtra(k) ==
            [0, 0, 0, 0, 0, 0, 0, 0, 1, 1, 1, 1, 2, 2, 2, 2, 3, 3, 3, 3, 4, 4, 4, 4, 5, 5, 5, 5, 0][k]
  {}

  lemma DistBases(k: nat)
    requires k < 30
    ensures DistBase(k) ==
            [1, 2, 3, 4, 5, 7, 9, 13, 17, 25, 33, 49, 65, 97, 129, 193, 257, 385, 513, 769, 1025, 1537, 2049,
             3073, 4097, 6145, 8193, 12289, 16385, 24577][k]
  {}

  lemma DistExtras(k: nat)
    requires k < 30
    ensures DistExtra(k) ==
            [0, 0, 0, 0, 1, 1, 2, 2, 3, 3, 4, 4, 5, 5, 6, 6, 7, 7, 8, 8, 9, 9, 10, 10, 11, 11, 12, 12, 13,
             13][k]
  {}

  /** The ranges of lengths denoted by the length symbols follow one another
      from 3 to 258; only 258 itself is denoted twice. */
  lemma LengthRanges(k: nat)
    requires k < 28
    ensures LengthBase(0) == 3 && LengthBase(28) == 258 && LengthExtra(28) == 0
    ensures LengthBase(k) + Shl(1, LengthExtra(k)) == LengthBase(k + 1) + (if k == 27 then 1 else 0)
  {
    PowerTable(LengthExtra(k));
  }

  /** The ranges of distances follow one another from 1 to 32768. */
  lemma DistRanges(k: nat)
    requires k < 30
    ensures DistBase(0) == 1
    ensures DistBase(k) + Shl(1, DistExtra(k)) == if k == 29 then 32769 else DistBase(k + 1)
  {
    PowerTable(DistExtra(k));
  }

  lemma PowerTable(n: nat)
    requires n <= 13
    ensures Shl(1, n) ==
            if n < 7 then
              (if n == 0 then 1 else if n == 1 then 2 else if n == 2 then 4 else if n == 3 then 8
               else if n == 4 then 16 else if n == 5 then 32 else 64)
            else
              (if n == 7 then 128 else if n == 8 then 256 else if n == 9 then 512 else if n == 10 then 1024
               else if n == 11 then 2048 else if n == 12 then 4096 else 8192)
  {
    if n > 0 { PowerTable(n - 1); }
  }

  /** The code length symbol whose length is transmitted i-th:
      16, 17, 18, 0, then outwards from 8: 8, 7, 9, 6, ..., 1, 15. */
  function Dezigzag(i: nat): (r: nat)
    requires i < 19
    ensures r < 19
  {
    if i < 3 then 16 + i else if i == 3 then 0 else if i % 2 == 0 then 6 + i / 2 else 9 - i / 2
  }

  /** The order in which code length code lengths are transmitted (RFC 1951 section 3.2.7). */
  function Order(): (order: seq<nat>)
    ensures |order| == 19 && forall i :: 0 <= i < 19 ==> order[i] < 19
  {
    [16, 17, 18, 0, 8, 7, 9, 6, 10, 5, 11, 4, 12, 3, 13, 2, 14, 1, 15]
  }

  lemma DezigzagIsOrder(i: nat)
    requires i < 19
    ensures Dezigzag(i) == Order()[i]
  {
    if i < 10 {
      assert i in {0, 1, 2, 3, 4, 5, 6, 7, 8, 9};
    } else {
      assert i in {10, 11, 12, 13, 14, 15, 16, 17, 18};
    }
  }

  /** Room for the code lengths of one dynamic block. */
  const LENCODES: nat := 286 + 32 + 137

  // ----- LZ77

  /** Append len bytes, each the byte dist places before it. */
  function Copied(out: seq<byte>, dist: nat, len: nat): (r: seq<byte>)
    requires 1 <= dist <= |out|
    ensures |r| == |out| + len
  {
    if len == 0 then out else var before := Copied(out, dist, len - 1); before + [before[|before| - dist]]
  }

  /** The LZ77 copy law, also where the copy overlaps what it writes. */
  lemma {:induction false} CopyLaw(out: seq<byte>, dist: nat, len: nat)
    requires 1 <= dist <= |out|
    ensures Copied(out, dist, len)[..|out|] == out
    ensures forall i :: |out| <= i < |out| + len ==> Copied(out, dist, len)[i] == Copied(out, dist, len)[i - dist]
    ensures dist == 1 ==> forall i :: |out| <= i < |out| + len ==> Copied(out, dist, len)[i] == out[|out| - 1]
  {
    if len > 0 { CopyLaw(out, dist, len - 1); }
  }

  // ----- a block of symbols

  /** The rest of a length-distance pair after its length symbol z. */
  ghost function PairData(S: seq<byte>, dl: seq<nat>, p: nat, z: nat): (r: Pair)
    requires z >= 257
    ensures r.Pair? ==> r.len >= 3 && r.dist >= 1 && r.pos >= p
  {
    if z >= 286 then UndefinedPair
    else
      var p2 := p + LengthExtra(z - 257);
      var len := LengthBase(z - 257) + Window(S, p, LengthExtra(z - 257));
      match Symbol(dl, S, p2)
      case None => BadPair
      case Some(d) =>
        if d >= 30 then UndefinedPair
        else
          var p3 := p2 + dl[d];
          Pair(len, DistBase(d) + Window(S, p3, DistExtra(d)), p3 + DistExtra(d))
  }

  /** Decode one literal, one length-distance pair or the end-of-block symbol;
      at most cap bytes fit. */
  ghost function StepData(S: seq<byte>, ll: seq<nat>, dl: seq<nat>, p: nat, out: seq<byte>, cap: nat): (r: Step)
    requires |out| <= cap
    ensures r.More? ==> r.pos > p && |out| < |r.out| <= cap
    ensures r.Stop? ==> r.pos > p
  {
    match Symbol(ll, S, p)
    case None => BadStep
    case Some(z) =>
      var p1 := p + ll[z];
      if z < 256 then
        if |out| == cap then BadStep else More(p1, out + [z])
      else if z == 256 then Stop(p1)
      else
        match PairData(S, dl, p1, z)
        case BadPair => BadStep
        case UndefinedPair => UndefinedStep
        case Pair(len, dist, q) =>
          if dist > |out| || |out| + len > cap then BadStep else More(q, Copied(out, dist, len))
  }

  /** Decode symbols from p until the end-of-block symbol. */
  ghost function HuffmanData(S: seq<byte>, ll: seq<nat>, dl: seq<nat>, p: nat, out: seq<byte>, cap: nat): (r: Result)
    requires |out| <= cap
    ensures r.Done? ==> r.pos > p && |out| <= |r.out| <= cap
    decreases cap - |out|
  {
    match StepData(S, ll, dl, p, out, cap)
    case More(q, longer) => HuffmanData(S, ll, dl, q, longer, cap)
    case Stop(q) => Done(q, out)
    case BadStep => Failed
    case UndefinedStep => Undefined
  }

  // ----- the header of a dynamic block

  /** The first n code length code lengths, in their transmission order. */
  function CodeLengthSizes(S: seq<byte>, p: nat, n: nat): (r: seq<byte>)
    requires n <= 19
    ensures |r| == 19 && forall i :: 0 <= i < 19 ==> r[i] < 8
  {
    if n == 0 then seq(19, _ => 0)
    else
      WindowBound(S, p + 3 * (n - 1), 3);
      CodeLengthSizes(S, p, n - 1)[Dezigzag(n - 1) := Window(S, p + 3 * (n - 1), 3)]
  }

  /** Every transmitted length belongs to its symbol, in the standard's order; symbols
      that are not reached have none. */
  lemma {:induction false} SizesInOrder(S: seq<byte>, p: nat, n: nat)
    requires n <= 19
    ensures forall k: nat :: k < n ==> CodeLengthSizes(S, p, n)[Order()[k]] == Window(S, p + 3 * k, 3)
    ensures forall k: nat :: n <= k < 19 ==> CodeLengthSizes(S, p, n)[Order()[k]] == 0
    decreases n
  {
    hide Window, Dezigzag, Order;
    if n > 0 {
      SizesInOrder(S, p, n - 1);
      DezigzagIsOrder(n - 1);
      forall k: nat | k < 19 && k != n - 1 ensures Order()[k] != Order()[n - 1] { OrderInjective(k, n - 1); }
    }
  }

  lemma OrderInjective(i: nat, j: nat)
    requires i < 19 && j < 19 && i != j
    ensures Order()[i] != Order()[j]
  {}

  function Fill(b: byte, n: nat): seq<byte> { seq(n, _ => b) }

  /** Decode one code length symbol: the lengths so far and the next position,
      or nothing where the C code would read or write out of place. */
  ghost function LengthStep(S: seq<byte>, cl: seq<nat>, p: nat, acc: seq<byte>): (r: Option<(seq<byte>, nat)>)
    ensures r.Some? ==> |acc| < |r.value.0| && acc == r.value.0[..|acc|] && r.value.1 >= p
  {
    match Symbol(cl, S, p)
    case None => None
    case Some(c) =>
      var p1 := p + cl[c];
      if c < 16 then Some((acc + [c], p1))
      else
        var extra, least := if c == 16 then 2 else if c == 17 then 3 else 7, if c <= 17 then 3 else 11;
        var k := Window(S, p1, extra) + least;
        if (c == 16 && acc == []) || |acc| + k > LENCODES then None
        else Some((acc + Fill(if c == 16 then acc[|acc| - 1] else 0, k), p1 + extra))
  }

  /** Where a repetition leaves its place: nothing to repeat, or more than the 455 lengths
      that the code has room for; codes that have no symbol are the other case. */
  lemma OverrunExact(S: seq<byte>, cl: seq<nat>, p: nat, acc: seq<byte>, c: nat)
    requires Symbol(cl, S, p) == Some(c)
    ensures LengthStep(S, cl, p, acc).None? <==>
            || (c == 16 && (acc == [] || |acc| + 3 + Window(S, p + cl[c], 2) > 455))
            || (c == 17 && |acc| + 3 + Window(S, p + cl[c], 3) > 455)
            || (c >= 18 && |acc| + 11 + Window(S, p + cl[c], 7) > 455)
  {}

  lemma LengthStepBound(S: seq<byte>, cl: seq<nat>, p: nat, acc: seq<byte>)
    requires LengthStep(S, cl, p, acc).Some? && forall i :: 0 <= i < |acc| ==> acc[i] <= 15
    ensures forall i :: 0 <= i < |LengthStep(S, cl, p, acc).value.0| ==> LengthStep(S, cl, p, acc).value.0[i] <= 15
  {}

  /** Decode code lengths from p until there are at least `total`. */
  ghost function ReadLengths(S: seq<byte>, cl: seq<nat>, p: nat, acc: seq<byte>, total: nat): (r: LengthList)
    requires forall i :: 0 <= i < |acc| ==> acc[i] <= 15
    ensures r.Lens? ==> r.pos >= p && |r.lens| == total && forall i :: 0 <= i < total ==> r.lens[i] <= 15
    decreases total - |acc|
  {
    if |acc| >= total then
      if |acc| == total then Lens(acc, p) else BadLens
    else
      match LengthStep(S, cl, p, acc)
      case None => UndefinedLens
      case Some((longer, q)) =>
        LengthStepBound(S, cl, p, acc);
        ReadLengths(S, cl, q, longer, total)
  }

  ghost function DynamicHeader(S: seq<byte>, p: nat): (r: Header)
    ensures r.Tables? ==> r.pos >= p
  {
    var hlit := Window(S, p, 5) + 257;
    var hdist := Window(S, p + 5, 5) + 1;
    var hclen := Window(S, p + 10, 4) + 4;
    WindowBound(S, p + 10, 4);
    var cl := CodeLengthSizes(S, p + 14, hclen);
    if !Fits(cl, 15) then BadHeader
    else
      match ReadLengths(S, cl, p + 14 + 3 * hclen, [], hlit + hdist)
      case BadLens => BadHeader
      case UndefinedLens => UndefinedHeader
      case Lens(lens, q) =>
        if Fits(lens[..hlit], 15) && Fits(lens[hlit..], 15) then Tables(lens[..hlit], lens[hlit..], q)
        else BadHeader
  }

  /** An accepted header has as many lengths as it says, and none of its three codes is
      oversubscribed. */
  lemma HeaderLaw(S: seq<byte>, p: nat)
    ensures 0 <= Window(S, p + 10, 4) < 16
    ensures DynamicHeader(S, p).Tables? ==>
              var Tables(ll, dl, q) := DynamicHeader(S, p);
              var hclen := Window(S, p + 10, 4) + 4;
              && |ll| == Window(S, p, 5) + 257 && |dl| == Window(S, p + 5, 5) + 1
              && Fits(ll, 15) && Fits(dl, 15) && Fits(CodeLengthSizes(S, p + 14, hclen), 15)
              && ReadLengths(S, CodeLengthSizes(S, p + 14, hclen), p + 14 + 3 * hclen, [], |ll| + |dl|) ==
                 Lens(ll + dl, q)
  {
    hide Window, Fits, CodeLengthSizes, ReadLengths;
    WindowBound(S, p + 10, 4);
    assert Shl(1, 4) == 16;
    if DynamicHeader(S, p).Tables? {
      var hlit, hdist, hclen := Window(S, p, 5) + 257, Window(S, p + 5, 5) + 1, Window(S, p + 10, 4) + 4;
      var r := ReadLengths(S, CodeLengthSizes(S, p + 14, hclen), p + 14 + 3 * hclen, [], hlit + hdist);
      assert r.Lens? && DynamicHeader(S, p) == Tables(r.lens[..hlit], r.lens[hlit..], r.pos);
      assert r.lens[..hlit] + r.lens[hlit..] == r.lens;
    }
  }

  // ----- blocks

  function FixedLengths(): seq<byte> {
    seq(288, i => if i <= 143 then 8 else if i <= 255 then 9 else if i <= 279 then 7 else 8)
  }

  function FixedDistances(): seq<byte> {
    seq(32, _ => 5)
  }

  lemma FixedFits()
    ensures Fits(FixedLengths(), 15) && Fits(FixedDistances(), 15)
  {
    hide FixedLengths, FixedDistances, Kraft;
    FixedEntries();
    assert Shl(1, 7) == 128 && Shl(1, 6) == 64 && Shl(1, 8) == 256 && Shl(1, 10) == 1024;
    KraftRun(FixedLengths(), 0, 144, 8, 128);
    KraftRun(FixedLengths(), 144, 256, 9, 64);
    KraftRun(FixedLengths(), 256, 280, 7, 256);
    KraftRun(FixedLengths(), 280, 288, 8, 128);
    KraftRun(FixedDistances(), 0, 32, 5, 1024);
    assert Shl(1, 15) == 0x8000;
    KraftNone(FixedLengths());
    KraftNone(FixedDistances());
  }

  lemma KraftNone(lens: seq<nat>)
    ensures Kraft(lens, 0, 15) == 0
  {}

  lemma FixedEntries()
    ensures |FixedLengths()| == 288 && |FixedDistances()| == 32
    ensures forall i :: 0 <= i < 288 ==>
      FixedLengths()[i] == if i < 144 then 8 else if i < 256 then 9 else if i < 280 then 7 else 8
    ensures forall i :: 0 <= i < 32 ==> FixedDistances()[i] == 5
  {}

  /** A run of symbols of one length uses w units of code space each. */
  lemma {:induction false} KraftRun(lens: seq<nat>, m: nat, n: nat, s: nat, w: nat)
    requires m <= n <= |lens| && 0 < s <= 15 && w == Shl(1, 15 - s)
    requires forall i :: m <= i < n ==> lens[i] == s
    ensures Kraft(lens, n, 15) == Kraft(lens, m, 15) + (n - m) * w
  {
    if m < n {
      KraftRun(lens, m, n - 1, s, w);
      assert (n - m) * w == (n - 1 - m) * w + w;
    }
  }

  /** A stored block whose three header bits end at p. */
  function StoredData(S: seq<byte>, p: nat, out: seq<byte>, cap: nat): (r: Result)
    ensures r.Done? ==> p < r.pos <= 8 * |S| && |out| <= |r.out| <= cap
  {
    var q := (p + 7) / 8;
    var len := 256 * ByteAt(S, q + 1) + ByteAt(S, q);
    var nlen := 256 * ByteAt(S, q + 3) + ByteAt(S, q + 2);
    if nlen != 0xFFFF - len || q + 4 + len > |S| || |out| + len > cap then Failed
    else Done(8 * (q + 4 + len), out + S[q + 4..q + 4 + len])
  }

  /** A stored block is accepted if and only if the two lengths behind the byte boundary are
      complements of each other and the bytes are there and find room. */
  lemma StoredLaw(S: seq<byte>, p: nat, q: nat, len: nat, nlen: nat, out: seq<byte>, cap: nat)
    requires 8 * q - 7 <= p <= 8 * q && q + 4 <= |S|
    requires len == S[q] + 256 * (S[q + 1] as nat) && nlen == S[q + 2] + 256 * (S[q + 3] as nat)
    ensures StoredData(S, p, out, cap) ==
            if len + nlen == 65535 && len <= |S| - (q + 4) && |out| + len <= cap
            then Done(8 * (q + 4 + len), out + S[q + 4..][..len]) else Failed
  {
    assert (p + 7) / 8 == q;
    if len <= |S| - (q + 4) { assert S[q + 4..][..len] == S[q + 4..q + 4 + len]; }
  }

  /** A pair reaches back at most to the beginning of the output, and must find room. */
  lemma PairLaw(S: seq<byte>, ll: seq<nat>, dl: seq<nat>, p: nat, out: seq<byte>, cap: nat, z: nat, len: nat, dist: nat,
                q: nat)
    requires |out| <= cap && Symbol(ll, S, p) == Some(z) && 257 <= z < 286
    requires PairData(S, dl, p + ll[z], z) == Pair(len, dist, q)
    ensures StepData(S, ll, dl, p, out, cap) ==
            if dist <= |out| && |out| + len <= cap then More(q, Copied(out, dist, len)) else BadStep
  {
    hide Symbol, PairData, Copied;
  }

  lemma TypePastEnd(S: seq<byte>, p: nat)
    ensures p >= 8 * |S| ==> Window(S, p, 2) == 0
  {
    if p >= 8 * |S| { WindowPastEnd(S, p, 2); }
  }

  ghost function BlockData(S: seq<byte>, p: nat, out: seq<byte>, cap: nat): (r: Result)
    requires |out| <= cap
    ensures r.Done? ==> r.pos > p && |out| <= |r.out| <= cap
    ensures p >= 8 * |S| ==> r == Failed
  {
    TypePastEnd(S, p + 1);
    match Window(S, p + 1, 2)
    case 0 => StoredData(S, p + 3, out, cap)
    case 1 => HuffmanData(S, FixedLengths(), FixedDistances(), p + 3, out, cap)
    case 2 =>
      (match DynamicHeader(S, p + 3)
       case Tables(ll, dl, q) => HuffmanData(S, ll, dl, q, out, cap)
       case BadHeader => Failed
       case UndefinedHeader => Undefined)
    case _ => Failed
  }

  /** Blocks from p on, up to and including the first one marked final. */
  ghost function Blocks(S: seq<byte>, p: nat, out: seq<byte>, cap: nat): (r: Result)
    requires |out| <= cap
    ensures r.Done? ==> |out| <= |r.out| <= cap
    decreases 8 * |S| - p
  {
    var block := BlockData(S, p, out, cap);
    if block.Done? && BitOf(S, p) == 0 then Blocks(S, block.pos, block.out, cap) else block
  }

  // ----- the zlib wrapper (RFC 1950 section 2.2)

  /** Deflate method, no preset dictionary, check bits right. */
  predicate ZlibHeader(S: seq<byte>) {
    && (256 * ByteAt(S, 0) + ByteAt(S, 1)) % 31 == 0
    && Bit(ByteAt(S, 1), 5) == 0
    && Low(ByteAt(S, 0), 4) == 8
  }

  /** The fields of the header decide: method and window size in the first byte, check
      bits, dictionary flag and level in the second. */
  lemma HeaderFields(S: seq<byte>, cm: nat, cinfo: nat, check: nat, dict: nat, level: nat)
    requires cm < 16 && cinfo < 16 && check < 32 && dict < 2 && level < 4
    requires ByteAt(S, 0) == cm + 16 * cinfo && ByteAt(S, 1) == check + 32 * dict + 64 * level
    ensures ZlibHeader(S) <==>
            cm == 8 && dict == 0 && (256 * (cm + 16 * cinfo) + check + 32 * dict + 64 * level) % 31 == 0
  {
    hide Bit, Low;
    FifthBit(ByteAt(S, 1));
    LowFour(ByteAt(S, 0));
  }

  lemma LowFour(x: nat)
    ensures Low(x, 4) == x % 16
  {
    assert Low(x, 4) == x % 2 + 2 * Low(x / 2, 3);
    assert Low(x / 2, 3) == x / 2 % 2 + 2 * Low(x / 2 / 2, 2);
    assert Low(x / 2 / 2, 2) == x / 2 / 2 % 2 + 2 * Low(x / 2 / 2 / 2, 1);
    assert Low(x / 2 / 2 / 2, 1) == x / 2 / 2 / 2 % 2;
  }

  lemma FifthBit(x: nat)
    ensures Bit(x, 5) == x / 32 % 2
  {
    assert Shr(x, 5) == Shr(x / 2, 4) == Shr(x / 2 / 2, 3) == Shr(x / 2 / 2 / 2, 2);
    assert Shr(x / 2 / 2 / 2, 2) == Shr(x / 2 / 2 / 2 / 2, 1) == x / 2 / 2 / 2 / 2 / 2;
  }

  /** The whole decoder: an optional header, then the blocks. */
  ghost function Zlib(S: seq<byte>, header: bool, cap: nat): Result {
    if header && !ZlibHeader(S) then Failed
    else Blocks(S, if header then 16 else 0, [], cap)
  }
}
