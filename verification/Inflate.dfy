/** The zlib decoder: a bit accumulator over the input, two Huffman tables and
    an output buffer that may be reallocated. */
module Inflate {
  import opened Options
  import opened Bits
  import opened BitReverse
  import opened BitStream
  import opened Canonical
  import opened PrefixDecode
  import opened InflateSpec
  import ZHuffman

  function Cast32(x: nat): nat { x % 0x1_0000_0000 }

  /** The largest buffer that doubling reaches when the allocator grants at
      most mem bytes. */
  function MaxCap(limit: nat, mem: nat): (cap: nat)
    requires limit > 0
    ensures cap >= limit
    decreases mem - limit
  {
    if 2 * limit <= mem then MaxCap(2 * limit, mem) else limit
  }

  // ----- bit accumulator arithmetic

  lemma {:induction false} ShlSmall(x: nat, n: nat, m: nat)
    requires x < Shl(1, m)
    ensures Shl(x, n) < Shl(1, m + n)
  {
    if n > 0 { ShlSmall(x, n - 1, m); }
  }

  lemma ShlByEight(x: int)
    ensures Shl(x, 8) == 256 * x
  {
    assert Shl(x, 8) == 2 * Shl(x, 7) == 4 * Shl(x, 6) == 8 * Shl(x, 5) == 16 * Shl(x, 4);
    assert Shl(x, 4) == 2 * Shl(x, 3) == 4 * Shl(x, 2) == 8 * Shl(x, 1) == 16 * x;
  }

  /** A value of n <= 32 bits fits in a 32-bit word. */
  lemma FitsWord(x: nat, n: nat)
    requires n <= 32 && x < Shl(1, n)
    ensures Cast32(x) == x
  {
    ZHuffman.ShlMonotoneExp(n, 32);
    ShlShl(1, 8, 8); ShlShl(1, 16, 8); ShlShl(1, 24, 8);
    ShlByEight(1); ShlByEight(256); ShlByEight(65536); ShlByEight(16777216);
  }

  /** OR-ing the next byte in above the buffered bits extends the window by 8. */
  lemma FillStep(S: seq<byte>, taken: nat, n: nat)
    requires n <= 24 && n <= 8 * taken
    ensures Shl(ByteAt(S, taken), n) >= 0
    ensures Cast32(Or(Window(S, 8 * taken - n, n), Cast32(Shl(ByteAt(S, taken), n)))) == Window(S, 8 * taken - n, n + 8)
  {
    ByteWindow(S, taken, 8);
    WordExtends(S, 8 * taken - n, n, 8);
  }

  lemma WordExtends(S: seq<byte>, p: nat, n: nat, m: nat)
    requires n + m <= 32
    ensures Shl(Window(S, p + n, m), n) >= 0
    ensures Cast32(Or(Window(S, p, n), Cast32(Shl(Window(S, p + n, m), n)))) == Window(S, p, n + m)
  {
    var b := Window(S, p + n, m);
    WindowBound(S, p, n);
    WindowBound(S, p + n, m);
    WindowBound(S, p, n + m);
    WindowSplit(S, p, n, m);
    OrIsAdd(Window(S, p, n), b, n);
    ShlSmall(b, n, m);
    FitsWord(Shl(b, n), m + n);
    FitsWord(Window(S, p, n + m), n + m);
  }

  datatype Status = Continue | EndOfBlock | Error

  class ZBuf {
    const zbuffer: seq<byte>
    var next: nat
    var numBits: nat
    var codeBuffer: nat
    /** How often a byte was asked for, at the end of the input too. */
    ghost var taken: nat

    var obuf: array<byte>
    var zout: nat
    const expandable: bool
    /** The allocator grants buffers of at most this many bytes. */
    const memLimit: nat

    const zLength: ZHuffman.Table
    const zDistance: ZHuffman.Table

    /** Position of the first unread bit. */
    ghost function Pos(): int
      reads this`taken, this`numBits
    {
      8 * taken - numBits
    }

    /** The accumulator and the unread bytes denote one remaining bit stream. */
    ghost predicate Reader()
      reads this`next, this`numBits, this`codeBuffer, this`taken
    {
      && next == (if taken < |zbuffer| then taken else |zbuffer|)
      && numBits <= 32 && numBits <= 8 * taken
      && codeBuffer == Window(zbuffer, Pos(), numBits)
    }

    /** The most bytes the output can hold, however often the buffer grows. */
    ghost const cap: nat

    /** Tables and decoder do not share storage. */
    ghost predicate Apart() {
      && zLength.Shape() && zDistance.Shape()
      && zLength.Repr !! zDistance.Repr
      && this !in zLength.Repr + zDistance.Repr
    }

    ghost predicate Buffers()
      reads this`obuf, this`zout
    {
      && Apart()
      && obuf as object !in zLength.Repr + zDistance.Repr
      && zout <= obuf.Length <= cap
      && (if expandable then obuf.Length > 0 && cap == MaxCap(obuf.Length, memLimit) else cap == obuf.Length)
    }

    ghost function Output(): seq<byte>
      requires zout <= obuf.Length
      reads this`obuf, this`zout, obuf
    {
      obuf[..zout]
    }

    constructor (buffer: seq<byte>, obuffer: array<byte>, expand: bool, mem: nat)
      requires expand ==> obuffer.Length > 0
      ensures Buffers() && zbuffer == buffer && obuf == obuffer && zout == 0
      ensures next == 0 && taken == 0
      ensures cap == if expand then MaxCap(obuffer.Length, mem) else obuffer.Length
      ensures fresh(zLength.Repr + zDistance.Repr)
    {
      zbuffer, next, numBits, codeBuffer, taken := buffer, 0, 0, 0, 0;
      obuf, zout, expandable, memLimit := obuffer, 0, expand, mem;
      cap := if expand then MaxCap(obuffer.Length, mem) else obuffer.Length;
      var l := new ZHuffman.Table();
      var d := new ZHuffman.Table();
      zLength, zDistance := l, d;
    }

    // ----- bits

    method Get8() returns (b: byte)
      requires next == (if taken < |zbuffer| then taken else |zbuffer|)
      modifies this`next, this`taken
      ensures b == ByteAt(zbuffer, old(taken)) && taken == old(taken) + 1
      ensures next == (if taken < |zbuffer| then taken else |zbuffer|)
      ensures old(Reader()) && numBits == 0 ==> Reader()
    {
      taken := taken + 1;
      if next >= |zbuffer| { return 0; }
      b := zbuffer[next];
      next := next + 1;
    }

    method FillBits()
      requires Reader() && numBits <= 24
      modifies this`next, this`taken, this`numBits, this`codeBuffer
      ensures Reader() && Pos() == old(Pos()) && numBits > 24
    {
      var first := true;
      while first || numBits <= 24
        invariant Reader() && Pos() == old(Pos())
        invariant first ==> numBits <= 24
        decreases 32 - numBits
      {
        first := false;
        FillStep(zbuffer, taken, numBits);
        var b := Get8();
        codeBuffer := Cast32(Or(codeBuffer, Cast32(Shl(b, numBits))));
        numBits := numBits + 8;
      }
    }

    /** Drop n buffered bits. */
    method Drop(n: nat)
      requires Reader() && n <= numBits
      modifies this`numBits, this`codeBuffer
      ensures Reader() && Pos() == old(Pos()) + n && numBits == old(numBits) - n
    {
      ghost var p, total := Pos(), numBits;
      assert codeBuffer == Window(zbuffer, p, total);
      WindowTake(zbuffer, p, n, total);
      codeBuffer := Shr(codeBuffer, n);
      numBits := numBits - n;
      assert Pos() == p + n;
    }

    method Receive(n: nat) returns (k: nat)
      requires Reader() && n <= 24
      modifies this`next, this`taken, this`numBits, this`codeBuffer
      ensures Reader() && Pos() == old(Pos()) + n
      ensures k == Window(zbuffer, old(Pos()), n)
      ensures old(numBits) >= n ==> taken == old(taken) && numBits == old(numBits) - n
    {
      if numBits < n { FillBits(); }
      AndMask(codeBuffer, n);
      WindowTake(zbuffer, Pos(), n, numBits);
      k := And(codeBuffer, Shl(1, n) - 1);
      Drop(n);
    }

    // ----- symbols

    method HuffmanDecodeSlowpath(z: ZHuffman.Table, ghost lens: seq<nat>) returns (r: int)
      requires Reader() && numBits >= 16 && z.For(lens) && this !in z.Repr
      requires forall i: nat :: Matches(lens, i, zbuffer, Pos()) ==> lens[i] > ZHuffman.FAST_BITS
      modifies this`numBits, this`codeBuffer
      ensures Reader() && r >= -1
      ensures r == -1 ==> Symbol(lens, zbuffer, old(Pos())) == None && Pos() == old(Pos())
      ensures r >= 0 ==> Matches(lens, r, zbuffer, old(Pos())) && Pos() == old(Pos()) + lens[r]
    {
      hide Window, BitReversal, End, MsbCode;
      ghost var p := Pos();
      var k := BitReversal(codeBuffer, 16);
      TopAligned(zbuffer, p, numBits, k);
      BeyondRanges(lens, zbuffer, p, ZHuffman.FAST_BITS);
      var s := SearchLength(z, lens, zbuffer, p, k);
      if s == 16 {
        NoMatch(lens, zbuffer, p, 15);
        return -1;
      }
      ghost var i := SlowFound(z, lens, zbuffer, p, s, k);
      var b := Shr(k, 16 - s) - z.firstcode[s] + z.firstsymbol[s];
      Drop(s);
      r := z.value[b];
    }

    /** The fast table backed by the slow path decodes exactly one symbol. */
    method HuffmanDecode(z: ZHuffman.Table, ghost lens: seq<nat>) returns (r: int)
      requires Reader() && z.For(lens) && this !in z.Repr
      modifies this`next, this`taken, this`numBits, this`codeBuffer
      ensures Reader() && r >= -1
      ensures r == -1 ==> Symbol(lens, zbuffer, old(Pos())) == None && Pos() == old(Pos())
      ensures r >= 0 ==> Symbol(lens, zbuffer, old(Pos())) == Some(r) && r < |lens| && Pos() == old(Pos()) + lens[r]
    {
      if numBits < 16 { FillBits(); }
      ghost var p := Pos();
      var index := And(codeBuffer, ZHuffman.FAST_SIZE - 1);
      FastIndex(zbuffer, p, numBits, index);
      var b := z.fast[index];
      FastIsMatch(z, lens, zbuffer, p, index);
      if b != 0 {
        ghost var i: nat :| Matches(lens, i, zbuffer, p) && b == ZHuffman.Packed(lens[i], i);
        PackedParts(lens[i], i);
        var s := Shr(b, 9);
        Drop(s);
        r := And(b, 511);
        SymbolIs(lens, zbuffer, p, r);
        return;
      }
      r := HuffmanDecodeSlowpath(z, lens);
      if r >= 0 { SymbolIs(lens, zbuffer, p, r); }
    }

    // ----- output

    /** Make room for n more bytes: double the buffer until they fit. */
    method Expand(at: nat, n: nat) returns (ok: bool)
      requires Buffers() && at <= obuf.Length && at + n > obuf.Length
      modifies this`obuf, this`zout
      ensures Buffers() && zout == at && (obuf == old(obuf) || fresh(obuf))
      ensures ok <==> at + n <= cap
      ensures ok ==> at + n <= obuf.Length && obuf[..at] == old(obuf[..at])
    {
      zout := at;
      if !expandable { return false; }
      var limit := obuf.Length;
      while at + n > limit
        invariant limit > 0
        invariant if limit <= memLimit || limit == obuf.Length then MaxCap(limit, memLimit) == cap else cap < at + n
        invariant limit >= obuf.Length
        decreases at + n - limit
      {
        limit := limit * 2;
      }
      if limit > memLimit { return false; }
      var q := new byte[limit];
      forall i | 0 <= i < obuf.Length { q[i] := obuf[i]; }
      obuf := q;
      ok := true;
    }

    /** Repeat the last byte len times. */
    method CopyRun(at: nat, len: nat)
      requires 1 <= at && at + len <= obuf.Length
      modifies obuf
      ensures obuf[..at + len] == Copied(old(obuf[..at]), 1, len)
    {
      ghost var out := obuf[..at];
      var z, l := at, len;
      var v := obuf[at - 1];
      while l > 0
        invariant 0 <= l && z + l == at + len
        invariant obuf[..z] == Copied(out, 1, z - at)
        invariant obuf[z - 1] == v
      {
        obuf[z] := v;
        z, l := z + 1, l - 1;
      }
    }

    /** Copy len bytes from dist places back; the regions may overlap. */
    method CopyMatch(at: nat, dist: nat, len: nat)
      requires 1 <= dist <= at && 1 <= len && at + len <= obuf.Length
      modifies obuf
      ensures obuf[..at + len] == Copied(old(obuf[..at]), dist, len)
    {
      if dist == 1 {
        CopyRun(at, len);
      } else {
        ghost var out := obuf[..at];
        var z, p, l := at, at - dist, len;
        while l > 0
          invariant 0 <= l && z + l == at + len && p == z - dist
          invariant obuf[..z] == Copied(out, dist, z - at)
        {
          obuf[z] := obuf[p];
          z, p, l := z + 1, p + 1, l - 1;
        }
      }
    }

    /** The extra bits of a length symbol, then a distance symbol with its extra bits. */
    method ReadPair(symbol: nat, ghost dl: seq<nat>) returns (ok: bool, len: nat, dist: nat)
      requires Reader() && Apart() && zDistance.For(dl) && 257 <= symbol
      requires PairData(zbuffer, dl, Pos(), symbol) != UndefinedPair
      modifies this`next, this`taken, this`numBits, this`codeBuffer
      ensures Reader()
      ensures var r := old(PairData(zbuffer, dl, Pos(), symbol));
              ok == r.Pair? && (ok ==> len == r.len && dist == r.dist && Pos() == r.pos)
    {
      hide Symbol, ZHuffman.Table.For, Window, LengthBase, LengthExtra, DistBase, DistExtra;
      len, dist := 0, 0;
      var z: int := symbol - 257;
      ghost var k: nat, p := z, Pos();
      NoBits(zbuffer, p);
      len := LengthBase(z);
      if LengthExtra(z) != 0 {
        var extra := Receive(LengthExtra(z));
        len := len + extra;
      }
      ghost var p2 := p + LengthExtra(k);
      assert Pos() == p2 && len == LengthBase(k) + Window(zbuffer, p, LengthExtra(k));
      z := HuffmanDecode(zDistance, dl);
      if z < 0 { return false, len, dist; }
      ghost var d: nat, p3 := z, Pos();
      NoBits(zbuffer, p3);
      assert Symbol(dl, zbuffer, p2) == Some(d) && p3 == p2 + dl[d];
      dist := DistBase(z);
      if DistExtra(z) != 0 {
        var extra := Receive(DistExtra(z));
        dist := dist + extra;
      }
      assert dist == DistBase(d) + Window(zbuffer, p3, DistExtra(d));
      ok := true;
    }

    /** Append one byte, growing the buffer when it is full. */
    method EmitByte(at: nat, b: byte) returns (ok: bool)
      requires Buffers() && at <= obuf.Length
      modifies this`obuf, this`zout, obuf
      ensures Buffers() && (obuf == old(obuf) || fresh(obuf))
      ensures ok <==> at < cap
      ensures ok ==> at + 1 <= obuf.Length && obuf[..at + 1] == old(obuf[..at]) + [b]
    {
      if at >= obuf.Length {
        ok := Expand(at, 1);
        if !ok { return; }
      }
      obuf[at] := b;
      ok := true;
    }

    /** Append a copy, growing the buffer when it does not fit. */
    method EmitMatch(at: nat, dist: nat, len: nat) returns (ok: bool)
      requires Buffers() && at <= obuf.Length && 1 <= dist && 1 <= len
      modifies this`obuf, this`zout, obuf
      ensures Buffers() && (obuf == old(obuf) || fresh(obuf))
      ensures ok <==> dist <= at && at + len <= cap
      ensures ok ==> at + len <= obuf.Length && obuf[..at + len] == Copied(old(obuf[..at]), dist, len)
    {
      if at < dist { return false; }
      if at + len > obuf.Length {
        ok := Expand(at, len);
        if !ok { return; }
      }
      CopyMatch(at, dist, len);
      ok := true;
    }

    /** One round of the symbol loop: `at` is where the output has got to. */
    method DecodeOne(at: nat, ghost ll: seq<nat>, ghost dl: seq<nat>) returns (status: Status, next: nat)
      requires Reader() && Buffers() && at <= obuf.Length && zLength.For(ll) && zDistance.For(dl)
      requires StepData(zbuffer, ll, dl, Pos(), obuf[..at], cap) != UndefinedStep
      modifies this`next, this`taken, this`numBits, this`codeBuffer, this`obuf, this`zout, obuf
      ensures Reader() && Buffers() && (obuf == old(obuf) || fresh(obuf))
      ensures match old(StepData(zbuffer, ll, dl, Pos(), obuf[..at], cap))
              case More(q, out) =>
                status == Continue && Pos() == q && next == |out| <= obuf.Length && obuf[..next] == out
              case Stop(q) =>
                status == EndOfBlock && Pos() == q && next == at <= obuf.Length && obuf[..at] == old(obuf[..at])
              case _ => status == Error
    {
      hide Symbol, PairData, Copied, Window, MaxCap, ZHuffman.Table.For;
      next := at;
      var z := HuffmanDecode(zLength, ll);
      if z < 256 {
        if z < 0 { return Error, next; }
        var ok := EmitByte(at, z);
        if !ok { return Error, next; }
        next := at + 1;
      } else {
        if z == 256 { return EndOfBlock, next; }
        var ok, len, dist := ReadPair(z, dl);
        if !ok { return Error, next; }
        ok := EmitMatch(at, dist, len);
        if !ok { return Error, next; }
        next := at + len;
      }
      status := Continue;
    }

    /** Decode a block of symbols with the two tables. */
    method ParseHuffmanBlock(ghost ll: seq<nat>, ghost dl: seq<nat>) returns (ok: bool)
      requires Reader() && Buffers() && zLength.For(ll) && zDistance.For(dl)
      requires HuffmanData(zbuffer, ll, dl, Pos(), Output(), cap) != Undefined
      modifies this`next, this`taken, this`numBits, this`codeBuffer, this`obuf, this`zout, obuf
      ensures Reader() && Buffers() && (obuf == old(obuf) || fresh(obuf))
      ensures var r := old(HuffmanData(zbuffer, ll, dl, Pos(), Output(), cap));
              ok == r.Done? && (ok ==> Pos() == r.pos && Output() == r.out)
    {
      hide StepData, MaxCap, Window, ZHuffman.Table.For;
      ghost var goal := HuffmanData(zbuffer, ll, dl, Pos(), Output(), cap);
      var at := zout;
      while true
        invariant Reader() && Buffers() && at <= obuf.Length
        invariant obuf == old(obuf) || fresh(obuf)
        invariant zLength.For(ll) && zDistance.For(dl)
        invariant HuffmanData(zbuffer, ll, dl, Pos(), obuf[..at], cap) == goal
        decreases cap - at
      {
        var status, reached := DecodeOne(at, ll, dl);
        match status {
          case Continue => at := reached;
          case EndOfBlock => zout := at; return true;
          case Error => return false;
        }
      }
    }

    // ----- headers

    /** Read the code length code lengths, in their transmission order. */
    method ReadCodeLengthSizes(hclen: nat) returns (sizes: array<byte>)
      requires Reader() && hclen <= 19
      modifies this`next, this`taken, this`numBits, this`codeBuffer
      ensures Reader() && Pos() == old(Pos()) + 3 * hclen
      ensures fresh(sizes) && sizes[..] == CodeLengthSizes(zbuffer, old(Pos()), hclen)
      ensures forall k: nat :: k < hclen ==> sizes[Order()[k]] == Window(zbuffer, old(Pos()) + 3 * k, 3)
    {
      hide Window, Order;
      SizesInOrder(zbuffer, Pos(), hclen);
      ghost var p := Pos();
      sizes := new byte[19](_ => 0);
      for i := 0 to hclen
        invariant Reader() && Pos() == p + 3 * i
        invariant sizes[..] == CodeLengthSizes(zbuffer, p, i)
      {
        WindowBound(zbuffer, p + 3 * i, 3);
        var s := Receive(3);
        sizes[Dezigzag(i)] := s;
      }
    }

    /** `memset` of k code lengths. */
    static method StoreRun(lencodes: array<byte>, n: nat, b: byte, k: nat)
      requires n + k <= lencodes.Length
      modifies lencodes
      ensures lencodes[..n + k] == old(lencodes[..n]) + Fill(b, k)
    {
      forall i | n <= i < n + k { lencodes[i] := b; }
    }

    /** Decode one code length symbol and store what it stands for. */
    method ReadLength(z: ZHuffman.Table, ghost cl: seq<nat>, lencodes: array<byte>, n: nat) returns (m: nat)
      requires Reader() && z.For(cl) && this !in z.Repr
      requires lencodes.Length == LENCODES && n < LENCODES && lencodes as object !in z.Repr
      requires LengthStep(zbuffer, cl, Pos(), lencodes[..n]).Some?
      modifies this`next, this`taken, this`numBits, this`codeBuffer, lencodes
      ensures Reader() && n < m <= LENCODES
      ensures old(LengthStep(zbuffer, cl, Pos(), lencodes[..n])) == Some((lencodes[..m], Pos()))
    {
      hide Symbol, ZHuffman.Table.For, Window;
      var c := HuffmanDecode(z, cl);
      ghost var p1 := Pos();
      if c < 16 {
        lencodes[n] := c;
        m := n + 1;
        assert lencodes[..m] == old(lencodes[..n]) + [c as byte];
        return;
      }
      var b: byte := 0;
      var k;
      if c == 16 {
        k := Receive(2);
        k := k + 3;
        b := lencodes[n - 1];
      } else if c == 17 {
        k := Receive(3);
        k := k + 3;
      } else {
        k := Receive(7);
        k := k + 11;
      }
      StoreRun(lencodes, n, b, k);
      m := n + k;
    }

    /** Decode code length symbols until there are `total` code lengths. */
    method ReadLengthList(z: ZHuffman.Table, ghost cl: seq<nat>, total: nat) returns (ok: bool, lens: seq<byte>)
      requires Reader() && z.For(cl) && this !in z.Repr && total <= 320
      requires ReadLengths(zbuffer, cl, Pos(), [], total) != UndefinedLens
      modifies this`next, this`taken, this`numBits, this`codeBuffer
      ensures Reader()
      ensures var r := old(ReadLengths(zbuffer, cl, Pos(), [], total));
              ok == r.Lens? && (ok ==> lens == r.lens && Pos() == r.pos)
    {
      hide LengthStep, ZHuffman.Table.For;
      ghost var goal := ReadLengths(zbuffer, cl, Pos(), [], total);
      var lencodes := new byte[LENCODES](_ => 0);
      var n := 0;
      while n < total
        invariant Reader() && n <= LENCODES
        invariant z.For(cl)
        invariant forall i :: 0 <= i < n ==> lencodes[i] <= 15
        invariant ReadLengths(zbuffer, cl, Pos(), lencodes[..n], total) == goal
        decreases total - n
      {
        LengthStepBound(zbuffer, cl, Pos(), lencodes[..n]);
        n := ReadLength(z, cl, lencodes, n);
      }
      ok := n == total;
      lens := lencodes[..n];
    }

    /** Read the counts of a dynamic header and its code length table. */
    method ReadCounts() returns (ok: bool, hlit: nat, hdist: nat, z: ZHuffman.Table, ghost cl: seq<byte>)
      requires Reader()
      modifies this`next, this`taken, this`numBits, this`codeBuffer
      ensures Reader() && fresh(z.Repr)
      ensures hlit == Window(zbuffer, old(Pos()), 5) + 257 && hdist == Window(zbuffer, old(Pos()) + 5, 5) + 1
      ensures var hclen := Window(zbuffer, old(Pos()) + 10, 4) + 4;
              && hclen <= 19
              && cl == CodeLengthSizes(zbuffer, old(Pos()) + 14, hclen)
              && Pos() == old(Pos()) + 14 + 3 * hclen
      ensures ok == Fits(cl, 15) && (ok ==> z.For(cl))
    {
      hide Window, ZHuffman.Table.For;
      WindowBound(zbuffer, Pos() + 10, 4);
      hlit := Receive(5);
      hlit := hlit + 257;
      hdist := Receive(5);
      hdist := hdist + 1;
      var hclen := Receive(4);
      hclen := hclen + 4;
      var sizes := ReadCodeLengthSizes(hclen);
      cl := sizes[..];
      z := new ZHuffman.Table();
      ok := z.Build(sizes[..]);
    }

    /** The two tables of a dynamic block. */
    method BuildTables(ll: seq<byte>, dl: seq<byte>) returns (ok: bool)
      requires Apart() && ZHuffman.Sizes(ll) && ZHuffman.Sizes(dl)
      modifies zLength.Repr, zDistance.Repr
      ensures ok == (Fits(ll, 15) && Fits(dl, 15))
      ensures ok ==> zLength.For(ll) && zDistance.For(dl)
    {
      hide Fits, ZHuffman.Table.For;
      ok := zLength.Build(ll);
      if !ok { return; }
      ok := zDistance.Build(dl);
    }

    /** Read the header of a dynamic block and build its two tables. */
    method ComputeHuffmanCodes() returns (ok: bool, ghost ll: seq<byte>, ghost dl: seq<byte>)
      requires Reader() && Apart()
      requires DynamicHeader(zbuffer, Pos()) != UndefinedHeader
      modifies this`next, this`taken, this`numBits, this`codeBuffer, zLength.Repr, zDistance.Repr
      ensures Reader()
      ensures var r := old(DynamicHeader(zbuffer, Pos()));
              ok == r.Tables? && (ok ==> ll == r.ll && dl == r.dl && Pos() == r.pos)
      ensures ok ==> zLength.For(ll) && zDistance.For(dl)
    {
      hide Window, ReadLengths, Fits, CodeLengthSizes, ZHuffman.Table.For;
      ll, dl := [], [];
      WindowBound(zbuffer, Pos(), 5);
      WindowBound(zbuffer, Pos() + 5, 5);
      var good, hlit, hdist, z, cl := ReadCounts();
      if !good { return false, ll, dl; }
      var lens;
      ok, lens := ReadLengthList(z, cl, hlit + hdist);
      if !ok { return; }
      ll, dl := lens[..hlit], lens[hlit..];
      ok := BuildTables(lens[..hlit], lens[hlit..]);
    }

    // ----- blocks

    /** Take the next byte out of the accumulator. */
    method DrainByte() returns (b: byte)
      requires Reader() && numBits >= 8 && Pos() % 8 == 0
      modifies this`numBits, this`codeBuffer
      ensures Reader() && Pos() == old(Pos()) + 8 && numBits == old(numBits) - 8
      ensures b == ByteAt(zbuffer, old(Pos()) / 8)
    {
      hide Window, And;
      AndByte(codeBuffer);
      WindowTake(zbuffer, Pos(), 8, numBits);
      ByteWindow(zbuffer, Pos() / 8, 8);
      b := And(codeBuffer, 255);
      Drop(8);
    }

    /** Discard the bits before the next byte boundary. */
    method AlignToByte()
      requires Reader()
      modifies this`next, this`taken, this`numBits, this`codeBuffer
      ensures Reader() && numBits % 8 == 0 && Pos() == 8 * ((old(Pos()) + 7) / 8)
    {
      hide Window, And;
      LowThree(numBits);
      ByteBoundary(taken, numBits);
      var odd := And(numBits, 7);
      if odd != 0 {
        var discarded := Receive(odd);
      }
    }

    /** The bytes that the accumulator still holds. */
    method DrainBuffer(header: array<byte>, ghost q: nat) returns (k: nat)
      requires Reader() && numBits % 8 == 0 && Pos() == 8 * q && header.Length == 4
      modifies this`numBits, this`codeBuffer, header
      ensures Reader() && numBits == 0 && taken == q + k && k <= 4
      ensures forall i :: 0 <= i < k ==> header[i] == ByteAt(zbuffer, q + i)
    {
      hide Window;
      k := 0;
      while numBits > 0
        invariant Reader() && numBits % 8 == 0 && Pos() == 8 * (q + k)
        invariant 8 * k + numBits <= 32
        invariant forall i :: 0 <= i < k ==> header[i] == ByteAt(zbuffer, q + i)
        decreases numBits
      {
        header[k] := DrainByte();
        k := k + 1;
      }
    }

    /** Drop to the next byte boundary and collect four bytes, first from the
        accumulator, then from the input. */
    method ReadStoredHeader() returns (header: array<byte>)
      requires Reader()
      modifies this`next, this`taken, this`numBits, this`codeBuffer
      ensures Reader() && numBits == 0 && taken == (old(Pos()) + 7) / 8 + 4
      ensures fresh(header) && header.Length == 4
      ensures forall i :: 0 <= i < 4 ==> header[i] == ByteAt(zbuffer, (old(Pos()) + 7) / 8 + i)
    {
      hide Window;
      ghost var q := (Pos() + 7) / 8;
      header := new byte[4](_ => 0);
      AlignToByte();
      var k := DrainBuffer(header, q);
      while k < 4
        invariant Reader() && numBits == 0 && taken == q + k && k <= 4
        invariant forall i :: 0 <= i < k ==> header[i] == ByteAt(zbuffer, q + i)
      {
        header[k] := Get8();
        k := k + 1;
      }
    }

    /** Copy a stored block; it starts at a byte boundary however many bytes
        the accumulator had buffered. */
    method ParseUncompressedBlock() returns (ok: bool)
      requires Reader() && Buffers()
      modifies this`next, this`taken, this`numBits, this`codeBuffer, this`obuf, this`zout, obuf
      ensures Reader() && Buffers() && (obuf == old(obuf) || fresh(obuf))
      ensures var r := old(StoredData(zbuffer, Pos(), Output(), cap));
              ok == r.Done? && (ok ==> Pos() == r.pos && Output() == r.out)
    {
      hide Window, MaxCap;
      ghost var q := (Pos() + 7) / 8;
      var header := ReadStoredHeader();
      var len: nat := 256 * (header[1] as int) + header[0] as int;
      var nlen: nat := 256 * (header[3] as int) + header[2] as int;
      if nlen != 0xFFFF - len { return false; }
      if next + len > |zbuffer| { return false; }
      ok := CopyStored(len);
    }

    /** `memcpy` of the next len input bytes, and the moves of both cursors. */
    method CopyInput(len: nat)
      requires Reader() && numBits == 0 && taken + len <= |zbuffer|
      requires zout + len <= obuf.Length
      modifies this`next, this`taken, this`zout, obuf
      ensures Reader() && taken == old(taken) + len && zout == old(zout) + len
      ensures Output() == old(Output()) + zbuffer[old(taken)..taken]
    {
      hide Window;
      NoBits(zbuffer, Pos());
      NoBits(zbuffer, Pos() + 8 * len);
      forall i | 0 <= i < len { obuf[zout + i] := zbuffer[next + i]; }
      next := next + len;
      taken := taken + len;
      zout := zout + len;
    }

    /** Append the next len input bytes, growing the buffer when they do not fit. */
    method CopyStored(len: nat) returns (ok: bool)
      requires Reader() && Buffers() && numBits == 0 && taken + len <= |zbuffer|
      modifies this`next, this`taken, this`obuf, this`zout, obuf
      ensures Reader() && Buffers() && (obuf == old(obuf) || fresh(obuf))
      ensures ok <==> old(zout) + len <= cap
      ensures ok ==> taken == old(taken) + len && Output() == old(Output()) + zbuffer[old(taken)..old(taken) + len]
    {
      hide MaxCap, Window;
      if zout + len > obuf.Length {
        ok := Expand(zout, len);
        if !ok { return; }
      }
      CopyInput(len);
      ok := true;
    }

    method ParseZlibHeader() returns (ok: bool)
      requires next == taken == 0
      modifies this`next, this`taken
      ensures ok <==> ZlibHeader(zbuffer)
      ensures ok ==> taken == 2 && next == (if 2 < |zbuffer| then 2 else |zbuffer|)
    {
      var cmf: nat := Get8();
      LowNibble(cmf);
      var cm := And(cmf, 15);
      var flg: nat := Get8();
      BitFive(flg);
      if (cmf * 256 + flg) % 31 != 0 { return false; }
      if And(flg, 32) != 0 { return false; }
      if cm != 8 { return false; }
      ok := true;
    }

    /** The fixed code lengths, filled in range by range. */
    method InitDefaults() returns (length: array<byte>, distance: array<byte>)
      ensures fresh(length) && fresh(distance)
      ensures length[..] == FixedLengths() && distance[..] == FixedDistances()
    {
      hide FixedLengths, FixedDistances;
      FixedEntries();
      length, distance := new byte[288](_ => 0), new byte[32](_ => 0);
      var i := 0;
      while i <= 143
        invariant i <= 144 && forall j :: 0 <= j < i ==> length[j] == FixedLengths()[j]
      { length[i] := 8; i := i + 1; }
      while i <= 255
        invariant 144 <= i <= 256 && forall j :: 0 <= j < i ==> length[j] == FixedLengths()[j]
      { length[i] := 9; i := i + 1; }
      while i <= 279
        invariant 256 <= i <= 280 && forall j :: 0 <= j < i ==> length[j] == FixedLengths()[j]
      { length[i] := 7; i := i + 1; }
      while i <= 287
        invariant 280 <= i <= 288 && forall j :: 0 <= j < i ==> length[j] == FixedLengths()[j]
      { length[i] := 8; i := i + 1; }
      i := 0;
      while i <= 31
        invariant i <= 32 && forall j :: 0 <= j < i ==> distance[j] == 5
        invariant forall j :: 0 <= j < 288 ==> length[j] == FixedLengths()[j]
      { distance[i] := 5; i := i + 1; }
    }

    method BuildFixed() returns (ok: bool)
      requires Apart()
      modifies zLength.Repr, zDistance.Repr
      ensures ok ==> zLength.For(FixedLengths()) && zDistance.For(FixedDistances())
      ensures ok
    {
      hide ZHuffman.Table.For, Fits;
      FixedFits();
      var length, distance := InitDefaults();
      ok := zLength.Build(length[..]);
      if !ok { return; }
      ok := zDistance.Build(distance[..]);
    }

    /** One block of the given type. */
    method ParseBlock(kind: nat) returns (ok: bool)
      requires Reader() && Buffers() && Pos() >= 3
      requires kind == Window(zbuffer, Pos() - 2, 2)
      requires BlockData(zbuffer, Pos() - 3, Output(), cap) != Undefined
      modifies this`next, this`taken, this`numBits, this`codeBuffer, this`obuf, this`zout, obuf,
               zLength.Repr, zDistance.Repr
      ensures Reader() && Buffers() && (obuf == old(obuf) || fresh(obuf))
      ensures var r := old(BlockData(zbuffer, Pos() - 3, Output(), cap));
              ok == r.Done? && (ok ==> Pos() == r.pos && Output() == r.out)
    {
      hide Window, HuffmanData, DynamicHeader, StoredData, MaxCap, ZHuffman.Table.For;
      WindowBound(zbuffer, Pos() - 2, 2);
      assert Shl(1, 2) == 4;
      if kind == 0 {
        ok := ParseUncompressedBlock();
      } else if kind == 3 {
        ok := false;
      } else if kind == 1 {
        ok := BuildFixed();
        if !ok { return; }
        ok := ParseHuffmanBlock(FixedLengths(), FixedDistances());
      } else {
        ghost var ll, dl;
        ok, ll, dl := ComputeHuffmanCodes();
        if !ok { return; }
        ok := ParseHuffmanBlock(ll, dl);
      }
    }

    /** The whole decoder: success exactly on the streams that denote output
        that fits, and then exactly that output. */
    method ParseZlib(parseHeader: bool) returns (ok: bool)
      requires Buffers() && next == taken == 0 && zout == 0
      requires Zlib(zbuffer, parseHeader, cap) != Undefined
      modifies this`next, this`taken, this`numBits, this`codeBuffer, this`obuf, this`zout, obuf,
               zLength.Repr, zDistance.Repr
      ensures Buffers() && (obuf == old(obuf) || fresh(obuf))
      ensures var r := Zlib(zbuffer, parseHeader, cap);
              ok == r.Done? && (ok ==> Output() == r.out)
    {
      hide Blocks, MaxCap, ZlibHeader;
      if parseHeader {
        ok := ParseZlibHeader();
        if !ok { return; }
      }
      numBits := 0;
      codeBuffer := 0;
      assert Output() == [];
      ok := ParseBlocks();
    }

    /** The header bits of a block, and the block. */
    method ParseNextBlock() returns (ok: bool, final: nat)
      requires Reader() && Buffers()
      requires BlockData(zbuffer, Pos(), Output(), cap) != Undefined
      modifies this`next, this`taken, this`numBits, this`codeBuffer, this`obuf, this`zout, obuf,
               zLength.Repr, zDistance.Repr
      ensures Reader() && Buffers() && (obuf == old(obuf) || fresh(obuf))
      ensures final == BitOf(zbuffer, old(Pos()))
      ensures var r := old(BlockData(zbuffer, Pos(), Output(), cap));
              ok == r.Done? && (ok ==> Pos() == r.pos && Output() == r.out)
    {
      hide BlockData, MaxCap, Window, BitOf, ZHuffman.Table.For;
      FirstBit(zbuffer, Pos());
      final := Receive(1);
      var kind := Receive(2);
      ok := ParseBlock(kind);
    }

    /** The block loop. */
    method ParseBlocks() returns (ok: bool)
      requires Reader() && Buffers()
      requires Blocks(zbuffer, Pos(), Output(), cap) != Undefined
      modifies this`next, this`taken, this`numBits, this`codeBuffer, this`obuf, this`zout, obuf,
               zLength.Repr, zDistance.Repr
      ensures Buffers() && (obuf == old(obuf) || fresh(obuf))
      ensures var r := old(Blocks(zbuffer, Pos(), Output(), cap));
              ok == r.Done? && (ok ==> Pos() == r.pos && Output() == r.out)
    {
      hide BlockData, MaxCap, Window, BitOf, Blocks, ZHuffman.Table.For;
      ghost var goal := Blocks(zbuffer, Pos(), Output(), cap);
      var final := 0;
      while true
        invariant Reader() && Buffers() && (obuf == old(obuf) || fresh(obuf))
        invariant Blocks(zbuffer, Pos(), Output(), cap) == goal
        decreases 8 * |zbuffer| - Pos()
      {
        BlocksStep(zbuffer, Pos(), Output(), cap);
        ok, final := ParseNextBlock();
        if !ok || final != 0 { return; }
      }
    }
  }

  /** One round of the block loop. */
  lemma BlocksStep(S: seq<byte>, p: nat, out: seq<byte>, cap: nat)
    requires |out| <= cap
    ensures var block := BlockData(S, p, out, cap);
            && (block.Done? ==> p < block.pos && |block.out| <= cap)
            && (block.Done? && BitOf(S, p) == 0 ==> p < 8 * |S|)
            && (block.Done? && BitOf(S, p) == 0 ==> Blocks(S, p, out, cap) == Blocks(S, block.pos, block.out, cap))
            && (!(block.Done? && BitOf(S, p) == 0) ==> Blocks(S, p, out, cap) == block)
  {}

  lemma ShlNineOnes(n: nat)
    requires n == 9
    ensures Shl(1, n) - 1 == 511
  {
    ZHuffman.ShlNine(1);
  }

  /** The reversed accumulator is the next 16 bits read most significant first. */
  lemma TopAligned(S: seq<byte>, p: nat, n: nat, k: nat)
    requires n >= 16 && k == BitReversal(Window(S, p, n), 16)
    ensures k == MsbCode(S, p, 16) && k < 0x10000
  {
    var w := Window(S, p, n);
    BitReversalIsRev(w, 16);
    MsbIsRev(S, p, 16, n);
    MsbBound(S, p, 16);
    ShlShl(1, 8, 8); ShlByEight(1); ShlByEight(256);
  }

  /** A reading at or beyond a preshifted range end is beyond that range. */
  lemma SlowStep(z: ZHuffman.Table, lens: seq<nat>, S: seq<byte>, p: nat, s: nat, k: nat)
    requires z.For(lens) && 1 <= s < 16 && k == MsbCode(S, p, 16)
    ensures k < z.maxcode[s] <==> MsbCode(S, p, s) < End(lens, s)
  {
    assert ZHuffman.RangeEntry(lens, s, z.firstcode[s], z.maxcode[s], z.firstsymbol[s]);
    Justified(lens, S, p, s, 16);
  }

  /** The first range that ends beyond the reading holds its symbol. */
  lemma SlowFound(z: ZHuffman.Table, lens: seq<nat>, S: seq<byte>, p: nat, s: nat, k: nat) returns (i: nat)
    requires z.For(lens) && 1 <= s < 16 && k == MsbCode(S, p, 16)
    requires End(lens, s - 1) <= MsbCode(S, p, s - 1) && k < z.maxcode[s]
    ensures Matches(lens, i, S, p) && lens[i] == s
    ensures 0 <= Shr(k, 16 - s) - z.firstcode[s] + z.firstsymbol[s] < 288
    ensures z.value[Shr(k, 16 - s) - z.firstcode[s] + z.firstsymbol[s]] == i
  {
    SlowStep(z, lens, S, p, s, k);
    i := FirstRangeMatch(lens, S, p, s);
    MsbPrefix(S, p, s, 16);
    assert ZHuffman.RangeEntry(lens, s, z.firstcode[s], z.maxcode[s], z.firstsymbol[s]);
    assert Shr(k, 16 - s) - z.firstcode[s] + z.firstsymbol[s] == SortedIndex(lens, i);
  }

  /** The loop of the slow path: the first length whose range ends beyond k. */
  method SearchLength(z: ZHuffman.Table, ghost lens: seq<nat>, ghost S: seq<byte>, ghost p: nat, k: nat)
    returns (s: nat)
    requires z.For(lens) && k == MsbCode(S, p, 16) && k < 0x10000
    requires End(lens, ZHuffman.FAST_BITS) <= MsbCode(S, p, ZHuffman.FAST_BITS)
    ensures 10 <= s <= 16 && End(lens, s - 1) <= MsbCode(S, p, s - 1)
    ensures k < z.maxcode[s]
  {
    s := ZHuffman.FAST_BITS + 1;
    while k >= z.maxcode[s]
      invariant 10 <= s <= 16
      invariant End(lens, s - 1) <= MsbCode(S, p, s - 1)
      decreases 16 - s
    {
      SlowStep(z, lens, S, p, s, k);
      s := s + 1;
    }
  }

  lemma FastIndex(S: seq<byte>, p: nat, n: nat, index: nat)
    requires n >= 16 && index == And(Window(S, p, n), ZHuffman.FAST_SIZE - 1)
    ensures index == Low(Window(S, p, n), 9) && index < ZHuffman.FAST_SIZE
    ensures forall s: nat :: s <= 9 ==> Rev(index, s) == MsbCode(S, p, s)
  {
    var nine := 9;
    ShlNineOnes(nine);
    AndMask(Window(S, p, n), nine);
    Split(Window(S, p, n), nine);
    forall s: nat | s <= nine ensures Rev(index, s) == MsbCode(S, p, s) {
      RevOfLow(Window(S, p, n), s, nine);
      MsbIsRev(S, p, s, n);
    }
  }

  /** The direct table answers exactly when a code of at most 9 bits matches. */
  lemma FastIsMatch(z: ZHuffman.Table, lens: seq<nat>, S: seq<byte>, p: nat, index: nat)
    requires z.For(lens) && index < ZHuffman.FAST_SIZE
    requires forall s: nat :: s <= 9 ==> Rev(index, s) == MsbCode(S, p, s)
    ensures z.fast[index] != 0 <==> exists i: nat :: Matches(lens, i, S, p) && lens[i] <= ZHuffman.FAST_BITS
    ensures forall i: nat :: Matches(lens, i, S, p) && lens[i] <= ZHuffman.FAST_BITS ==>
              z.fast[index] == ZHuffman.Packed(lens[i], i)
  {
    assert ZHuffman.FastEntry(lens, |lens|, index, z.fast[index]);
    forall i: nat | i < |lens|
      ensures ZHuffman.Hits(lens, i, index) <==> Matches(lens, i, S, p) && lens[i] <= ZHuffman.FAST_BITS
    {
    }
  }

  lemma LowThree(x: nat)
    ensures And(x, 7) == x % 8
  {
    AndMask(x, 3);
    LowTwo(x / 2);
    assert Shl(1, 3) == 8;
    assert Low(x, 3) == x % 2 + 2 * Low(x / 2, 2);
  }

  lemma LowTwo(x: nat)
    ensures Low(x, 2) == x % 4
  {
    assert Low(x, 2) == x % 2 + 2 * Low(x / 2, 1);
    assert Low(x / 2, 1) == x / 2 % 2;
  }

  /** Dropping the odd bits of the accumulator leads to the next byte boundary. */
  lemma ByteBoundary(t: nat, n: nat)
    requires n <= 8 * t
    ensures 8 * t - n + n % 8 == 8 * ((8 * t - n + 7) / 8) && (n - n % 8) % 8 == 0
  {
    assert 8 * t - n == 8 * (t - n / 8) - n % 8;
  }

  lemma LowNibble(x: nat)
    ensures And(x, 15) == Low(x, 4)
  {
    AndMask(x, 4);
    assert Shl(1, 4) == 16;
  }

  lemma BitFive(x: nat)
    ensures And(x, 32) != 0 <==> Bit(x, 5) == 1
  {
    var five := 5;
    AndOneBit(x, five);
    assert Shl(1, five) == 32 * Shl(1, five - 5);
  }

  /** Masking with a single bit tests that bit. */
  lemma {:induction false} AndOneBit(x: nat, n: nat)
    ensures Shl(1, n) >= 1
    ensures And(x, Shl(1, n)) == if Bit(x, n) == 1 then Shl(1, n) else 0
  {
    ShlNonNegative(1, n);
    if x == 0 {
      ShrOfZero(n);
    } else if n == 0 {
      assert And(x / 2, 0) == 0;
    } else {
      AndOneBit(x / 2, n - 1);
      assert Shl(1, n) / 2 == Shl(1, n - 1) && Shl(1, n) % 2 == 0;
    }
  }

  lemma NoBits(S: seq<byte>, p: nat)
    ensures Window(S, p, 0) == 0
  {}

  lemma FirstBit(S: seq<byte>, p: nat)
    ensures Window(S, p, 1) == BitOf(S, p)
  {
    assert Window(S, p, 1) == BitOf(S, p) + 2 * Window(S, p + 1, 0);
  }

  lemma AndByte(x: nat)
    ensures And(x, 255) == Low(x, 8) < 256
  {
    AndMask(x, 8);
    ShlByEight(1);
    Split(x, 8);
  }

  lemma PackedParts(s: nat, i: nat)
    requires i < 512
    ensures Shr(ZHuffman.Packed(s, i), 9) == s && And(ZHuffman.Packed(s, i), 511) == i
  {
    var nine := 9;
    ShlNineOnes(nine);
    ZHuffman.ShlNine(s);
    AndMask(ZHuffman.Packed(s, i), nine);
    Unpack(i, s, nine);
  }
}
