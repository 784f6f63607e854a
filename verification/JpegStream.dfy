/** The entropy-coded segment as a bit stream, and the decoder's left-justified
    bit buffer (ITU-T T.81 sections F.1.2.3 and F.2.2.5). */
module JpegStream {
  import opened Bits
  import opened BitStream

  /** The data bytes before the next marker: a zero byte stuffed behind 0xFF is
      not data, and the input ends in zeros. */
  function Unstuffed(raw: seq<byte>): seq<byte> {
    if raw == [] then []
    else if raw[0] != 0xFF then [raw[0]] + Unstuffed(raw[1..])
    else if ByteAt(raw, 1) != 0 then []
    else [0xFF] + (if |raw| == 1 then [] else Unstuffed(raw[2..]))
  }

  /** Bytes with the order of their bits reversed: JPEG reads the most
      significant bit of each byte first. */
  function Mirrored(data: seq<byte>): (r: seq<byte>)
    ensures |r| == |data|
  {
    if data == [] then [] else [MirrorByte(data[0])] + Mirrored(data[1..])
  }

  function MirrorByte(b: byte): byte {
    RevBound(b, 8);
    assert Shl(1, 8) == 256;
    Rev(b, 8)
  }

  /** The stream from byte k on is R. */
  ghost predicate Rest(S: seq<byte>, k: nat, R: seq<byte>) {
    if k <= |S| then S[k..] == R else R == []
  }

  lemma RestFirst(S: seq<byte>, k: nat, b: byte, R: seq<byte>)
    requires Rest(S, k, [b] + R)
    ensures k < |S| && S[k] == b && Rest(S, k + 1, R)
  {
    assert S[k..][0] == b && S[k..][1..] == S[k + 1..];
  }

  lemma RestEmpty(S: seq<byte>, k: nat)
    requires Rest(S, k, [])
    ensures |S| <= k && ByteAt(S, k) == 0 && Rest(S, k + 1, [])
  {}

  // ----- readings

  lemma {:induction false} MsbAppend(S: seq<byte>, p: nat, m: nat, n: nat)
    ensures MsbCode(S, p, m + n) == Shl(MsbCode(S, p, m), n) + MsbCode(S, p + m, n)
    decreases |S|, n
  {
    if n > 0 {
      MsbAppend(S, p, m, n - 1);
    }
  }

  lemma {:induction false} MsbPastEnd(S: seq<byte>, p: nat, n: nat)
    requires p >= 8 * |S|
    ensures MsbCode(S, p, n) == 0
    decreases |S|, n
  {
    if n > 0 { MsbPastEnd(S, p, n - 1); }
  }

  /** Eight bits from a byte boundary are that byte of the data. */
  lemma MsbByte(S: seq<byte>, k: nat, n: nat)
    requires n == 8
    ensures MsbCode(S, 8 * k, n) == MirrorByte(ByteAt(S, k))
  {
    MsbIsRev(S, 8 * k, n, n);
    ByteWindow(S, k, n);
  }

  lemma MirrorMirror(b: byte)
    ensures MirrorByte(MirrorByte(b)) == b
  {
    RevRev(b, 8);
    assert Shl(1, 8) == 256;
    LowOfSmall(b, 8);
  }

  // ----- the buffer

  /** The buffer of w bits holds the next c bits of the stream, left-justified over
      zeros. A count below zero means that zeros behind the end were used up. */
  ghost predicate Holds(S: seq<byte>, p: nat, c: int, buffer: nat, w: nat) {
    c <= w && buffer == if c >= 0 then Shl(MsbCode(S, p, c), w - c) else 0
  }

  /** The stream has nothing but zeros beyond the buffered bits. */
  ghost predicate Exhausted(S: seq<byte>, p: nat, c: int) { p + c >= 8 * |S| }

  lemma ShrNonzero(x: nat, y: nat, n: nat)
    requires x < y
    ensures Shl(x, n) < Shl(y, n)
  {
    ShlMonotone(x + 1, y, n);
    ShlAdd(x, 1, n);
    ShlNonNegative(1, n);
  }

  lemma {:induction false} ShrOfShl(x: nat, m: nat, n: nat)
    ensures Shl(x, m) >= 0
    ensures Shr(Shl(x, m), n) == if n < m then Shl(x, m - n) else Shr(x, n - m)
    decreases n
  {
    ShlNonNegative(x, m);
    if n > 0 && m > 0 {
      assert Shl(x, m) / 2 == Shl(x, m - 1);
      ShrOfShl(x, m - 1, n - 1);
    }
  }

  /** The top n bits of the buffer are the next n bits of the stream. */
  lemma Peek(S: seq<byte>, p: nat, c: int, buffer: nat, w: nat, n: nat)
    requires Holds(S, p, c, buffer, w) && n <= w && (n <= c || Exhausted(S, p, c))
    ensures Shr(buffer, w - n) == MsbCode(S, p, n)
  {
    if c >= 0 {
      ShrOfShl(MsbCode(S, p, c), w - c, w - n);
      if n <= c {
        MsbPrefix(S, p, n, c);
      } else {
        MsbAppend(S, p, c, n - c);
        MsbPastEnd(S, p + c, n - c);
      }
    } else {
      ShrOfZero(w - n);
      MsbPastEnd(S, p, n);
    }
  }

  lemma {:induction false} LowOfShl(x: nat, n: nat, w: nat)
    requires n <= w
    ensures Shl(x, n) >= 0 && Low(Shl(x, n), w) == Shl(Low(x, w - n), n)
    decreases n
  {
    ShlNonNegative(x, n);
    if n > 0 {
      assert Shl(x, n) / 2 == Shl(x, n - 1);
      LowOfShl(x, n - 1, w - 1);
    }
  }

  /** Shifting n bits out of the buffer moves on by n bits. */
  lemma Consume(S: seq<byte>, p: nat, c: int, buffer: nat, w: nat, n: nat)
    requires Holds(S, p, c, buffer, w) && n <= w && (n <= c || Exhausted(S, p, c))
    ensures Shl(buffer, n) >= 0
    ensures Holds(S, p + n, c - n, Low(Shl(buffer, n), w), w)
  {
    hide MsbCode, Shl, Low;
    LowOfShl(buffer, n, w);
    if 0 <= n <= c {
      MsbAppend(S, p, n, c - n);
      MsbBound(S, p + n, c - n);
      ConsumeKept(MsbCode(S, p, n), MsbCode(S, p + n, c - n), c, w, n);
    } else if c >= 0 {
      ConsumeAll(MsbCode(S, p, c), c, w, n);
    } else {
      LowOfZero(w - n);
      ShlZero(n);
    }
  }

  /** Some of the c bits stay: x are shifted out, y stay. */
  lemma ConsumeKept(x: nat, y: nat, c: nat, w: nat, n: nat)
    requires n <= c <= w && y < Shl(1, c - n)
    ensures Shl(x, c - n) >= 0 && Shl(Shl(x, c - n) + y, w - c) >= 0
    ensures Shl(Low(Shl(Shl(x, c - n) + y, w - c), w - n), n) == Shl(y, w - (c - n))
  {
    hide Shl, Low;
    ShlNonNegative(x, c - n);
    ShlNonNegative(Shl(x, c - n) + y, w - c);
    ShlAdd(Shl(x, c - n), y, w - c);
    ShlShl(x, c - n, w - c);
    ShrNonzero(y, Shl(1, c - n), w - c);
    ShlShl(1, c - n, w - c);
    ShlNonNegative(y, w - c);
    Unpack(Shl(y, w - c), x, w - n);
    ShlShl(y, w - c, n);
  }

  /** All c bits are shifted out. */
  lemma ConsumeAll(m: nat, c: nat, w: nat, n: nat)
    requires c <= n <= w
    ensures Shl(m, w - c) >= 0 && Shl(Low(Shl(m, w - c), w - n), n) == 0
  {
    hide Shl, Low;
    ShlNonNegative(m, n - c);
    ShlShl(m, n - c, w - n);
    ShlNonNegative(1, w - n);
    Unpack(0, Shl(m, n - c), w - n);
    assert w - c == (n - c) + (w - n);
    ShlZero(n);
  }

  /** A byte OR-ed in behind the buffered bits. */
  lemma Append(S: seq<byte>, p: nat, c: nat, buffer: nat, w: nat, b: byte)
    requires Holds(S, p, c, buffer, w) && c + 8 <= w && MsbCode(S, p + c, 8) == b
    ensures Shl(b, w - 8 - c) >= 0
    ensures Holds(S, p, c + 8, Or(buffer, Shl(b, w - 8 - c)), w)
  {
    var t := w - 8 - c;
    var m := MsbCode(S, p, c);
    MsbAppend(S, p, c, 8);
    ShlAdd(Shl(m, 8), b, t);
    ShlShl(m, 8, t);
    ShlNonNegative(b, t);
    ShrNonzero(b, 256, t);
    assert Shl(1, 8) == 256;
    ShlShl(1, 8, t);
    OrIsAdd(Shl(b, t), m, 8 + t);
    OrCommutes(buffer, Shl(b, t));
  }
}
