/** A byte string read as an endless stream of bits, least significant bit of
    each byte first, with zeros after the last byte. */
module BitStream {
  import opened Bits

  /** Byte k, or zero behind the last one. */
  function ByteAt(S: seq<byte>, k: nat): byte {
    if k < |S| then S[k] else 0
  }

  function BitOf(S: seq<byte>, p: nat): nat
    ensures BitOf(S, p) <= 1
  {
    if p / 8 < |S| then Bit(S[p / 8], p % 8) else 0
  }

  /** The n bits from position p on as a number, first bit least significant. */
  function Window(S: seq<byte>, p: nat, n: nat): nat
    decreases |S|, n
  {
    if n == 0 then 0 else BitOf(S, p) + 2 * Window(S, p + 1, n - 1)
  }

  /** The n bits from position p on as a number, first bit most significant:
      the packing of Huffman codes (RFC 1951 section 3.1.1). */
  function MsbCode(S: seq<byte>, p: nat, n: nat): nat {
    if n == 0 then 0 else 2 * MsbCode(S, p, n - 1) + BitOf(S, p + n - 1)
  }

  lemma {:induction false} WindowBound(S: seq<byte>, p: nat, n: nat)
    ensures Window(S, p, n) < Shl(1, n)
    decreases |S|, n
  {
    if n > 0 { WindowBound(S, p + 1, n - 1); }
  }

  lemma {:induction false} WindowSplit(S: seq<byte>, p: nat, m: nat, n: nat)
    ensures Window(S, p, m + n) == Window(S, p, m) + Shl(Window(S, p + m, n), m)
    decreases |S|, m
  {
    if m > 0 {
      WindowSplit(S, p + 1, m - 1, n);
    }
  }

  /** Dropping n bits of a longer window: the low part is read, the rest stays. */
  lemma {:induction false} WindowTake(S: seq<byte>, p: nat, n: nat, total: nat)
    requires n <= total
    ensures Low(Window(S, p, total), n) == Window(S, p, n)
    ensures Shr(Window(S, p, total), n) == Window(S, p + n, total - n)
  {
    WindowSplit(S, p, n, total - n);
    WindowBound(S, p, n);
    Unpack(Window(S, p, n), Window(S, p + n, total - n), n);
  }

  lemma {:induction false} BitOfWindow(S: seq<byte>, p: nat, n: nat, i: nat)
    requires i < n
    ensures Bit(Window(S, p, n), i) == BitOf(S, p + i)
    decreases |S|, n
  {
    if i > 0 {
      BitOfWindow(S, p + 1, n - 1, i - 1);
    }
  }

  lemma {:induction false} WindowInByte(S: seq<byte>, k: nat, j: nat, n: nat)
    requires k < |S| && j + n <= 8
    ensures Window(S, 8 * k + j, n) == Low(Shr(S[k], j), n)
    decreases |S|, n
  {
    if n > 0 {
      assert (8 * k + j) / 8 == k && (8 * k + j) % 8 == j;
      WindowInByte(S, k, j + 1, n - 1);
      ShrShr(S[k], j, 1);
      assert Shr(Shr(S[k], j), 1) == Shr(S[k], j) / 2;
    }
  }

  lemma ShlEight(n: nat)
    requires n == 8
    ensures Shl(1, n) == 256
  {
    assert Shl(1, n) == 2 * Shl(1, n - 1) == 4 * Shl(1, n - 2) == 8 * Shl(1, n - 3) == 16 * Shl(1, n - 4);
    assert Shl(1, n - 4) == 2 * Shl(1, n - 5) == 4 * Shl(1, n - 6) == 8 * Shl(1, n - 7) == 16 * Shl(1, n - 8);
  }

  /** Eight bits from a byte boundary are that byte. */
  lemma ByteWindow(S: seq<byte>, k: nat, n: nat)
    requires n == 8
    ensures Window(S, 8 * k, n) == ByteAt(S, k)
  {
    if k < |S| {
      WindowInByte(S, k, 0, n);
      ShlEight(n);
      LowOfSmall(S[k], n);
    } else {
      WindowPastEnd(S, 8 * k, n);
    }
  }

  /** Beyond the last byte the stream is all zeros. */
  lemma {:induction false} WindowPastEnd(S: seq<byte>, p: nat, n: nat)
    requires p >= 8 * |S|
    ensures Window(S, p, n) == 0
    decreases |S|, n
  {
    if n > 0 { WindowPastEnd(S, p + 1, n - 1); }
  }

  /** Most-significant-first reading is the bit reversal of a window. */
  lemma {:induction false} MsbIsRev(S: seq<byte>, p: nat, n: nat, total: nat)
    requires n <= total
    ensures Rev(Window(S, p, total), n) == MsbCode(S, p, n)
  {
    if n > 0 {
      MsbIsRev(S, p, n - 1, total);
      BitOfWindow(S, p, total, n - 1);
    }
  }

  lemma {:induction false} MsbBound(S: seq<byte>, p: nat, n: nat)
    ensures MsbCode(S, p, n) < Shl(1, n)
  {
    if n > 0 { MsbBound(S, p, n - 1); }
  }

  /** A shorter reading is the top part of a longer one. */
  lemma {:induction false} MsbPrefix(S: seq<byte>, p: nat, s: nat, n: nat)
    requires s <= n
    ensures Shr(MsbCode(S, p, n), n - s) == MsbCode(S, p, s)
  {
    if s < n {
      MsbPrefix(S, p, s, n - 1);
      assert MsbCode(S, p, n) / 2 == MsbCode(S, p, n - 1);
    }
  }
}
