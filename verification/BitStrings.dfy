/** Strings of bits standing in byte streams, and the bytes that hold them. */
module BitStrings {
  import opened Options
  import opened Bits
  import opened BitStream
  import opened Canonical
  import opened PrefixDecode

  /** The bits stand at position p of S. */
  ghost predicate At(S: seq<byte>, p: nat, bits: seq<bool>) {
    && p + |bits| <= 8 * |S|
    && forall i :: 0 <= i < |bits| ==> BitOf(S, p + i) == if bits[i] then 1 else 0
  }

  /** A number in n bits, least significant first. */
  function NumBits(x: nat, n: nat): (b: seq<bool>)
    ensures |b| == n
  {
    if n == 0 then [] else [x % 2 == 1] + NumBits(x / 2, n - 1)
  }

  /** A Huffman code of n bits, most significant first. */
  function CodeBits(c: nat, n: nat): (b: seq<bool>)
    ensures |b| == n
  {
    if n == 0 then [] else CodeBits(c / 2, n - 1) + [c % 2 == 1]
  }

  lemma AtFits(S: seq<byte>, p: nat, bits: seq<bool>)
    requires At(S, p, bits)
    ensures p + |bits| <= 8 * |S|
  {}

  lemma AtSplit(S: seq<byte>, p: nat, a: seq<bool>, b: seq<bool>)
    requires At(S, p, a + b)
    ensures At(S, p, a) && At(S, p + |a|, b)
  {
    forall i | 0 <= i < |b| ensures BitOf(S, p + |a| + i) == if b[i] then 1 else 0 {
      assert (a + b)[|a| + i] == b[i];
    }
    forall i | 0 <= i < |a| ensures BitOf(S, p + i) == if a[i] then 1 else 0 {
      assert (a + b)[i] == a[i];
    }
  }

  lemma AtOne(S: seq<byte>, p: nat, b: bool)
    requires At(S, p, [b])
    ensures BitOf(S, p) == if b then 1 else 0
  {
    assert [b][0] == b && BitOf(S, p + 0) == BitOf(S, p);
  }

  lemma {:induction false} NumAt(S: seq<byte>, p: nat, x: nat, n: nat)
    requires At(S, p, NumBits(x, n)) && x < Shl(1, n)
    ensures Window(S, p, n) == x
    decreases n
  {
    if n > 0 {
      AtSplit(S, p, [x % 2 == 1], NumBits(x / 2, n - 1));
      AtOne(S, p, x % 2 == 1);
      NumAt(S, p + 1, x / 2, n - 1);
    }
  }

  lemma {:induction false} CodeAt(S: seq<byte>, p: nat, c: nat, n: nat)
    requires At(S, p, CodeBits(c, n)) && c < Shl(1, n)
    ensures MsbCode(S, p, n) == c
  {
    if n > 0 {
      AtSplit(S, p, CodeBits(c / 2, n - 1), [c % 2 == 1]);
      AtOne(S, p + (n - 1), c % 2 == 1);
      CodeAt(S, p, c / 2, n - 1);
    }
  }

  // ----- symbols of a canonical code

  predicate HasCode(lens: seq<nat>, i: nat) {
    i < |lens| && lens[i] > 0
  }

  function SymbolBits(lens: seq<nat>, i: nat): (b: seq<bool>)
    requires HasCode(lens, i)
    ensures |b| == lens[i]
  {
    CodeBits(Code(lens, i), lens[i])
  }

  /** The code of symbol i stands at p: it is the symbol that is decoded there. */
  lemma CodedSymbolAt(lens: seq<nat>, limit: nat, S: seq<byte>, p: nat, i: nat)
    requires Fits(lens, limit) && HasCode(lens, i) && lens[i] <= limit && At(S, p, SymbolBits(lens, i))
    ensures Symbol(lens, S, p) == Some(i)
  {
    CodeBound(lens, i, limit);
    CodeAt(S, p, Code(lens, i), lens[i]);
    SymbolIs(lens, S, p, i);
  }

  // ----- packing

  function BitsByte(bits: seq<bool>): byte
    requires |bits| <= 8
  {
    BitsNumberBound(bits);
    assert Shl(1, 8) == 256;
    BitsNumber(bits)
  }

  function BitsNumber(bits: seq<bool>): nat {
    if bits == [] then 0 else (if bits[0] then 1 else 0) + 2 * BitsNumber(bits[1..])
  }

  lemma {:induction false} BitsNumberBound(bits: seq<bool>)
    requires |bits| <= 8
    ensures BitsNumber(bits) < Shl(1, 8)
  {
    BitsNumberFits(bits, 8);
  }

  lemma {:induction false} BitsNumberFits(bits: seq<bool>, n: nat)
    requires |bits| <= n
    ensures BitsNumber(bits) < Shl(1, n)
  {
    ShlNonNegative(1, n);
    if bits != [] { BitsNumberFits(bits[1..], n - 1); }
  }

  lemma {:induction false} BitOfBitsNumber(bits: seq<bool>, i: nat)
    requires i < |bits|
    ensures Bit(BitsNumber(bits), i) == if bits[i] then 1 else 0
  {
    hide Bit;
    BitCons(if bits[0] then 1 else 0, BitsNumber(bits[1..]), i);
    if i > 0 {
      BitOfBitsNumber(bits[1..], i - 1);
    }
  }

  /** Bits packed into bytes, least significant bit first. */
  function Pack(bits: seq<bool>): (S: seq<byte>)
    ensures |bits| <= 8 * |S|
  {
    if |bits| <= 8 then [BitsByte(bits)] else [BitsByte(bits[..8])] + Pack(bits[8..])
  }

  lemma {:induction false} PackAt(prefix: seq<byte>, bits: seq<bool>)
    ensures At(prefix + Pack(bits), 8 * |prefix|, bits)
    decreases |bits|
  {
    hide BitOf, BitsByte;
    var S, k := prefix + Pack(bits), |prefix|;
    if |bits| <= 8 {
      ByteOfBits(S, k, bits);
    } else {
      ByteOfBits(S, k, bits[..8]);
      assert S == (prefix + [BitsByte(bits[..8])]) + Pack(bits[8..]);
      PackAt(prefix + [BitsByte(bits[..8])], bits[8..]);
      AtJoin(S, 8 * k, bits[..8], bits[8..]);
      assert bits[..8] + bits[8..] == bits;
    }
  }

  lemma AtJoin(S: seq<byte>, p: nat, a: seq<bool>, b: seq<bool>)
    requires At(S, p, a) && At(S, p + |a|, b)
    ensures At(S, p, a + b)
  {
    forall i | 0 <= i < |a + b| ensures BitOf(S, p + i) == if (a + b)[i] then 1 else 0 {
      if i >= |a| { assert BitOf(S, p + |a| + (i - |a|)) == if b[i - |a|] then 1 else 0; }
    }
  }

  lemma ByteOfBits(S: seq<byte>, k: nat, bits: seq<bool>)
    requires |bits| <= 8 && k < |S| && S[k] == BitsByte(bits)
    ensures At(S, 8 * k, bits)
  {
    hide Bit, BitsNumber;
    forall i | 0 <= i < |bits| ensures BitOf(S, 8 * k + i) == if bits[i] then 1 else 0 {
      assert (8 * k + i) / 8 == k && (8 * k + i) % 8 == i;
      BitOfBitsNumber(bits, i);
    }
  }
}
