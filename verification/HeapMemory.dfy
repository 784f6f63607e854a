/** Block headers as four words in memory. */
module HeapMemory {
  import opened Bits
  import opened Buffers

  const HEADER: nat := 32
  /** Words have 64 bits. */
  const WORD: nat := 0x1_0000_0000_0000_0000

  /** The header of a block; `next` and `prev` are addresses, 0 is NULL. */
  datatype Header = Header(next: nat, prev: nat, length: nat, free: bool)
  {
    /** The header after a store to one of its fields. */
    function With(f: Field, v: nat): Header {
      match f
      case Next => this.(next := v)
      case Prev => this.(prev := v)
      case Length => this.(length := v)
      case Free => this.(free := v != 0)
    }

    /** The word that a field is stored as. */
    function Word(f: Field): nat {
      match f
      case Next => next
      case Prev => prev
      case Length => length
      case Free => if free then 1 else 0
    }
  }

  type Headers = map<nat, Header>

  /** The fields of `malloc_entry`, in their order in memory. */
  datatype Field = Next | Prev | Length | Free
  {
    function Offset(): (o: nat)
      ensures o <= 24
    {
      match this case Next => 0 case Prev => 8 case Length => 16 case Free => 24
    }
  }

  // ----- little-endian words

  function Range(n: nat): (r: nat)
    ensures r > 0
  {
    if n == 0 then 1 else 256 * Range(n - 1)
  }

  /** The number that little-endian bytes denote. */
  function Value(s: seq<byte>): nat {
    if s == [] then 0 else s[0] + 256 * Value(s[1..])
  }

  /** The n lowest bytes of a number, least significant first. */
  function Digits(v: nat, n: nat): (s: seq<byte>)
    ensures |s| == n
  {
    if n == 0 then [] else [v % 256] + Digits(v / 256, n - 1)
  }

  lemma {:induction false} ValueOfDigits(v: nat, n: nat)
    requires v < Range(n)
    ensures Value(Digits(v, n)) == v
    decreases n
  {
    if n > 0 { ValueOfDigits(v / 256, n - 1); }
  }

  lemma {:induction false} ValueBound(s: seq<byte>)
    ensures Value(s) < Range(|s|)
    decreases |s|
  {
    if s != [] { ValueBound(s[1..]); }
  }

  lemma WordRange()
    ensures Range(8) == WORD
  {
    assert Range(4) == 256 * (256 * (256 * (256 * Range(0))));
    assert Range(8) == 256 * (256 * (256 * (256 * Range(4))));
  }

  /** The word of a field in the header at a. */
  function WordAt(m: seq<byte>, a: nat, f: Field): nat
    requires a + HEADER <= |m|
  {
    Value(m[a + f.Offset()..a + f.Offset() + 8])
  }

  function Stored(m: seq<byte>, a: nat, f: Field, v: nat): (r: seq<byte>)
    requires a + HEADER <= |m|
    ensures |r| == |m|
  {
    Splice(m, a + f.Offset(), Digits(v, 8))
  }

  /** A stored word is read back, and no other field changes, be it of the same
      header or of a header elsewhere. */
  lemma StoreLoad(m: seq<byte>, a: nat, f: Field, v: nat, b: nat, g: Field)
    requires a + HEADER <= |m| && b + HEADER <= |m| && v < WORD && (a == b || a + HEADER <= b || b + HEADER <= a)
    ensures WordAt(Stored(m, a, f, v), b, g) == if a == b && f == g then v else WordAt(m, b, g)
  {
    hide Value, Digits;
    WordRange();
    ValueOfDigits(v, 8);
    SpliceApart(m, a + f.Offset(), Digits(v, 8), b + g.Offset());
  }

  lemma SpliceApart(m: seq<byte>, at: nat, s: seq<byte>, from: nat)
    requires |s| == 8 && at + 8 <= |m| && from + 8 <= |m| && (at == from || at + 8 <= from || from + 8 <= at)
    ensures Splice(m, at, s)[from..from + 8] == if at == from then s else m[from..from + 8]
  {}

  // ----- headers in memory

  /** The header that the bytes at a denote. */
  function HeaderAt(m: seq<byte>, a: nat): Header
    requires a + HEADER <= |m|
  {
    Header(WordAt(m, a, Next), WordAt(m, a, Prev), WordAt(m, a, Length), WordAt(m, a, Free) != 0)
  }

  /** The bytes at a hold header d; the free mark is 0 or 1. */
  ghost predicate Holds(m: seq<byte>, a: nat, d: Header) {
    && a + HEADER <= |m|
    && forall f: Field :: WordAt(m, a, f) == d.Word(f)
  }

  /** Memory holds all headers. */
  ghost predicate InMemory(m: seq<byte>, h: Headers, heads: set<nat>) {
    forall a :: a in heads ==> a in h && Holds(m, a, h[a])
  }

  /** Headers do not overlap. */
  ghost predicate Separate(heads: set<nat>) {
    forall a, b :: a in heads && b in heads && a != b ==> a + HEADER <= b || b + HEADER <= a
  }

  /** Byte k belongs to no header. */
  ghost predicate Outside(heads: set<nat>, k: nat) {
    forall a :: a in heads ==> !(a <= k < a + HEADER)
  }

  /** No byte outside the headers is different. */
  ghost predicate OnlyHeaders(m: seq<byte>, m': seq<byte>, heads: set<nat>) {
    |m| == |m'| && forall k: nat :: k < |m| && Outside(heads, k) ==> m'[k] == m[k]
  }

  /** A store to a field of one header. */
  lemma StoreKeeps(m: seq<byte>, h: Headers, heads: set<nat>, a: nat, f: Field, v: nat)
    requires InMemory(m, h, heads) && Separate(heads) && a in heads && v < WORD && (f == Free ==> v <= 1)
    ensures a in h && a + HEADER <= |m|
    ensures InMemory(Stored(m, a, f, v), h[a := h[a].With(f, v)], heads)
    ensures OnlyHeaders(m, Stored(m, a, f, v), heads)
  {
    hide WordAt, Stored;
    var m', h' := Stored(m, a, f, v), h[a := h[a].With(f, v)];
    forall b | b in heads ensures b in h' && Holds(m', b, h'[b]) {
      forall g: Field ensures WordAt(m', b, g) == h'[b].Word(g) {
        StoreLoad(m, a, f, v, b, g);
      }
    }
    StoredBytes(m, a, f, v);
    forall k: nat | k < |m| && Outside(heads, k) ensures m'[k] == m[k] {
      assert !(a <= k < a + HEADER);
    }
  }

  lemma StoredBytes(m: seq<byte>, a: nat, f: Field, v: nat)
    requires a + HEADER <= |m|
    ensures forall k: nat :: k < |m| && !(a <= k < a + HEADER) ==> Stored(m, a, f, v)[k] == m[k]
  {}

  /** A new header: its first word to be written is the free mark. */
  lemma NewHeader(m: seq<byte>, h: Headers, heads: set<nat>, a: nat)
    requires InMemory(m, h, heads) && Separate(heads + {a}) && a !in heads && a + HEADER <= |m|
    ensures var m' := Stored(m, a, Free, 1);
            && InMemory(m', h[a := HeaderAt(m', a)], heads + {a})
            && OnlyHeaders(m, m', heads + {a})
            && HeaderAt(m', a).free
  {
    hide WordAt, Stored;
    var m' := Stored(m, a, Free, 1);
    var h' := h[a := HeaderAt(m', a)];
    StoreLoad(m, a, Free, 1, a, Free);
    forall b | b in heads + {a} ensures b in h' && Holds(m', b, h'[b]) {
      forall g: Field ensures WordAt(m', b, g) == h'[b].Word(g) {
        if b != a { StoreLoad(m, a, Free, 1, b, g); }
      }
    }
    StoredBytes(m, a, Free, 1);
    forall k: nat | k < |m| && Outside(heads + {a}, k) ensures m'[k] == m[k] {
      assert a in heads + {a};
    }
  }

  lemma OnlyHeadersTrans(m: seq<byte>, m': seq<byte>, m'': seq<byte>, heads: set<nat>)
    requires OnlyHeaders(m, m', heads) && OnlyHeaders(m', m'', heads)
    ensures OnlyHeaders(m, m'', heads)
  {}

  /** Fewer headers are written than there are. */
  lemma OnlyHeadersMore(m: seq<byte>, m': seq<byte>, heads: set<nat>, more: set<nat>)
    requires OnlyHeaders(m, m', heads) && heads <= more
    ensures OnlyHeaders(m, m', more)
  {
    forall k: nat | k < |m| && Outside(more, k) ensures m'[k] == m[k] {
      assert Outside(heads, k);
    }
  }

  /** Writes outside the headers leave all of them in place. */
  lemma OutsideKeeps(m: seq<byte>, m': seq<byte>, h: Headers, heads: set<nat>)
    requires InMemory(m, h, heads) && |m| == |m'|
    requires forall k: nat :: k < |m| && !Outside(heads, k) ==> m'[k] == m[k]
    ensures InMemory(m', h, heads)
  {
    forall a | a in heads ensures Holds(m', a, h[a]) {
      forall k | a <= k < a + HEADER ensures m'[k] == m[k] {
        assert !Outside(heads, k);
      }
      forall f: Field ensures WordAt(m', a, f) == WordAt(m, a, f) {
        assert m'[a + f.Offset()..a + f.Offset() + 8] == m[a + f.Offset()..a + f.Offset() + 8];
      }
    }
  }
}
