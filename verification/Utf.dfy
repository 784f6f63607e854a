/** UTF-8 (RFC 3629 section 3) and UTF-16 (RFC 2781 section 2.2). */
module Utf {
  import opened Bits

  /** Values that four UTF-8 bytes can carry; the code points are among them. */
  type point = n: nat | n < 0x20_0000

  predicate IsContinuation(b: byte) { 0x80 <= b < 0xC0 }

  function Encode(w: point): (r: seq<byte>)
    ensures 1 <= |r| <= 4
    ensures !IsContinuation(r[0]) && forall i :: 0 < i < |r| ==> IsContinuation(r[i])
  {
    if w <= 0x7F then [w]
    else if w <= 0x7FF then [0xC0 + w / 0x40, 0x80 + w % 0x40]
    else if w <= 0xFFFF then [0xE0 + w / 0x1000, 0x80 + (w / 0x40) % 0x40, 0x80 + w % 0x40]
    else [0xF0 + w / 0x4_0000, 0x80 + (w / 0x1000) % 0x40, 0x80 + (w / 0x40) % 0x40, 0x80 + w % 0x40]
  }

  /** The table of RFC 3629 section 3: the shortest form, whose lead byte tells the length;
      every further byte carries six bits. */
  lemma EncodeLaw(w: point)
    ensures var r: seq<int> := Encode(w);
            && |r| == (if w < 128 then 1 else if w < 2048 then 2 else if w < 65536 then 3 else 4)
            && (forall i :: 0 < i < |r| ==> 128 <= r[i] < 192)
            && (|r| == 1 ==> r[0] == w)
            && (|r| == 2 ==> 192 <= r[0] < 224 && w == 64 * (r[0] - 192) + (r[1] - 128))
            && (|r| == 3 ==> 224 <= r[0] < 240 && w == 4096 * (r[0] - 224) + 64 * (r[1] - 128) + (r[2] - 128))
            && (|r| == 4 ==>
                  && 240 <= r[0] < 248
                  && w == 262144 * (r[0] - 240) + 4096 * (r[1] - 128) + 64 * (r[2] - 128) + (r[3] - 128))
  {
    hide Encode;
    if w < 2048 { ShortForms(w); } else if w < 65536 { ThreeBytes(w); } else { FourBytes(w); }
  }

  lemma ShortForms(w: point)
    requires w < 2048
    ensures w < 128 ==> Encode(w) == [w]
    ensures 128 <= w ==>
              var r: seq<int> := Encode(w);
              |r| == 2 && 192 <= r[0] < 224 && 128 <= r[1] < 192 && w == 64 * (r[0] - 192) + (r[1] - 128)
  {}

  lemma ThreeBytes(w: point)
    requires 2048 <= w < 65536
    ensures var r: seq<int> := Encode(w);
            && |r| == 3 && 224 <= r[0] < 240 && 128 <= r[1] < 192 && 128 <= r[2] < 192
            && w == 4096 * (r[0] - 224) + 64 * (r[1] - 128) + (r[2] - 128)
  {
    Nested(w);
  }

  lemma FourBytes(w: point)
    requires 65536 <= w
    ensures var r: seq<int> := Encode(w);
            && |r| == 4 && 240 <= r[0] < 248 && 128 <= r[1] < 192 && 128 <= r[2] < 192 && 128 <= r[3] < 192
            && w == 262144 * (r[0] - 240) + 4096 * (r[1] - 128) + 64 * (r[2] - 128) + (r[3] - 128)
  {
    Nested(w / 0x40);
    assert w / 0x40 / 0x1000 == w / 0x4_0000 && w / 0x40 / 0x40 == w / 0x1000;
  }

  /** Byte k, or zero past the end. */
  function At(s: seq<byte>, k: nat): byte { if k < |s| then s[k] else 0 }

  /** The value of the sequence that begins at byte k. */
  function Decode(s: seq<byte>, k: nat): nat
  {
    Value(At(s, k), At(s, k + 1), At(s, k + 2), At(s, k + 3))
  }

  /** The value of a lead byte and up to three continuation bytes. */
  function Value(a: nat, b: nat, c: nat, d: nat): nat {
    if a < 0x80 then a
    else if a < 0xE0 then (a % 0x20) * 0x40 + b % 0x40
    else if a < 0xF0 then (a % 0x10) * 0x1000 + (b % 0x40) * 0x40 + c % 0x40
    else (a % 8) * 0x4_0000 + (b % 0x40) * 0x1000 + (c % 0x40) * 0x40 + d % 0x40
  }

  lemma Two(w: nat, c: nat, d: nat)
    requires 0x7F < w <= 0x7FF
    ensures Value(0xC0 + w / 0x40, 0x80 + w % 0x40, c, d) == w
  {
    assert (0xC0 + w / 0x40) % 0x20 == w / 0x40;
    assert (0x80 + w % 0x40) % 0x40 == w % 0x40;
  }

  lemma Three(w: nat, d: nat)
    requires 0x7FF < w <= 0xFFFF
    ensures Value(0xE0 + w / 0x1000, 0x80 + (w / 0x40) % 0x40, 0x80 + w % 0x40, d) == w
  {
    assert (0xE0 + w / 0x1000) % 0x10 == w / 0x1000;
    assert (0x80 + (w / 0x40) % 0x40) % 0x40 == (w / 0x40) % 0x40;
    assert (0x80 + w % 0x40) % 0x40 == w % 0x40;
    Nested(w);
  }

  lemma Four(w: nat)
    requires 0xFFFF < w < 0x20_0000
    ensures Value(0xF0 + w / 0x4_0000, 0x80 + (w / 0x1000) % 0x40, 0x80 + (w / 0x40) % 0x40, 0x80 + w % 0x40) == w
  {
    assert (0xF0 + w / 0x4_0000) % 8 == w / 0x4_0000;
    assert (0x80 + (w / 0x1000) % 0x40) % 0x40 == (w / 0x1000) % 0x40;
    assert (0x80 + (w / 0x40) % 0x40) % 0x40 == (w / 0x40) % 0x40;
    assert (0x80 + w % 0x40) % 0x40 == w % 0x40;
    Nested(w);
    Nested(w / 0x40);
    assert w / 0x40 / 0x1000 == w / 0x4_0000 && w / 0x40 / 0x40 == w / 0x1000;
  }

  lemma Nested(w: nat)
    ensures w == (w / 0x1000) * 0x1000 + ((w / 0x40) % 0x40) * 0x40 + w % 0x40
  {
    assert w / 0x40 / 0x40 == w / 0x1000;
  }

  lemma DecodeEncode(w: point, s: seq<byte>, k: nat)
    requires k + |Encode(w)| <= |s| && s[k..k + |Encode(w)|] == Encode(w)
    ensures Decode(s, k) == w
  {
    hide Value;
    var e := Encode(w);
    forall i | 0 <= i < |e| ensures At(s, k + i) == e[i] { assert s[k..k + |e|][i] == s[k + i]; }
    assert At(s, k) == e[0];
    assert |e| > 1 ==> At(s, k + 1) == e[1];
    assert |e| > 2 ==> At(s, k + 2) == e[2];
    assert |e| > 3 ==> At(s, k + 3) == e[3];
    if w <= 0x7F {
      One(w, At(s, k + 1), At(s, k + 2), At(s, k + 3));
    } else if w <= 0x7FF {
      Two(w, At(s, k + 2), At(s, k + 3));
    } else if w <= 0xFFFF {
      Three(w, At(s, k + 3));
    } else {
      Four(w);
    }
  }

  lemma One(w: nat, b: nat, c: nat, d: nat)
    requires w < 0x80
    ensures Value(w, b, c, d) == w
  {}

  function EncodeAll(points: seq<point>): seq<byte> {
    if points == [] then [] else EncodeAll(points[..|points| - 1]) + Encode(points[|points| - 1])
  }

  /** Where point i begins. */
  function Offset(points: seq<point>, i: nat): nat
    requires i <= |points|
  {
    |EncodeAll(points[..i])|
  }

  lemma {:induction false} Prefix(points: seq<point>, i: nat)
    requires i <= |points|
    ensures Offset(points, i) <= |EncodeAll(points)| && EncodeAll(points)[..Offset(points, i)] == EncodeAll(points[..i])
    decreases |points|
  {
    hide Encode;
    var n := |points|;
    if i < n {
      Prefix(points[..n - 1], i);
      assert points[..n - 1][..i] == points[..i];
    } else {
      assert points[..i] == points;
    }
  }

  /** Point i stands between its offset and the next. */
  lemma Segment(points: seq<point>, i: nat)
    requires i < |points|
    ensures Offset(points, i + 1) == Offset(points, i) + |Encode(points[i])| <= |EncodeAll(points)|
    ensures EncodeAll(points)[Offset(points, i)..Offset(points, i + 1)] == Encode(points[i])
  {
    hide Encode;
    Prefix(points, i + 1);
    assert points[..i + 1][..i] == points[..i];
    var all := EncodeAll(points);
    assert all[..Offset(points, i + 1)][Offset(points, i)..] == all[Offset(points, i)..Offset(points, i + 1)];
  }

  lemma Ends(points: seq<point>)
    ensures Offset(points, 0) == 0 && Offset(points, |points|) == |EncodeAll(points)|
  {
    assert points[..|points|] == points;
  }

  lemma EncodeSnoc(points: seq<point>, w: point)
    ensures EncodeAll(points + [w]) == EncodeAll(points) + Encode(w)
  {
    assert (points + [w])[..|points|] == points;
  }

  /** Bytes that begin a point. */
  function Leads(s: seq<byte>): nat {
    if s == [] then 0 else Leads(s[..|s| - 1]) + if IsContinuation(s[|s| - 1]) then 0 else 1
  }

  lemma {:induction false} LeadsOfConcat(a: seq<byte>, b: seq<byte>)
    ensures Leads(a + b) == Leads(a) + Leads(b)
    decreases |b|
  {
    if b == [] {
      assert a + b == a;
    } else {
      LeadsOfConcat(a, b[..|b| - 1]);
      assert (a + b)[..|a + b| - 1] == a + b[..|b| - 1];
    }
  }

  lemma {:induction false} LeadsOfTail(s: seq<byte>)
    requires forall i :: 0 <= i < |s| ==> IsContinuation(s[i])
    ensures Leads(s) == 0
    decreases |s|
  {
    if s != [] { LeadsOfTail(s[..|s| - 1]); }
  }

  /** Counting the bytes that are not continuations counts the points. */
  lemma {:induction false} LeadsCount(points: seq<point>)
    ensures Leads(EncodeAll(points)) == |points|
    decreases |points|
  {
    if points != [] {
      var n := |points| - 1;
      var e := Encode(points[n]);
      LeadsCount(points[..n]);
      LeadsOfConcat(EncodeAll(points[..n]), e);
      LeadsOfConcat(e[..1], e[1..]);
      assert e[..1] + e[1..] == e;
      LeadsOfTail(e[1..]);
    }
  }

  // ----- UTF-16

  predicate IsHigh(u: nat) { 0xD800 <= u <= 0xDBFF }

  predicate IsLow(u: nat) { 0xDC00 <= u <= 0xDFFF }

  /** Nonzero 16-bit units. */
  predicate AreUnits(units: seq<nat>) { forall i :: 0 <= i < |units| ==> 0 < units[i] < 0x1_0000 }

  /** The points of a string of units from unit k on; a lone surrogate reads as U+FFFD. */
  function FromUtf16(units: seq<nat>, k: nat): (r: seq<point>)
    requires k <= |units| && AreUnits(units)
    decreases |units| - k
  {
    if k == |units| then []
    else if IsHigh(units[k]) && k + 1 < |units| && IsLow(units[k + 1]) then
      [(units[k] - 0xD800) * 0x400 + (units[k + 1] - 0xDC00) + 0x1_0000] + FromUtf16(units, k + 2)
    else [if IsHigh(units[k]) || IsLow(units[k]) then 0xFFFD else units[k]] + FromUtf16(units, k + 1)
  }

  /** A surrogate that is not the first of a pair reads as U+FFFD, and alone. */
  lemma LoneSurrogate(units: seq<nat>, k: nat)
    requires k < |units| && AreUnits(units) && 0xD800 <= units[k] <= 0xDFFF
    requires !(units[k] <= 0xDBFF && k + 1 < |units| && 0xDC00 <= units[k + 1] <= 0xDFFF)
    ensures FromUtf16(units, k) == [65533] + FromUtf16(units, k + 1)
  {}

  /** A code point, neither zero, which ends a string, nor a surrogate. */
  predicate IsScalar(p: nat) { 0 < p <= 0x10_FFFF && !IsHigh(p) && !IsLow(p) }

  predicate AreScalars(points: seq<point>) { forall i :: 0 <= i < |points| ==> IsScalar(points[i]) }

  /** One or two units. */
  function Units(p: point): (r: seq<nat>)
    requires 0 < p <= 0x10_FFFF
    ensures AreUnits(r) && 1 <= |r| <= 2
  {
    if p < 0x1_0000 then [p] else [0xD800 + (p - 0x1_0000) / 0x400, 0xDC00 + (p - 0x1_0000) % 0x400]
  }

  /** UTF-16 encoding of code points. */
  function ToUtf16(points: seq<point>): (r: seq<nat>)
    requires AreScalars(points)
    ensures AreUnits(r)
  {
    if points == [] then [] else Units(points[0]) + ToUtf16(points[1..])
  }

  lemma ReadUnits(units: seq<nat>, k: nat, p: point)
    requires AreUnits(units) && IsScalar(p) && k + |Units(p)| <= |units| && units[k..k + |Units(p)|] == Units(p)
    ensures FromUtf16(units, k) == [p] + FromUtf16(units, k + |Units(p)|)
  {
    var n := |Units(p)|;
    assert units[k] == units[k..k + n][0];
    if p >= 0x1_0000 {
      assert units[k + 1] == units[k..k + n][1];
      var v := p - 0x1_0000;
      assert v == (v / 0x400) * 0x400 + v % 0x400;
    }
  }

  /** Decoding UTF-16 gives every sequence of code points back. */
  lemma {:induction false} Utf16RoundTrip(before: seq<nat>, points: seq<point>)
    requires AreUnits(before) && AreScalars(points)
    ensures FromUtf16(before + ToUtf16(points), |before|) == points
    decreases |points|
  {
    hide FromUtf16, Units;
    var units := before + ToUtf16(points);
    if points == [] {
      NoUnits(units);
    } else {
      var e, rest := Units(points[0]), ToUtf16(points[1..]);
      Utf16RoundTrip(before + e, points[1..]);
      assert units == (before + e) + rest;
      assert units[|before|..|before| + |e|] == e;
      ReadUnits(units, |before|, points[0]);
    }
  }

  lemma NoUnits(units: seq<nat>)
    requires AreUnits(units)
    ensures FromUtf16(units, |units|) == []
  {}

  lemma Payload(u: nat)
    ensures IsHigh(u) ==> u % 0x400 == u - 0xD800
    ensures IsLow(u) ==> u % 0x400 == u - 0xDC00
  {}
}
