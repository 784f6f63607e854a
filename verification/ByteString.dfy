/** The string class: bytes in a growing buffer, read as UTF-8. */
module ByteString {
  import opened Bits
  import opened Buffers
  import opened Utf

  predicate OccursAt(h: seq<byte>, n: seq<byte>, k: nat) { k + |n| <= |h| && h[k..k + |n|] == n }

  /** Length of the zero-terminated text in a buffer. */
  function TextLength(buffer: seq<byte>): (n: nat)
    requires 0 in buffer
    ensures n < |buffer| && buffer[n] == 0 && 0 !in buffer[..n]
  {
    if buffer[0] == 0 then 0
    else
      var n := 1 + TextLength(buffer[1..]);
      assert buffer[..n] == [buffer[0]] + buffer[1..][..n - 1];
      n
  }

  /** The zero-terminated text in a buffer. */
  function Text(buffer: seq<byte>): seq<byte>
    requires 0 in buffer
  {
    buffer[..TextLength(buffer)]
  }

  /** The first zero is the only one that ends the text. */
  lemma TextIs(buffer: seq<byte>, n: nat)
    requires n < |buffer| && buffer[n] == 0 && 0 !in buffer[..n]
    ensures Text(buffer) == buffer[..n]
  {}

  /** `strlen`. */
  method StrLen(buffer: seq<byte>) returns (n: nat)
    requires 0 in buffer
    ensures n == |Text(buffer)|
  {
    n := 0;
    while buffer[n] != 0
      invariant n <= TextLength(buffer)
      decreases TextLength(buffer) - n
    {
      n := n + 1;
    }
  }

  /** `strstr`, as an offset or -1. The search stops one place early: an occurrence
      at the very end of the haystack is never reported. */
  method StrStr(haystack: seq<byte>, needle: seq<byte>) returns (r: int)
    requires 0 in haystack && 0 in needle
    ensures r >= -1
    ensures var h, n := Text(haystack), Text(needle);
            && (r >= 0 <==> exists k :: 0 <= k < |h| - |n| && OccursAt(h, n, k))
            && (r >= 0 ==> r < |h| - |n| && OccursAt(h, n, r) && forall k :: 0 <= k < r ==> !OccursAt(h, n, k))
  {
    ghost var h, n := Text(haystack), Text(needle);
    var hlen := StrLen(haystack);
    var nlen := StrLen(needle);
    assert h == haystack[..hlen] && n == needle[..nlen];
    if nlen > hlen { return -1; }
    var lim := hlen - nlen;
    var offset := 0;
    while offset < lim
      invariant 0 <= offset <= lim
      invariant forall k :: 0 <= k < offset ==> !OccursAt(h, n, k)
    {
      assert haystack[0..hlen] == h;
      SliceOfSlice(haystack, 0, hlen, offset, nlen);
      if haystack[offset..offset + nlen] == needle[..nlen] {
        assert OccursAt(h, n, offset);
        return offset;
      }
      offset := offset + 1;
    }
    r := -1;
  }

  /** The bytes after moving count bytes from src to dst. */
  function Moved(s: seq<byte>, dst: nat, src: nat, count: nat): (r: seq<byte>)
    requires dst + count <= |s| && src + count <= |s|
    ensures |r| == |s|
  {
    Splice(s, dst, s[src..src + count])
  }

  /** `memmove` inside one buffer, in the direction that keeps unread bytes. */
  method MemMove(a: array<byte>, dst: nat, src: nat, count: nat)
    requires dst + count <= a.Length && src + count <= a.Length
    modifies a
    ensures a[..] == Moved(old(a[..]), dst, src, count)
  {
    if dst < src { MoveForward(a, dst, src, count); } else { MoveBackward(a, dst, src, count); }
  }

  method MoveForward(a: array<byte>, dst: nat, src: nat, count: nat)
    requires dst < src && src + count <= a.Length
    modifies a
    ensures a[..] == Moved(old(a[..]), dst, src, count)
  {
    hide Moved;
    ghost var s := a[..];
    MovedNothing(s, dst, src);
    var n := 0;
    while n < count
      invariant 0 <= n <= count
      invariant a[..] == Moved(s, dst, src, n)
    {
      MoveUp(s, dst, src, n);
      a[dst + n] := a[src + n];
      n := n + 1;
    }
  }

  method MoveBackward(a: array<byte>, dst: nat, src: nat, count: nat)
    requires src <= dst && dst + count <= a.Length
    modifies a
    ensures a[..] == Moved(old(a[..]), dst, src, count)
  {
    hide Moved;
    ghost var s := a[..];
    MovedNothing(s, dst + count, src + count);
    var n := count;
    while n > 0
      invariant 0 <= n <= count
      invariant a[..] == Moved(s, dst + n, src + n, count - n)
    {
      MoveDown(s, dst + n - 1, src + n - 1, count - n);
      a[dst + n - 1] := a[src + n - 1];
      n := n - 1;
    }
  }

  lemma MovedNothing(s: seq<byte>, dst: nat, src: nat)
    requires dst <= |s| && src <= |s|
    ensures Moved(s, dst, src, 0) == s
  {}

  /** One more byte at the upper end: it has not been overwritten. */
  lemma MoveUp(s: seq<byte>, dst: nat, src: nat, n: nat)
    requires dst < src && src + n < |s|
    ensures var m := Moved(s, dst, src, n);
            m[src + n] == s[src + n] && m[dst + n := m[src + n]] == Moved(s, dst, src, n + 1)
  {}

  /** One more byte at the lower end: it has not been overwritten. */
  lemma MoveDown(s: seq<byte>, dst: nat, src: nat, n: nat)
    requires src <= dst && dst + 1 + n <= |s|
    ensures var m := Moved(s, dst + 1, src + 1, n); m[src] == s[src] && m[dst := m[src]] == Moved(s, dst, src, n + 1)
  {}

  class String {
    var storage: array<byte>
    var size: nat
    var capacity: nat

    /** The byte behind the contents starts a character or is the terminating
        zero, and there is a zero somewhere behind the contents. */
    ghost predicate Valid()
      reads this, storage
    {
      && size <= capacity && storage.Length == capacity + 1
      && !IsContinuation(storage[size]) && 0 in storage[size..]
    }

    ghost function Contents(): (s: seq<byte>)
      requires Valid()
      reads this, storage
    { storage[..size] }

    /** The contents are the zero-terminated text in the buffer. */
    ghost predicate Terminated()
      reads this, storage
    {
      Valid() && storage[size] == 0 && 0 !in Contents()
    }

    /** From a range of bytes. */
    constructor (data: seq<byte>)
      ensures Valid() && Contents() == data && storage[size] == 0 && fresh(storage)
    {
      capacity, size := |data|, |data|;
      storage := new byte[|data| + 1](i => if 0 <= i < |data| then data[i] else 0);
    }

    /** From zero-terminated UTF-16 text. */
    constructor FromUtf16Text(units: seq<nat>)
      requires AreUnits(units)
      ensures Valid() && Contents() == EncodeAll(FromUtf16(units, 0)) && fresh(storage)
    {
      capacity := 8;
      size := 0;
      storage := new byte[9](_ => 0);
      new;
      NoPoints();
      assert Contents() == [];
      AppendUtf16(units);
    }

    /** Push all points of a UTF-16 text. */
    method AppendUtf16(units: seq<nat>)
      requires AreUnits(units) && Valid() && Contents() == []
      modifies this, storage
      ensures Valid() && Contents() == EncodeAll(FromUtf16(units, 0))
      ensures storage == old(storage) || fresh(storage)
    {
      hide Encode, FromUtf16, EncodeAll, AreUnits;
      NoPoints();
      var k := 0;
      ghost var done: seq<point> := [];
      while k < |units|
        invariant 0 <= k <= |units| && Valid() && (storage == old(storage) || fresh(storage))
        invariant Contents() == EncodeAll(done) && done + FromUtf16(units, k) == FromUtf16(units, 0)
        decreases |units| - k
      {
        var w;
        w, k := Utf16Char(units, k);
        EncodeSnoc(done, w);
        PushBack(w);
        assert done + ([w] + FromUtf16(units, k)) == (done + [w]) + FromUtf16(units, k);
        done := done + [w];
      }
      NoUnits(units);
      assert done + [] == done;
    }

    /** `getUtf16Char`: the next point, and the place behind it. */
    static method Utf16Char(units: seq<nat>, k: nat) returns (w: point, next: nat)
      requires k < |units| && AreUnits(units)
      ensures k < next <= |units|
      ensures FromUtf16(units, k) == [w] + FromUtf16(units, next)
    {
      var u := units[k];
      Payload(u);
      if k + 1 < |units| { Payload(units[k + 1]); }
      next := k + 1;
      if 0xD800 <= u <= 0xDBFF {
        var val := u % 0x400 * 0x400;
        if k + 1 < |units| && 0xDC00 <= units[k + 1] <= 0xDFFF {
          w := val + units[k + 1] % 0x400 + 0x1_0000;
          next := k + 2;
        } else {
          w := 0xFFFD;
        }
      } else if 0xDC00 <= u <= 0xDFFF {
        w := 0xFFFD;
      } else {
        w := u;
      }
    }

    method Reserve(n: nat)
      requires Valid()
      modifies this, storage
      ensures Valid() && Contents() == old(Contents()) && capacity >= n && capacity >= old(capacity)
      ensures storage[size] == old(storage[size])
      ensures storage == old(storage) || fresh(storage)
    {
      if n < capacity { return; }
      var buf := new byte[n + 1];
      var i := 0;
      while i < capacity + 1
        invariant 0 <= i <= capacity + 1
        invariant storage == old(storage) && storage.Length == capacity + 1 && capacity == old(capacity) &&
                  size == old(size)
        invariant storage[..] == old(storage[..])
        invariant forall k :: 0 <= k < i ==> buf[k] == storage[k]
      {
        buf[i] := storage[i];
        i := i + 1;
      }
      capacity := n;
      storage := buf;
    }

    /** The buffer while bytes are being appended. */
    ghost predicate Shape()
      reads this, storage
    { size <= capacity && storage.Length == capacity + 1 }

    /** `storage[size_++] = b`. */
    method Put(b: byte)
      requires Shape() && size < capacity
      modifies `size, storage
      ensures Shape() && size == old(size) + 1 && storage[..size] == old(storage[..size]) + [b]
    {
      storage[size] := b;
      size := size + 1;
    }

    /** `push_back`: appends the encoding of one point. */
    method PushBack(w: point)
      requires Valid()
      modifies this, storage
      ensures Valid() && Contents() == old(Contents()) + Encode(w) && storage[size] == 0
      ensures storage == old(storage) || fresh(storage)
    {
      Reserve(size + 8);
      PutPoint(w);
      storage[size] := 0;
    }

    method PutPoint(w: point)
      requires Shape() && size + 8 <= capacity
      modifies `size, storage
      ensures Shape() && storage[..size] == old(storage[..size]) + Encode(w)
    {
      if w <= 0x7F {
        Put(w);
      } else if w <= 0x7FF {
        Put2(0xC0 + (w / 0x40) % 0x20, 0x80 + w % 0x40);
      } else if w <= 0xFFFF {
        Put3(0xE0 + (w / 0x1000) % 0x10, 0x80 + (w / 0x40) % 0x40, 0x80 + w % 0x40);
      } else {
        Put2(0xF0 + (w / 0x4_0000) % 8, 0x80 + (w / 0x1000) % 0x40);
        Put2(0x80 + (w / 0x40) % 0x40, 0x80 + w % 0x40);
      }
    }

    method Put2(a: byte, b: byte)
      requires Shape() && size + 2 <= capacity
      modifies `size, storage
      ensures Shape() && size == old(size) + 2 && storage[..size] == old(storage[..size]) + [a, b]
    {
      Put(a);
      Put(b);
    }

    method Put3(a: byte, b: byte, c: byte)
      requires Shape() && size + 3 <= capacity
      modifies `size, storage
      ensures Shape() && size == old(size) + 3 && storage[..size] == old(storage[..size]) + [a, b, c]
    {
      Put2(a, b);
      Put(c);
    }

    /** `pop_back`: drops the last point, and leaves its bytes behind the contents.
        A search stops at the end of the contents only if that point was 0 and no
        other one is; after a terminated text it still sees the dropped point. */
    method PopBack(ghost points: seq<point>)
      requires Valid() && points != [] && Contents() == EncodeAll(points)
      modifies `size
      ensures Valid() && Contents() == EncodeAll(points[..|points| - 1])
      ensures Terminated() <==> points[|points| - 1] == 0 && 0 !in points[..|points| - 1]
      ensures old(Terminated()) ==> !Terminated() && 0 in storage[..] && Text(storage[..]) == old(Contents())
    {
      hide Encode, EncodeAll, Text;
      ghost var n := |points| - 1;
      ghost var length, before := size, Contents();
      if Terminated() { BufferText(); }
      Segment(points, n);
      Ends(points);
      Prefix(points, n);
      while IsContinuation(storage[size - 1])
        invariant Offset(points, n) < size <= old(size)
        decreases size
      {
        SegmentByte(points, n, size - 1);
        size := size - 1;
      }
      SegmentByte(points, n, size - 1);
      size := size - 1;
      assert storage[..size] == EncodeAll(points)[..size];
      assert storage[size] == before[size];
      DroppedByte(points, before);
      ZeroPoints(points);
      ZeroPoints(points[..n]);
    }

    /** The text in the buffer of a terminated string. */
    lemma BufferText()
      requires Valid()
      ensures 0 in storage[..]
      ensures Terminated() <==> Text(storage[..]) == Contents()
    {
      assert storage[size..] == storage[..][size..];
      assert storage[..][..size] == storage[..size];
      if Terminated() { TextIs(storage[..], size); }
    }

    /** `length`. */
    method Length(ghost points: seq<point>) returns (len: nat)
      requires Valid() && Contents() == EncodeAll(points)
      ensures len == |points|
    {
      hide EncodeAll, Leads;
      len := 0;
      var offset := 0;
      LeadsOfNone();
      while offset < size
        invariant 0 <= offset <= size && len == Leads(Contents()[..offset])
      {
        LeadsNext(Contents(), offset);
        if !IsContinuation(storage[offset]) { len := len + 1; }
        offset := offset + 1;
      }
      assert Contents()[..size] == Contents();
      LeadsCount(points);
    }

    /** `replace`: bytes start to start + length give way to other bytes. */
    method Replace(start: nat, length: nat, replaceant: seq<byte>)
      requires Valid() && start + length <= size
      modifies this, storage
      ensures Valid() && storage[size] == 0
      ensures Contents() == old(Contents())[..start] + replaceant + old(Contents())[start + length..]
      ensures storage == old(storage) || fresh(storage)
    {
      hide Moved, Splice;
      ghost var before := Contents();
      var delta := |replaceant| - length;
      var newSize := size + delta;
      if newSize > capacity { Reserve(newSize); }
      ghost var all := storage[..];
      assert all[..size] == before;
      MemMove(storage, start + |replaceant|, start + length, size - length - start);
      MemCpy(storage, start, replaceant);
      ReplacedIs(all, size, start, length, replaceant);
      ghost var after := storage[..][..newSize];
      size := size + delta;
      storage[size] := 0;
      assert storage[..size] == after;
    }

    /** `find` of a zero-terminated text: it searches up to the first zero of the
        buffer, which stands behind the contents after `pop_back`, and inside
        them when they hold a zero. */
    method Find(c: seq<byte>) returns (r: int)
      requires Valid() && 0 in c
      ensures 0 in storage[..]
      ensures var h, n := Text(storage[..]), Text(c);
              && (r >= 0 <==> exists k :: 0 <= k < |h| - |n| && OccursAt(h, n, k))
              && (r >= 0 ==> r < |h| - |n| && OccursAt(h, n, r) && forall k :: 0 <= k < r ==> !OccursAt(h, n, k))
      ensures Terminated() <==> Text(storage[..]) == Contents()
    {
      BufferText();
      r := StrStr(storage[..], c);
    }
  }

  /** Searching "ab", left over from "abc", for "b" finds the occurrence that the
      search of the text "ab" does not report. */
  method StaleSearch() returns (r: int, clean: int)
    ensures r == 1 && clean == -1
  {
    hide Text, EncodeAll;
    var abc: seq<point>, bytes: seq<byte>, b: seq<byte> := [97, 98, 99], [97, 98, 99], [98, 0];
    Letters();
    var s := new String(bytes);
    s.PopBack(abc);
    r := s.Find(b);
    clean := StrStr([97, 98, 0], b);
  }

  /** "b" stands at the end of "ab", and the search does not report it. */
  method EndSearch() returns (r: int)
    ensures r == -1 && OccursAt(Text([97, 98, 0]), Text([98, 0]), 1)
  {
    hide Text, EncodeAll;
    Letters();
    assert [97, 98][1..2] == [98];
    r := StrStr([97, 98, 0], [98, 0]);
  }

  lemma Letters()
    ensures EncodeAll([97, 98, 99]) == [97, 98, 99] && 0 !in [97, 98, 99]
    ensures Text([98, 0]) == [98] && Text([97, 98, 0]) == [97, 98]
    ensures OccursAt([97, 98, 99], [98], 1) && !OccursAt([97, 98, 99], [98], 0) && !OccursAt([97, 98], [98], 0)
  {
    ThreeLetters();
    assert [98, 0][..1] == [98] && [97, 98, 0][..2] == [97, 98];
    TextIs([98, 0], 1);
    TextIs([97, 98, 0], 2);
    assert [97, 98, 99][0..1] == [97] && [97, 98, 99][1..2] == [98] && [97, 98][0..1] == [97];
  }

  lemma ThreeLetters()
    ensures EncodeAll([97, 98, 99]) == [97, 98, 99]
  {
    var abc: seq<point> := [97, 98, 99];
    assert abc[..2][..1] == [97] && abc[..1][..0] == [];
    assert EncodeAll(abc[..1]) == [97];
    assert abc[..2][..1] == abc[..1];
    assert EncodeAll(abc[..2]) == [97, 98];
  }

  /** The byte that `pop_back` leaves behind the contents. */
  lemma DroppedByte(points: seq<point>, bytes: seq<byte>)
    requires points != [] && bytes == EncodeAll(points)
    ensures var n := |points| - 1;
            Offset(points, n) < |bytes| && (bytes[Offset(points, n)] == 0 <==> points[n] == 0)
  {
    hide Offset, EncodeAll;
    var n := |points| - 1;
    Segment(points, n);
    SliceByte(bytes, Offset(points, n), Encode(points[n]), Offset(points, n));
  }

  /** Only the point 0 has a byte 0. */
  lemma {:induction false} ZeroPoints(points: seq<point>)
    ensures 0 in EncodeAll(points) <==> 0 in points
    decreases |points|
  {
    if points != [] {
      var n := |points| - 1;
      ZeroPoints(points[..n]);
      assert points == points[..n] + [points[n]];
      assert 0 in Encode(points[n]) <==> points[n] == 0;
    }
  }

  /** The bytes that the two moves of `replace` leave. */
  lemma ReplacedIs(all: seq<byte>, size: nat, start: nat, length: nat, replaceant: seq<byte>)
    requires start + length <= size <= |all| && size + |replaceant| - length <= |all|
    ensures var moved := Moved(all, start + |replaceant|, start + length, size - length - start);
            Splice(moved, start, replaceant)[..size + |replaceant| - length] ==
            all[..size][..start] + replaceant + all[..size][start + length..]
  {}

  method MemCpy(a: array<byte>, dst: nat, src: seq<byte>)
    requires dst + |src| <= a.Length
    modifies a
    ensures a[..] == Splice(old(a[..]), dst, src)
  {
    ghost var s := a[..];
    var n := 0;
    while n < |src|
      invariant 0 <= n <= |src|
      invariant forall i :: dst <= i < dst + n ==> a[i] == src[i - dst]
      invariant forall i :: 0 <= i < dst || dst + n <= i < a.Length ==> a[i] == s[i]
    {
      a[dst + n] := src[n];
      n := n + 1;
    }
    assert a[..] == Splice(s, dst, src);
  }

  /** `const_iterator`. */
  class Iterator {
    const str: String
    var offset: nat

    constructor (str: String, offset: nat)
      ensures this.str == str && this.offset == offset
    {
      this.str, this.offset := str, offset;
    }

    /** The iterator stands at point i, or at the end. */
    ghost predicate StandsAt(points: seq<point>, i: nat)
      reads this, str, str.storage
    {
      && str.Valid() && str.Contents() == EncodeAll(points)
      && i <= |points| && offset == Offset(points, i)
    }

    /** `operator++`. */
    method Next(ghost points: seq<point>, ghost i: nat)
      requires StandsAt(points, i) && i < |points|
      modifies this
      ensures StandsAt(points, i + 1)
    {
      hide Encode, EncodeAll, Offset;
      Segment(points, i);
      Ends(points);
      ghost var end := Offset(points, i + 1);
      NextLead(points, i + 1);
      EncodeNonempty(points, i);
      forall k | Offset(points, i) < k < end ensures IsContinuation(EncodeAll(points)[k]) { SegmentByte(points, i, k); }
      assert str.storage[end] == if end < str.size then EncodeAll(points)[end] else str.storage[str.size];
      offset := offset + 1;
      while IsContinuation(str.storage[offset])
        invariant Offset(points, i) < offset <= end
        decreases end - offset
      {
        offset := offset + 1;
      }
    }

    /** `operator--`. */
    method Previous(ghost points: seq<point>, ghost i: nat)
      requires StandsAt(points, i) && 0 < i
      modifies this
      ensures StandsAt(points, i - 1)
    {
      hide Encode, EncodeAll, Offset;
      Segment(points, i - 1);
      EncodeNonempty(points, i - 1);
      ghost var from := Offset(points, i - 1);
      offset := offset - 1;
      while IsContinuation(str.storage[offset])
        invariant from <= offset < Offset(points, i)
        decreases offset
      {
        SegmentByte(points, i - 1, offset);
        assert str.storage[offset] == EncodeAll(points)[offset];
        offset := offset - 1;
      }
      SegmentByte(points, i - 1, offset);
      assert str.storage[offset] == EncodeAll(points)[offset];
    }

    /** `operator*`: the point at the iterator. */
    method Get(ghost points: seq<point>, ghost i: nat) returns (w: nat)
      requires StandsAt(points, i) && i < |points|
      ensures w == points[i]
    {
      hide Encode, EncodeAll, Offset, Decode;
      Segment(points, i);
      var text := str.storage[..str.size];
      assert text[offset..offset + |Encode(points[i])|] == Encode(points[i]);
      DecodeEncode(points[i], text, offset);
      w := Decode(text, offset);
    }
  }

  lemma EncodeNonempty(points: seq<point>, i: nat)
    requires i < |points|
    ensures Offset(points, i) < Offset(points, i + 1)
  {
    Segment(points, i);
  }

  /** Behind a point stands the lead byte of the next one, if there is one. */
  lemma NextLead(points: seq<point>, i: nat)
    requires i <= |points|
    ensures Offset(points, i) <= |EncodeAll(points)|
    ensures Offset(points, i) < |EncodeAll(points)| ==> !IsContinuation(EncodeAll(points)[Offset(points, i)])
  {
    Prefix(points, i);
    if i < |points| {
      EncodeNonempty(points, i);
      SegmentByte(points, i, Offset(points, i));
    } else {
      Ends(points);
    }
  }

  lemma LeadsOfNone()
    ensures Leads([]) == 0
  {}

  lemma LeadsNext(s: seq<byte>, n: nat)
    requires n < |s|
    ensures Leads(s[..n + 1]) == Leads(s[..n]) + if IsContinuation(s[n]) then 0 else 1
  {
    assert s[..n + 1][..n] == s[..n];
  }

  lemma NoPoints()
    ensures EncodeAll([]) == []
  {}

  lemma SliceByte(s: seq<byte>, from: nat, part: seq<byte>, k: nat)
    requires from <= k < from + |part| <= |s| && s[from..from + |part|] == part
    ensures s[k] == part[k - from]
  {
    assert s[from..from + |part|][k - from] == s[k];
  }

  /** Of the bytes of point i, only the first is not a continuation. */
  lemma SegmentByte(points: seq<point>, i: nat, k: nat)
    requires i < |points| && Offset(points, i) <= k < Offset(points, i + 1)
    ensures Offset(points, i + 1) <= |EncodeAll(points)|
    ensures IsContinuation(EncodeAll(points)[k]) <==> k > Offset(points, i)
  {
    hide Encode, EncodeAll, Offset, IsContinuation;
    Segment(points, i);
    SliceByte(EncodeAll(points), Offset(points, i), Encode(points[i]), k);
  }
}
