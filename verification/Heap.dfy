/** The kernel heap: block headers tile one arena and form a circular doubly
    linked list in address order. */
module Heap {
  import opened Buffers
  import Bits
  import opened HeapMemory

  type byte = Bits.byte

  const RESERVE: nat := 1024 * 1024 * 32

  /** `(size + 15) & 0xFFFFFFF0`. */
  function RoundUp(size: nat): nat {
    (size + 15) % 0x1_0000_0000 / 16 * 16
  }

  lemma RoundUpFits(size: nat, length: nat)
    requires length <= RESERVE && length % 16 == 0 && size + HEADER <= length
    ensures size <= RoundUp(size) < size + 16 && RoundUp(size) % 16 == 0
    ensures RoundUp(size) + HEADER <= length
  {}

  // ----- the shape of the arena

  /** Position of the next block around the ring of n blocks. */
  function Succ(i: nat, n: nat): nat
    requires i < n
  {
    if i == n - 1 then 0 else i + 1
  }

  /** Where block i ends: at the next header, or at the end of the arena. */
  ghost predicate Joined(h: Headers, addrs: seq<nat>, base: nat, i: nat) {
    && i < |addrs| && addrs[i] in h
    && addrs[i] + HEADER + h[addrs[i]].length == if i + 1 < |addrs| then addrs[i + 1] else base + HEADER + RESERVE
  }

  /** Blocks follow each other without gaps from the start to the end of the arena. */
  ghost predicate Tiles(h: Headers, addrs: seq<nat>, base: nat) {
    && addrs != [] && addrs[0] == base
    && (forall i :: 0 <= i < |addrs| ==> addrs[i] in h)
    && forall i: nat :: i < |addrs| ==> Joined(h, addrs, base, i)
  }

  ghost predicate Linked(h: Headers, addrs: seq<nat>, i: nat) {
    && i < |addrs| && addrs[i] in h && addrs[Succ(i, |addrs|)] in h
    && h[addrs[i]].next == addrs[Succ(i, |addrs|)]
    && h[addrs[Succ(i, |addrs|)]].prev == addrs[i]
  }

  /** List order is address order, closed into a ring. */
  ghost predicate Ring(h: Headers, addrs: seq<nat>) {
    forall i: nat :: i < |addrs| ==> Linked(h, addrs, i)
  }

  ghost predicate Rounded(h: Headers, addrs: seq<nat>) {
    forall i :: 0 <= i < |addrs| ==> addrs[i] in h && h[addrs[i]].length % 16 == 0
  }

  /** Block i and the one behind it are not both free. */
  ghost predicate Apart(h: Headers, addrs: seq<nat>, i: nat) {
    i + 1 < |addrs| && addrs[i] in h && addrs[i + 1] in h ==> !(h[addrs[i]].free && h[addrs[i + 1]].free)
  }

  /** No two adjacent blocks are both free. */
  ghost predicate Coalesced(h: Headers, addrs: seq<nat>) {
    forall i: nat :: i < |addrs| ==> Apart(h, addrs, i)
  }

  ghost predicate Ready(h: Headers, addrs: seq<nat>, base: nat) {
    base > 0 && Tiles(h, addrs, base) && Ring(h, addrs) && Rounded(h, addrs) && Coalesced(h, addrs)
  }

  /** The allocated blocks: address of the header to length. */
  ghost function Live(h: Headers, addrs: seq<nat>): map<nat, nat> {
    map a | a in addrs && a in h && !h[a].free :: h[a].length
  }

  // ----- consequences of tiling

  lemma {:induction false} Ascending(h: Headers, addrs: seq<nat>, base: nat, i: nat, j: nat)
    requires Tiles(h, addrs, base) && i < j < |addrs|
    ensures addrs[i] + HEADER + h[addrs[i]].length <= addrs[j]
  {
    assert Joined(h, addrs, base, j - 1) && Joined(h, addrs, base, i);
    if i + 1 < j { Ascending(h, addrs, base, i, j - 1); }
  }

  lemma InArena(h: Headers, addrs: seq<nat>, base: nat, i: nat)
    requires Tiles(h, addrs, base) && i < |addrs|
    ensures base <= addrs[i] && addrs[i] + HEADER + h[addrs[i]].length <= base + HEADER + RESERVE
  {
    if i > 0 { Ascending(h, addrs, base, 0, i); }
    assert Joined(h, addrs, base, |addrs| - 1) && Joined(h, addrs, base, i);
    if i < |addrs| - 1 { Ascending(h, addrs, base, i, |addrs| - 1); }
  }

  /** Distinct blocks, with their headers, do not overlap. */
  lemma BlocksDisjoint(h: Headers, addrs: seq<nat>, base: nat, a: nat, b: nat)
    requires Tiles(h, addrs, base) && a in addrs && b in addrs && a != b
    ensures a + HEADER + h[a].length <= b || b + HEADER + h[b].length <= a
  {
    var i: nat :| i < |addrs| && addrs[i] == a;
    var j: nat :| j < |addrs| && addrs[j] == b;
    if i < j { Ascending(h, addrs, base, i, j); } else { Ascending(h, addrs, base, j, i); }
  }

  /** Bytes of the first n blocks with their headers. */
  ghost function Extent(h: Headers, addrs: seq<nat>, n: nat): nat
    requires n <= |addrs| && forall i :: 0 <= i < |addrs| ==> addrs[i] in h
  {
    if n == 0 then 0 else Extent(h, addrs, n - 1) + HEADER + h[addrs[n - 1]].length
  }

  /** All bytes of the arena belong to some block: nothing is ever lost. */
  lemma {:induction false} Conservation(h: Headers, addrs: seq<nat>, base: nat, n: nat)
    requires Tiles(h, addrs, base) && n <= |addrs|
    ensures Extent(h, addrs, n) == (if n < |addrs| then addrs[n] - base else 32 + 32 * 1024 * 1024)
  {
    if n > 0 {
      assert Joined(h, addrs, base, n - 1);
      Conservation(h, addrs, base, n - 1);
    }
  }

  ghost predicate Increasing(addrs: seq<nat>) {
    forall j, k :: 0 <= j < k < |addrs| ==> addrs[j] < addrs[k]
  }

  lemma OnePlace(addrs: seq<nat>, j: nat, k: nat)
    requires Increasing(addrs) && j < |addrs| && k < |addrs|
    ensures addrs[j] == addrs[k] <==> j == k
  {}

  // ----- splitting and merging blocks

  /** The block at cur keeps r bytes, the rest becomes a free block behind it. */
  function CarveHeaders(h: Headers, cur: nat, r: nat): Headers
    requires cur in h && r + HEADER <= h[cur].length
  {
    h[cur + r + HEADER := Header(h[cur].next, cur, h[cur].length - r - HEADER, true)][cur := h[cur].(length := r)]
  }

  /** Both ring neighbours of the block at rest point to it. */
  function LinkHeaders(h: Headers, cur: nat, rest: nat): Headers
    requires cur in h && rest in h && h[rest].next in h
  {
    var h := h[h[rest].next := h[h[rest].next].(prev := rest)];
    h[cur := h[cur].(next := rest)]
  }

  /** The header writes of a split. */
  function SplitHeaders(h: Headers, cur: nat, r: nat): Headers
    requires cur in h && h[cur].next in h && r + HEADER <= h[cur].length
  {
    LinkHeaders(CarveHeaders(h, cur, r), cur, cur + r + HEADER)
  }

  function Insert(addrs: seq<nat>, i: nat, a: nat): seq<nat>
    requires i < |addrs|
  {
    addrs[..i + 1] + [a] + addrs[i + 1..]
  }

  function Remove(addrs: seq<nat>, i: nat): seq<nat>
    requires i < |addrs|
  {
    addrs[..i] + addrs[i + 1..]
  }

  /** A split keeps the arena's shape when neither block i nor the one behind it is free. */
  lemma SplitReady(h: Headers, addrs: seq<nat>, base: nat, i: nat, r: nat)
    requires i < |addrs| && base > 0 && Tiles(h, addrs, base) && Ring(h, addrs) && Rounded(h, addrs) &&
             Coalesced(h, addrs)
    requires addrs[i] in h && !h[addrs[i]].free && (i + 1 < |addrs| ==> addrs[i + 1] in h && !h[addrs[i + 1]].free)
    requires r % 16 == 0 && r + HEADER <= h[addrs[i]].length
    ensures h[addrs[i]].next in h
    ensures var rest := addrs[i] + r + HEADER;
            var h', addrs' := SplitHeaders(h, addrs[i], r), Insert(addrs, i, rest);
            && rest !in addrs
            && Ready(h', addrs', base)
            && Live(h', addrs') == Live(h, addrs)[addrs[i] := r]
  {
    var cur := addrs[i];
    var rest := cur + r + HEADER;
    assert Linked(h, addrs, i) && Joined(h, addrs, base, i);
    NotInside(h, addrs, base, i, rest);
    Distinct(h, addrs, base);
    SplitBlocks(h, addrs, base, i, rest, r);
    SplitRing(h, addrs, i, rest, r);
    SplitTiles(h, SplitHeaders(h, cur, r), addrs, base, i, rest, r);
  }

  /** What the header writes of a split do to lengths and free marks. */
  ghost predicate SplitOf(h: Headers, h': Headers, addrs: seq<nat>, i: nat, rest: nat, r: nat)
    requires i < |addrs| && addrs[i] in h && r + HEADER <= h[addrs[i]].length
  {
    && rest in h' && h'[rest].free && h'[rest].length == h[addrs[i]].length - r - HEADER
    && addrs[i] in h' && h'[addrs[i]].length == r && h'[addrs[i]].free == h[addrs[i]].free
    && forall j :: 0 <= j < |addrs| && j != i && addrs[j] in h ==>
         addrs[j] in h' && h'[addrs[j]].length == h[addrs[j]].length && h'[addrs[j]].free == h[addrs[j]].free
  }

  lemma SplitBlocks(h: Headers, addrs: seq<nat>, base: nat, i: nat, rest: nat, r: nat)
    requires i < |addrs| && Tiles(h, addrs, base) && r + HEADER <= h[addrs[i]].length
    requires rest == addrs[i] + r + HEADER && rest !in addrs && h[addrs[i]].next in addrs
    requires Increasing(addrs)
    ensures SplitOf(h, SplitHeaders(h, addrs[i], r), addrs, i, rest, r)
  {
    forall j | 0 <= j < |addrs| && j != i ensures addrs[j] != addrs[i] {
      if j < i { assert addrs[j] < addrs[i]; } else { assert addrs[i] < addrs[j]; }
    }
  }

  lemma SplitTiles(h: Headers, h': Headers, addrs: seq<nat>, base: nat, i: nat, rest: nat, r: nat)
    requires i < |addrs| && base > 0 && Tiles(h, addrs, base) && Rounded(h, addrs) && Coalesced(h, addrs)
    requires !h[addrs[i]].free && (i + 1 < |addrs| ==> !h[addrs[i + 1]].free)
    requires r % 16 == 0 && r + HEADER <= h[addrs[i]].length
    requires rest == addrs[i] + r + HEADER && rest !in addrs && SplitOf(h, h', addrs, i, rest, r)
    requires Increasing(addrs)
    ensures var addrs' := Insert(addrs, i, rest);
            && Tiles(h', addrs', base) && Rounded(h', addrs') && Coalesced(h', addrs')
            && Live(h', addrs') == Live(h, addrs)[addrs[i] := r]
  {
    SplitJoined(h, h', addrs, base, i, rest, r);
    SplitApart(h, h', addrs, i, rest, r);
    SplitLive(h, h', addrs, i, rest, r);
  }

  lemma InsertAt(addrs: seq<nat>, i: nat, a: nat)
    requires i < |addrs|
    ensures |Insert(addrs, i, a)| == |addrs| + 1
    ensures forall j :: 0 <= j <= |addrs| ==>
              Insert(addrs, i, a)[j] == if j <= i then addrs[j] else if j == i + 1 then a else addrs[j - 1]
  {}

  lemma SplitJoined(h: Headers, h': Headers, addrs: seq<nat>, base: nat, i: nat, rest: nat, r: nat)
    requires i < |addrs| && Tiles(h, addrs, base) && Rounded(h, addrs)
    requires r % 16 == 0 && r + HEADER <= h[addrs[i]].length
    requires rest == addrs[i] + r + HEADER && SplitOf(h, h', addrs, i, rest, r)
    ensures var addrs' := Insert(addrs, i, rest); Tiles(h', addrs', base) && Rounded(h', addrs')
  {
    var addrs' := Insert(addrs, i, rest);
    InsertAt(addrs, i, rest);
    assert Joined(h, addrs, base, i);
    forall j: nat | j < |addrs'|
      ensures addrs'[j] in h' && Joined(h', addrs', base, j) && h'[addrs'[j]].length % 16 == 0
    {
      if j < i {
        assert Joined(h, addrs, base, j);
      } else if j > i + 1 {
        assert Joined(h, addrs, base, j - 1);
      }
    }
  }

  lemma SplitApart(h: Headers, h': Headers, addrs: seq<nat>, i: nat, rest: nat, r: nat)
    requires i < |addrs| && Coalesced(h, addrs) && forall j :: 0 <= j < |addrs| ==> addrs[j] in h
    requires !h[addrs[i]].free && (i + 1 < |addrs| ==> !h[addrs[i + 1]].free)
    requires r + HEADER <= h[addrs[i]].length && SplitOf(h, h', addrs, i, rest, r)
    ensures Coalesced(h', Insert(addrs, i, rest))
  {
    var addrs' := Insert(addrs, i, rest);
    InsertAt(addrs, i, rest);
    forall j: nat | j < |addrs'| ensures Apart(h', addrs', j) {
      if j < i {
        assert Apart(h, addrs, j);
      } else if j > i + 1 {
        assert Apart(h, addrs, j - 1);
      }
    }
  }

  lemma SplitLive(h: Headers, h': Headers, addrs: seq<nat>, i: nat, rest: nat, r: nat)
    requires i < |addrs| && addrs[i] in h && r + HEADER <= h[addrs[i]].length && !h[addrs[i]].free
    requires forall j :: 0 <= j < |addrs| ==> addrs[j] in h
    requires rest !in addrs && SplitOf(h, h', addrs, i, rest, r)
    ensures Live(h', Insert(addrs, i, rest)) == Live(h, addrs)[addrs[i] := r]
  {
    var addrs' := Insert(addrs, i, rest);
    forall a ensures a in addrs' <==> a in addrs || a == rest {
      if a in addrs {
        var j: nat :| j < |addrs| && addrs[j] == a;
        assert addrs'[if j <= i then j else j + 1] == a;
      }
      if a == rest { assert addrs'[i + 1] == a; }
    }
  }

  /** What the header writes of a split do to the links. */
  ghost predicate SplitLinks(h: Headers, h': Headers, cur: nat, rest: nat)
    requires cur in h
  {
    && rest in h' && h'[rest].next == h[cur].next && h'[rest].prev == cur
    && forall a :: a in h && a != rest ==>
         && a in h' && h'[a].next == (if a == cur then rest else h[a].next)
         && h'[a].prev == (if a == h[cur].next then rest else h[a].prev)
  }

  lemma SplitLinksHold(h: Headers, cur: nat, r: nat)
    requires cur in h && h[cur].next in h && r + HEADER <= h[cur].length && h[cur].next != cur + r + HEADER
    ensures SplitLinks(h, SplitHeaders(h, cur, r), cur, cur + r + HEADER)
  {}

  lemma SplitRing(h: Headers, addrs: seq<nat>, i: nat, rest: nat, r: nat)
    requires i < |addrs| && Ring(h, addrs) && addrs[i] in h && r + HEADER <= h[addrs[i]].length
    requires rest == addrs[i] + r + HEADER && rest !in addrs && Increasing(addrs)
    ensures h[addrs[i]].next in h
    ensures Ring(SplitHeaders(h, addrs[i], r), Insert(addrs, i, rest))
  {
    assert Linked(h, addrs, i);
    SplitLinksHold(h, addrs[i], r);
    InsertAt(addrs, i, rest);
    hide SplitHeaders, SplitLinks, Increasing, Insert;
    var h', addrs' := SplitHeaders(h, addrs[i], r), Insert(addrs, i, rest);
    forall j: nat | j < |addrs'| ensures Linked(h', addrs', j) {
      if j != i + 1 { assert Linked(h, addrs, if j <= i then j else j - 1); }
      SplitLinked(h, h', addrs, i, rest, j);
    }
  }

  lemma SplitLinked(h: Headers, h': Headers, addrs: seq<nat>, i: nat, rest: nat, j: nat)
    requires i < |addrs| && Linked(h, addrs, i) && SplitLinks(h, h', addrs[i], rest)
    requires j <= |addrs| && Linked(h, addrs, if j <= i then j else j - 1)
    requires rest !in addrs && Increasing(addrs)
    ensures j < |Insert(addrs, i, rest)| && Linked(h', Insert(addrs, i, rest), j)
  {
    hide Increasing, Insert, SplitLinks;
    var n := |addrs|;
    InsertIs(addrs, i, rest, j);
    InsertIs(addrs, i, rest, Succ(j, n + 1));
    RestLinks(h, h', addrs[i], rest);
    if j != i + 1 {
      var k := if j <= i then j else j - 1;
      OnePlace(addrs, k, i);
      OnePlace(addrs, Succ(k, n), Succ(i, n));
      OldLinks(h, h', addrs[i], rest, addrs[k]);
      OldLinks(h, h', addrs[i], rest, addrs[Succ(k, n)]);
    } else {
      OldLinks(h, h', addrs[i], rest, addrs[Succ(i, n)]);
    }
  }

  lemma InsertIs(addrs: seq<nat>, i: nat, a: nat, j: nat)
    requires i < |addrs| && j <= |addrs|
    ensures |Insert(addrs, i, a)| == |addrs| + 1
    ensures Insert(addrs, i, a)[j] == if j <= i then addrs[j] else if j == i + 1 then a else addrs[j - 1]
  {}

  lemma RestLinks(h: Headers, h': Headers, cur: nat, rest: nat)
    requires cur in h && SplitLinks(h, h', cur, rest)
    ensures rest in h' && h'[rest].next == h[cur].next && h'[rest].prev == cur
  {}

  lemma OldLinks(h: Headers, h': Headers, cur: nat, rest: nat, a: nat)
    requires cur in h && SplitLinks(h, h', cur, rest) && a in h && a != rest
    ensures a in h' && h'[a].next == (if a == cur then rest else h[a].next)
    ensures h'[a].prev == if a == h[cur].next then rest else h[a].prev
  {}

  /** The header writes of a merge: the block at a swallows the next one. */
  function MergeHeaders(h: Headers, a: nat): Headers
    requires a in h && h[a].next in h && h[h[a].next].next in h
  {
    var b := h[a].next;
    var h := h[a := h[a].(length := h[a].length + h[b].length + HEADER)];
    var h := h[a := h[a].(next := h[b].next)];
    h[h[b].next := h[h[b].next].(prev := a)]
  }

  lemma RemoveAt(addrs: seq<nat>, i: nat)
    requires i < |addrs|
    ensures |Remove(addrs, i)| == |addrs| - 1
    ensures forall j :: 0 <= j < |addrs| - 1 ==> Remove(addrs, i)[j] == if j < i then addrs[j] else addrs[j + 1]
  {}

  /** Merging two free neighbours keeps the arena's shape and the live blocks. */
  lemma MergeReady(h: Headers, addrs: seq<nat>, base: nat, i: nat)
    requires i + 1 < |addrs| && Tiles(h, addrs, base) && Ring(h, addrs) && Rounded(h, addrs)
    requires h[addrs[i]].free && h[addrs[i + 1]].free
    ensures h[addrs[i]].next == addrs[i + 1] && h[addrs[i + 1]].next in h
    ensures var h', addrs' := MergeHeaders(h, addrs[i]), Remove(addrs, i + 1);
            && Tiles(h', addrs', base) && Ring(h', addrs') && Rounded(h', addrs')
            && Live(h', addrs') == Live(h, addrs)
            && addrs'[i] == addrs[i] && h'[addrs[i]].free
            && |addrs'| == |addrs| - 1
            && (forall j: nat :: j < i && Apart(h, addrs, j) ==> Apart(h', addrs', j))
            && (forall j: nat :: i < j < |addrs| && Apart(h, addrs, j) ==> Apart(h', addrs', j - 1))
  {
    assert Linked(h, addrs, i) && Linked(h, addrs, i + 1);
    Distinct(h, addrs, base);
    var h', addrs' := MergeHeaders(h, addrs[i]), Remove(addrs, i + 1);
    RemoveAt(addrs, i + 1);
    MergeBlocks(h, addrs, i);
    MergeTiles(h, h', addrs, base, i);
    MergeApart(h, h', addrs, i);
    MergeLive(h, h', addrs, base, i);
    MergeRing(h, addrs, i);
  }

  /** What the header writes of a merge do to lengths and free marks. */
  ghost predicate MergeOf(h: Headers, h': Headers, addrs: seq<nat>, i: nat)
    requires i + 1 < |addrs| && forall j :: 0 <= j < |addrs| ==> addrs[j] in h
  {
    forall j :: 0 <= j < |addrs| ==>
      && addrs[j] in h' && h'[addrs[j]].free == h[addrs[j]].free
      && h'[addrs[j]].length == h[addrs[j]].length + if j == i then h[addrs[i + 1]].length + HEADER else 0
  }

  lemma MergeBlocks(h: Headers, addrs: seq<nat>, i: nat)
    requires i + 1 < |addrs| && Ring(h, addrs) && forall j :: 0 <= j < |addrs| ==> addrs[j] in h
    requires Increasing(addrs)
    ensures h[addrs[i]].next == addrs[i + 1] && h[addrs[i + 1]].next in h
    ensures MergeOf(h, MergeHeaders(h, addrs[i]), addrs, i)
  {
    assert Linked(h, addrs, i) && Linked(h, addrs, i + 1);
    forall j | 0 <= j < |addrs| && j != i ensures addrs[j] != addrs[i] {
      if j < i { assert addrs[j] < addrs[i]; } else { assert addrs[i] < addrs[j]; }
    }
  }

  lemma MergeTiles(h: Headers, h': Headers, addrs: seq<nat>, base: nat, i: nat)
    requires i + 1 < |addrs| && Tiles(h, addrs, base) && Rounded(h, addrs) && MergeOf(h, h', addrs, i)
    ensures var addrs' := Remove(addrs, i + 1); Tiles(h', addrs', base) && Rounded(h', addrs')
  {
    var addrs' := Remove(addrs, i + 1);
    RemoveAt(addrs, i + 1);
    hide Joined, MergeOf;
    forall j: nat | j < |addrs'|
      ensures addrs'[j] in h' && Joined(h', addrs', base, j) && h'[addrs'[j]].length % 16 == 0
    {
      assert Joined(h, addrs, base, j) && Joined(h, addrs, base, j + 1);
      MergeJoined(h, h', addrs, base, i, j);
    }
  }

  lemma MergeJoined(h: Headers, h': Headers, addrs: seq<nat>, base: nat, i: nat, j: nat)
    requires i + 1 < |addrs| && j + 1 < |addrs| && Rounded(h, addrs) && MergeOf(h, h', addrs, i)
    requires Joined(h, addrs, base, j) && Joined(h, addrs, base, j + 1)
    ensures var addrs' := Remove(addrs, i + 1);
            && j < |addrs'| && addrs'[j] in h' && Joined(h', addrs', base, j)
            && h'[addrs'[j]].length % 16 == 0
  {
    RemoveAt(addrs, i + 1);
    var k := if j <= i then j else j + 1;
    assert Remove(addrs, i + 1)[j] == addrs[k] && h[addrs[k]].length % 16 == 0;
  }

  lemma MergeApart(h: Headers, h': Headers, addrs: seq<nat>, i: nat)
    requires i + 1 < |addrs| && (forall j :: 0 <= j < |addrs| ==> addrs[j] in h) && MergeOf(h, h', addrs, i)
    requires h[addrs[i]].free && h[addrs[i + 1]].free
    ensures forall j: nat :: j < i && Apart(h, addrs, j) ==> Apart(h', Remove(addrs, i + 1), j)
    ensures forall j: nat :: i < j < |addrs| && Apart(h, addrs, j) ==> Apart(h', Remove(addrs, i + 1), j - 1)
  {
    RemoveAt(addrs, i + 1);
  }

  lemma MergeLive(h: Headers, h': Headers, addrs: seq<nat>, base: nat, i: nat)
    requires i + 1 < |addrs| && Tiles(h, addrs, base) && MergeOf(h, h', addrs, i)
    requires h[addrs[i]].free && h[addrs[i + 1]].free
    ensures Live(h', Remove(addrs, i + 1)) == Live(h, addrs)
  {
    Distinct(h, addrs, base);
    forall a ensures a in Remove(addrs, i + 1) <==> a in addrs && a != addrs[i + 1] { RemoveMember(addrs, i + 1, a); }
  }

  lemma RemoveMember(addrs: seq<nat>, i: nat, a: nat)
    requires i < |addrs| && Increasing(addrs)
    ensures a in Remove(addrs, i) <==> a in addrs && a != addrs[i]
  {
    hide Increasing;
    RemoveAt(addrs, i);
    var addrs' := Remove(addrs, i);
    if a in addrs && a != addrs[i] {
      var j: nat :| j < |addrs| && addrs[j] == a;
      assert addrs'[if j < i then j else j - 1] == a;
    }
    if a in addrs' {
      var j: nat :| j < |addrs'| && addrs'[j] == a;
      OnePlace(addrs, if j < i then j else j + 1, i);
    }
  }

  /** What the header writes of a merge do to the links. */
  ghost predicate MergeLinks(h: Headers, h': Headers, a: nat)
    requires a in h && h[a].next in h
  {
    forall c :: c in h ==>
      && c in h' && h'[c].next == (if c == a then h[h[a].next].next else h[c].next)
      && h'[c].prev == (if c == h[h[a].next].next then a else h[c].prev)
  }

  lemma MergeLinksHold(h: Headers, a: nat)
    requires a in h && h[a].next in h && h[h[a].next].next in h && h[a].next != a
    ensures MergeLinks(h, MergeHeaders(h, a), a)
  {}

  lemma MergeRing(h: Headers, addrs: seq<nat>, i: nat)
    requires i + 1 < |addrs| && Ring(h, addrs) && forall j :: 0 <= j < |addrs| ==> addrs[j] in h
    requires Increasing(addrs)
    ensures h[addrs[i]].next == addrs[i + 1] && h[addrs[i + 1]].next in h
    ensures Ring(MergeHeaders(h, addrs[i]), Remove(addrs, i + 1))
  {
    assert Linked(h, addrs, i) && Linked(h, addrs, i + 1);
    MergeLinksHold(h, addrs[i]);
    RemoveAt(addrs, i + 1);
    hide MergeHeaders, MergeLinks, Increasing, Remove;
    var h', addrs' := MergeHeaders(h, addrs[i]), Remove(addrs, i + 1);
    forall j: nat | j < |addrs'| ensures Linked(h', addrs', j) {
      assert Linked(h, addrs, if j <= i then j else j + 1);
      MergeLinked(h, h', addrs, i, j);
    }
  }

  lemma MergeLinked(h: Headers, h': Headers, addrs: seq<nat>, i: nat, j: nat)
    requires i + 1 < |addrs| && j < |addrs| - 1 && Linked(h, addrs, i) && Linked(h, addrs, i + 1)
    requires MergeLinks(h, h', addrs[i]) && Linked(h, addrs, if j <= i then j else j + 1) && Increasing(addrs)
    ensures j < |Remove(addrs, i + 1)| && Linked(h', Remove(addrs, i + 1), j)
  {
    hide Increasing, Remove, MergeLinks;
    var n := |addrs|;
    var k := if j <= i then j else j + 1;
    RemoveIs(addrs, i + 1, j);
    RemoveIs(addrs, i + 1, Succ(j, n - 1));
    OnePlace(addrs, k, i);
    OnePlace(addrs, Succ(k, n), Succ(i + 1, n));
    KeptLinks(h, h', addrs[i], addrs[k]);
    if j != i {
      KeptLinks(h, h', addrs[i], addrs[Succ(k, n)]);
    } else {
      KeptLinks(h, h', addrs[i], addrs[Succ(i + 1, n)]);
    }
  }

  lemma RemoveIs(addrs: seq<nat>, i: nat, j: nat)
    requires i < |addrs| && j < |addrs| - 1
    ensures |Remove(addrs, i)| == |addrs| - 1 && Remove(addrs, i)[j] == addrs[if j < i then j else j + 1]
  {}

  lemma KeptLinks(h: Headers, h': Headers, a: nat, c: nat)
    requires a in h && h[a].next in h && MergeLinks(h, h', a) && c in h
    ensures c in h' && h'[c].next == if c == a then h[h[a].next].next else h[c].next
    ensures h'[c].prev == if c == h[h[a].next].next then a else h[c].prev
  {}

  lemma Distinct(h: Headers, addrs: seq<nat>, base: nat)
    requires Tiles(h, addrs, base)
    ensures Increasing(addrs)
  {
    forall i, j | 0 <= i < j < |addrs| ensures addrs[i] < addrs[j] { Ascending(h, addrs, base, i, j); }
  }

  /** No header lies strictly inside block i. */
  lemma NotInside(h: Headers, addrs: seq<nat>, base: nat, i: nat, a: nat)
    requires Tiles(h, addrs, base) && i < |addrs|
    requires addrs[i] < a < addrs[i] + HEADER + h[addrs[i]].length
    ensures a !in addrs
  {
    forall j | 0 <= j < |addrs| ensures addrs[j] != a {
      if j < i { Ascending(h, addrs, base, j, i); }
      if i < j { Ascending(h, addrs, base, i, j); }
    }
  }

  lemma LinksNotNull(h: Headers, addrs: seq<nat>, base: nat, a: nat)
    requires Ready(h, addrs, base) && a in addrs
    ensures a in h && h[a].prev > 0 && h[a].next in addrs && h[a].prev in addrs
  {
    var i: nat :| i < |addrs| && addrs[i] == a;
    assert Linked(h, addrs, i);
    var p := if i == 0 then |addrs| - 1 else i - 1;
    assert Linked(h, addrs, p);
    InArena(h, addrs, base, p);
  }

  /** The k-th block after the one at position start, around a ring of n. */
  function Around(start: nat, k: nat, n: nat): (i: nat)
    requires start < n && k < n
    ensures i < n
  {
    if start + k < n then start + k else start + k - n
  }

  /** Setting the free mark of a block does not change the shape of the arena. */
  lemma MarkShape(h: Headers, addrs: seq<nat>, base: nat, i: nat, free: bool)
    requires i < |addrs| && Tiles(h, addrs, base) && Ring(h, addrs) && Rounded(h, addrs)
    ensures var h' := h[addrs[i] := h[addrs[i]].(free := free)];
            && Tiles(h', addrs, base) && Ring(h', addrs) && Rounded(h', addrs)
            && Live(h', addrs) == (if free then Live(h, addrs) - {addrs[i]}
                                   else Live(h, addrs)[addrs[i] := h[addrs[i]].length])
            && (forall j: nat :: j < |addrs| && j != i && j + 1 != i && Apart(h, addrs, j) ==> Apart(h', addrs, j))
            && (!free ==> forall j: nat :: j < |addrs| && Apart(h, addrs, j) ==> Apart(h', addrs, j))
  {
    Distinct(h, addrs, base);
    var h' := h[addrs[i] := h[addrs[i]].(free := free)];
    forall j: nat | j < |addrs| ensures Joined(h', addrs, base, j) && Linked(h', addrs, j) {
      assert Joined(h, addrs, base, j) && Linked(h, addrs, j);
    }
    forall j: nat | j < |addrs| && j != i ensures addrs[j] != addrs[i] {
      if j < i { assert addrs[j] < addrs[i]; } else { assert addrs[i] < addrs[j]; }
    }
  }

  // ----- headers and payloads

  ghost function HeadsOf(addrs: seq<nat>): set<nat> { set a | a in addrs }

  lemma HeadsSeparate(h: Headers, addrs: seq<nat>, base: nat)
    requires Tiles(h, addrs, base)
    ensures Separate(HeadsOf(addrs))
  {
    forall a, b | a in addrs && b in addrs && a != b ensures a + HEADER <= b || b + HEADER <= a {
      BlocksDisjoint(h, addrs, base, a, b);
    }
  }

  /** No header of any block reaches into the payload of a block. */
  lemma PayloadOutside(h: Headers, addrs: seq<nat>, base: nat, a: nat, k: nat)
    requires Tiles(h, addrs, base) && a in addrs && a + HEADER <= k < a + HEADER + h[a].length
    ensures Outside(HeadsOf(addrs), k)
  {
    forall b | b in addrs ensures !(b <= k < b + HEADER) {
      if a != b { BlocksDisjoint(h, addrs, base, a, b); }
    }
  }

  /** Header writes change no payload. */
  lemma PayloadKept(h: Headers, addrs: seq<nat>, base: nat, m: seq<byte>, m': seq<byte>, a: nat)
    requires Tiles(h, addrs, base) && a in addrs && OnlyHeaders(m, m', HeadsOf(addrs))
    requires a + HEADER + h[a].length <= |m|
    ensures m'[a + HEADER..a + HEADER + h[a].length] == m[a + HEADER..a + HEADER + h[a].length]
  {
    forall k: nat | a + HEADER <= k < a + HEADER + h[a].length ensures m'[k] == m[k] {
      PayloadOutside(h, addrs, base, a, k);
    }
  }

  /** Whatever is written into payloads, all headers stay in memory. */
  lemma PayloadWrites(h: Headers, addrs: seq<nat>, base: nat, m: seq<byte>, m': seq<byte>)
    requires Tiles(h, addrs, base) && InMemory(m, h, HeadsOf(addrs)) && |m'| == |m|
    requires forall k: nat :: k < |m| && m'[k] != m[k] ==>
               exists a :: a in addrs && a + HEADER <= k < a + HEADER + h[a].length
    ensures InMemory(m', h, HeadsOf(addrs))
  {
    forall k: nat | k < |m| && !Outside(HeadsOf(addrs), k) ensures m'[k] == m[k] {
      if m'[k] != m[k] {
        var a :| a in addrs && a + HEADER <= k < a + HEADER + h[a].length;
        PayloadOutside(h, addrs, base, a, k);
      }
    }
    OutsideKeeps(m, m', h, HeadsOf(addrs));
  }

  /** A header written into the payload of block i overlaps no other one. */
  lemma InsideSeparate(h: Headers, addrs: seq<nat>, base: nat, i: nat, next: nat)
    requires Tiles(h, addrs, base) && i < |addrs|
    requires addrs[i] + HEADER <= next && next + HEADER <= addrs[i] + HEADER + h[addrs[i]].length
    ensures next !in HeadsOf(addrs) && Separate(HeadsOf(addrs) + {next})
  {
    HeadsSeparate(h, addrs, base);
    NotInside(h, addrs, base, i, next);
    forall b | b in addrs ensures b + HEADER <= next || next + HEADER <= b {
      if b != addrs[i] { BlocksDisjoint(h, addrs, base, addrs[i], b); }
    }
  }

  lemma SplitHeads(addrs: seq<nat>, i: nat, next: nat)
    requires i < |addrs|
    ensures HeadsOf(Insert(addrs, i, next)) == HeadsOf(addrs) + {next}
  {
    InsertAt(addrs, i, next);
    var addrs' := Insert(addrs, i, next);
    forall a | a in addrs ensures a in addrs' {
      var j: nat :| j < |addrs| && addrs[j] == a;
      assert addrs'[if j <= i then j else j + 1] == a;
    }
    assert addrs'[i + 1] == next;
    forall a | a in addrs' ensures a in addrs || a == next {
      var j: nat :| j < |addrs'| && addrs'[j] == a;
    }
  }

  /** n bytes from a on, where they are inside. */
  function Slice(m: seq<byte>, a: nat, n: nat): seq<byte> {
    if a + n <= |m| then m[a..a + n] else []
  }

  // ----- the allocator

  class Heap {
    const base: nat
    var lastUsed: nat
    /** Memory, indexed by address; it holds the headers as well as the payloads. */
    const memory: array<byte>
    /** The headers that memory holds, by address. */
    ghost var hdr: Headers
    /** Addresses of the blocks in the arena, in order. */
    ghost var addrs: seq<nat>

    /** Before its first use the allocator has one zeroed header. */
    ghost predicate Untouched()
      reads this
    {
      hdr == map[base := Header(0, 0, 0, false)] && lastUsed == base && addrs == []
    }

    /** These headers are in memory. */
    ghost predicate Intact(heads: set<nat>)
      reads this`hdr, memory
    {
      memory.Length <= WORD && InMemory(memory[..], hdr, heads) && Separate(heads)
    }

    ghost predicate Valid()
      reads this, memory
    {
      && base > 0 && base + HEADER + RESERVE <= memory.Length
      && (if addrs == [] then Untouched() && Intact({base})
          else Ready(hdr, addrs, base) && lastUsed in addrs && Intact(HeadsOf(addrs)))
    }

    /** The blocks in use. */
    ghost function Blocks(): map<nat, nat>
      reads this
    {
      Live(hdr, addrs)
    }

    ghost predicate Fits(a: nat, size: nat)
      reads this
    {
      a in hdr && hdr[a].free && hdr[a].length >= size
    }

    /** Some free block is large enough. */
    ghost predicate HasRoom(size: nat)
      reads this
    {
      if addrs == [] then size <= RESERVE else exists i: nat :: i < |addrs| && Fits(addrs[i], size)
    }

    /** n bytes of memory, where they are inside it. */
    ghost function Bytes(a: nat, n: nat): seq<byte>
      reads memory
    {
      Slice(memory[..], a, n)
    }

    constructor (base: nat, memory: array<byte>)
      requires base > 0 && base + HEADER + RESERVE <= memory.Length <= WORD
      requires forall k :: base <= k < base + HEADER ==> memory[k] == 0
      ensures Valid() && Blocks() == map[] && this.memory == memory
    {
      this.base, this.memory := base, memory;
      hdr, lastUsed, addrs := map[base := Header(0, 0, 0, false)], base, [];
      new;
      ZeroHeader(memory[..], base);
    }

    // ----- fields of headers

    /** A field of the header at a. */
    function Load(a: nat, f: Field): nat
      requires a + HEADER <= memory.Length
      reads memory
    {
      WordAt(memory[..], a, f)
    }

    lemma LoadIs(heads: set<nat>, a: nat)
      requires Intact(heads) && a in heads
      ensures a in hdr && a + HEADER <= memory.Length
      ensures forall f: Field :: Load(a, f) == hdr[a].Word(f) < WORD
    {
      hide Value;
      WordRange();
      forall f: Field ensures Load(a, f) < WORD {
        ValueBound(memory[..][a + f.Offset()..a + f.Offset() + 8]);
      }
    }

    /** A 64-bit store. */
    method WriteWord(at: nat, v: nat)
      requires at + 8 <= memory.Length
      modifies memory
      ensures memory[..] == Splice(old(memory[..]), at, Digits(v, 8))
    {
      var d := Digits(v, 8);
      forall k | 0 <= k < 8 { memory[at + k] := d[k]; }
    }

    /** A store to a field of a header. */
    method Store(a: nat, f: Field, v: nat, ghost heads: set<nat>)
      requires Intact(heads) && a in heads && v < WORD && (f == Field.Free ==> v <= 1)
      modifies this`hdr, memory
      ensures Intact(heads) && a in old(hdr) && hdr == old(hdr)[a := old(hdr)[a].With(f, v)]
      ensures OnlyHeaders(old(memory[..]), memory[..], heads)
    {
      hide Holds, Digits;
      StoreKeeps(memory[..], hdr, heads, a, f, v);
      WriteWord(a + f.Offset(), v);
      hdr := hdr[a := hdr[a].With(f, v)];
    }

    // ----- malloc

    /** The first call makes the arena one free block. */
    method Touch()
      requires Valid()
      modifies this`hdr, this`addrs, memory
      ensures Valid() && addrs != [] && Blocks() == old(Blocks())
      ensures old(addrs) != [] ==> hdr == old(hdr) && addrs == old(addrs) && memory[..] == old(memory[..])
      ensures forall size: nat :: old(HasRoom(size)) ==> HasRoom(size)
    {
      hide Holds, Load, Separate;
      var cur := lastUsed;
      ghost var heads := if addrs == [] then {base} else HeadsOf(addrs);
      LoadIs(heads, cur);
      if addrs != [] { LinksNotNull(hdr, addrs, base, cur); }
      if Load(cur, Prev) == 0 {
        Store(cur, Next, cur, heads);
        Store(cur, Prev, cur, heads);
        Store(cur, Length, RESERVE, heads);
        Store(cur, Field.Free, 1, heads);
        addrs := [cur];
        OneBlock(hdr, base);
        assert forall size: nat :: size <= RESERVE ==> Fits(addrs[0], size);
      }
    }

    /** Walk the ring from the last used block to the first free one that is
        large enough; if there is any, less than one lap suffices. */
    method FindFit(size: nat) returns (cur: nat, ghost i: nat)
      requires Valid() && addrs != [] && HasRoom(size)
      ensures i < |addrs| && cur == addrs[i] && Fits(cur, size)
      ensures exists start: nat, k: nat ::
                && start < |addrs| && k < |addrs| && addrs[start] == lastUsed && i == Around(start, k, |addrs|)
                && forall j: nat :: j < k ==> !Fits(addrs[Around(start, j, |addrs|)], size)
    {
      hide Load, InMemory, Separate, Tiles, Rounded, Coalesced;
      cur := lastUsed;
      ghost var n := |addrs|;
      ghost var target: nat :| target < n && Fits(addrs[target], size);
      ghost var start: nat :| start < n && addrs[start] == lastUsed;
      ghost var k: nat := 0;
      LoadIs(HeadsOf(addrs), cur);
      while Load(cur, Field.Free) == 0 || Load(cur, Length) < size
        invariant k < n && cur == addrs[Around(start, k, n)] && cur in hdr && cur + HEADER <= memory.Length
        invariant forall f: Field :: Load(cur, f) == hdr[cur].Word(f)
        invariant forall j: nat :: j < k ==> !Fits(addrs[Around(start, j, n)], size)
        decreases n - k
      {
        assert Linked(hdr, addrs, Around(start, k, n));
        ghost var lap := if target >= start then target - start else target + n - start;
        assert Around(start, lap, n) == target;
        cur := Load(cur, Next);
        k := k + 1;
        assert cur == addrs[Around(start, k, n)];
        LoadIs(HeadsOf(addrs), cur);
      }
      i := Around(start, k, n);
    }

    /** The free mark of a new header; its other fields hold what was there. */
    method Sprout(next: nat, ghost heads: set<nat>)
      requires Intact(heads) && next !in heads && Separate(heads + {next}) && next + HEADER <= memory.Length
      modifies this`hdr, memory
      ensures next in hdr && hdr[next].free && hdr == old(hdr)[next := hdr[next]]
      ensures Intact(heads + {next})
      ensures OnlyHeaders(old(memory[..]), memory[..], heads + {next})
    {
      hide InMemory, Separate, OnlyHeaders, HeaderAt;
      NewHeader(memory[..], hdr, heads, next);
      WriteWord(next + Field.Free.Offset(), 1);
      hdr := hdr[next := HeaderAt(memory[..], next)];
    }

    /** The header of the rest of block cur, which starts at next, and the shorter
        length of block cur. */
    method Carve(cur: nat, next: nat, ghost heads: set<nat>)
      requires Intact(heads) && cur in heads
      requires cur in hdr && cur + HEADER <= next && next <= cur + hdr[cur].length && next + HEADER <= memory.Length
      requires next !in heads && Separate(heads + {next})
      modifies this`hdr, memory
      ensures hdr == CarveHeaders(old(hdr), cur, next - cur - HEADER)
      ensures Intact(heads + {next})
      ensures OnlyHeaders(old(memory[..]), memory[..], heads + {next})
    {
      hide InMemory, Separate, OnlyHeaders, Load, HeaderAt;
      ghost var h, m, all := hdr, memory[..], heads + {next};
      Sprout(next, heads);
      LoadIs(all, cur);
      StoreNext(next, Length, Load(cur, Length) - (next - cur), all, m);
      StoreNext(cur, Length, next - cur - HEADER, all, m);
      StoreNext(next, Prev, cur, all, m);
      LoadIs(all, cur);
      StoreNext(next, Next, Load(cur, Next), all, m);
    }

    /** Put the block at next into the ring, behind block cur. */
    method Link(cur: nat, next: nat, ghost heads: set<nat>)
      requires Intact(heads) && cur in heads && next in heads && cur != next
      requires cur in hdr && next in hdr && hdr[next].prev == cur && hdr[next].next in heads && hdr[next].next != next
      modifies this`hdr, memory
      ensures old(hdr)[next].next in old(hdr)
      ensures hdr == LinkHeaders(old(hdr), cur, next)
      ensures Intact(heads)
      ensures OnlyHeaders(old(memory[..]), memory[..], heads)
    {
      hide InMemory, Separate, OnlyHeaders, Load;
      ghost var m := memory[..];
      LinksIntact(heads, next);
      LoadIs(heads, next);
      Store(Load(next, Next), Prev, next, heads);
      LoadIs(heads, next);
      StoreNext(Load(next, Prev), Next, next, heads, m);
    }

    /** The stores that make the rest of block cur a free block at next. */
    method SplitBlock(cur: nat, next: nat, ghost heads: set<nat>)
      requires Intact(heads) && cur in heads && cur in hdr && hdr[cur].next in heads
      requires cur + HEADER <= next && next <= cur + hdr[cur].length && next + HEADER <= memory.Length
      requires next !in heads && Separate(heads + {next})
      modifies this`hdr, memory
      ensures old(hdr)[cur].next in old(hdr)
      ensures hdr == SplitHeaders(old(hdr), cur, next - cur - HEADER)
      ensures Intact(heads + {next})
      ensures OnlyHeaders(old(memory[..]), memory[..], heads + {next})
    {
      hide InMemory, Separate, OnlyHeaders;
      LinksIntact(heads, cur);
      Carve(cur, next, heads);
      ghost var m := memory[..];
      Link(cur, next, heads + {next});
      OnlyHeadersTrans(old(memory[..]), m, memory[..], heads + {next});
    }

    lemma LinksIntact(heads: set<nat>, a: nat)
      requires Intact(heads) && a in heads
      ensures a in hdr && (hdr[a].next in heads ==> hdr[a].next in hdr) && (hdr[a].prev in heads ==> hdr[a].prev in hdr)
    {}

    /** One more store to a header, counted from an earlier state of memory. */
    method StoreNext(a: nat, f: Field, v: nat, ghost heads: set<nat>, ghost m: seq<byte>)
      requires Intact(heads) && a in heads && v < WORD && (f == Field.Free ==> v <= 1)
      requires OnlyHeaders(m, memory[..], heads)
      modifies this`hdr, memory
      ensures Intact(heads) && a in old(hdr) && hdr == old(hdr)[a := old(hdr)[a].With(f, v)]
      ensures OnlyHeaders(m, memory[..], heads)
    {
      hide InMemory, Separate, OnlyHeaders;
      ghost var m' := memory[..];
      Store(a, f, v, heads);
      OnlyHeadersTrans(m, m', memory[..], heads);
    }

    /** Take block i, and split off what is left of it. */
    method Take(cur: nat, ghost i: nat, size: nat)
      requires Valid() && i < |addrs| && addrs[i] == cur && Fits(cur, size)
      modifies this`hdr, this`lastUsed, this`addrs, memory
      ensures Valid() && addrs != [] && cur !in old(Blocks())
      ensures cur in Blocks() && size <= Blocks()[cur] < size + HEADER
      ensures Blocks() == old(Blocks())[cur := Blocks()[cur]]
      ensures OnlyHeaders(old(memory[..]), memory[..], HeadsOf(addrs))
    {
      hide Ready, Live, InMemory, Separate, OnlyHeaders, Load, RoundUp, SplitHeaders;
      ghost var heads := HeadsOf(addrs);
      TakeReady(hdr, addrs, base, i, size);
      LinksNotNull(hdr, addrs, base, cur);
      BlockInside(hdr, addrs, base, i, size);
      var next := cur + RoundUp(size) + HEADER;
      Store(cur, Field.Free, 0, heads);
      LoadIs(heads, cur);
      if Load(cur, Length) >= size + HEADER {
        ghost var m := memory[..];
        SplitBlock(cur, next, heads);
        SplitHeads(addrs, i, next);
        OnlyHeadersMore(old(memory[..]), m, heads, heads + {next});
        OnlyHeadersTrans(old(memory[..]), m, memory[..], heads + {next});
        addrs := Insert(addrs, i, next);
        lastUsed := next;
      }
    }

    /** `malloc`: a new live block at least as large as requested; all other live
        blocks keep their place and their contents. */
    method Malloc(size: nat) returns (rv: nat)
      requires Valid() && HasRoom(size)
      modifies this`hdr, this`lastUsed, this`addrs, memory
      ensures Valid() && rv >= HEADER && rv - HEADER !in old(Blocks())
      ensures rv - HEADER in Blocks() && size <= Blocks()[rv - HEADER] < size + HEADER
      ensures Blocks() == old(Blocks())[rv - HEADER := Blocks()[rv - HEADER]]
      ensures forall a :: a in old(Blocks()) ==>
                Bytes(a + HEADER, old(Blocks()[a])) == old(Bytes(a + HEADER, Blocks()[a]))
    {
      hide Ready, Live, InMemory, Separate, OnlyHeaders, HeadsOf, Slice, Fits, HasRoom;
      if addrs == [] { NoneLive(hdr); }
      Touch();
      ghost var m := memory[..];
      ghost var i;
      var cur;
      cur, i := FindFit(size);
      ghost var live := Blocks();
      Take(cur, i, size);
      forall a | a in live ensures Bytes(a + HEADER, live[a]) == Slice(m, a + HEADER, live[a]) {
        LiveKept(m, a);
      }
      rv := cur + HEADER;
    }

    /** `free`: the block is no longer live, all others keep their place and their
        contents, and free neighbours are merged. */
    method Free(p: nat)
      requires Valid() && (p != 0 ==> p >= HEADER && p - HEADER in Blocks())
      modifies this`hdr, this`lastUsed, this`addrs, memory
      ensures Valid()
      ensures Blocks() == if p == 0 then old(Blocks()) else old(Blocks()) - {p - HEADER}
      ensures forall a :: a in Blocks() ==> Bytes(a + HEADER, Blocks()[a]) == old(Bytes(a + HEADER, Blocks()[a]))
    {
      if p == 0 { return; }
      hide Ready, Tiles, Ring, Rounded, Coalesced, Live, InMemory, Separate, OnlyHeaders, HeadsOf, Slice, Load, Intact;
      ghost var i := BlockIndex(p - HEADER);
      ghost var h, before, m := hdr, addrs, memory[..];
      ReleaseShape(hdr, addrs, base, i);
      Release(p - HEADER, i);
      forall a | a in Blocks() ensures Bytes(a + HEADER, Blocks()[a]) == Slice(m, a + HEADER, Blocks()[a]) {
        LiveMember(h, before, a);
        BlockKept(h, before, m, a);
      }
    }

    /** Mark a live block free and merge it with its neighbours. */
    method Release(p: nat, ghost i: nat)
      requires Valid() && i < |addrs| && addrs[i] == p && p in Blocks()
      modifies this`hdr, this`lastUsed, this`addrs, memory
      ensures Valid() && Blocks() == old(Blocks()) - {p}
      ensures OnlyHeaders(old(memory[..]), memory[..], HeadsOf(old(addrs)))
    {
      hide Ready, Tiles, Ring, Rounded, Coalesced, Live, InMemory, Separate, OnlyHeaders, HeadsOf, Load, Apart;
      var cur := p;
      ghost var heads, m := HeadsOf(addrs), memory[..];
      HeadOf(addrs, i);
      LoadIs(heads, cur);
      LiveMember(hdr, addrs, cur);
      // neither the mark of a corrupt block nor that of a free one
      assert Load(cur, Field.Free) == 0;
      ReleaseShape(hdr, addrs, base, i);
      Store(cur, Field.Free, 1, heads);
      ghost var m1 := memory[..];
      ghost var k;
      cur, k := MergePrev(cur, i);
      ghost var less, m2 := HeadsOf(addrs), memory[..];
      MergeNext(cur, k);
      lastUsed := cur;
      OnlyHeadersTrans(m, m1, m2, heads);
      OnlyHeadersMore(m2, memory[..], less, heads);
      OnlyHeadersTrans(m, m2, memory[..], heads);
    }

    lemma BlockIndex(a: nat) returns (i: nat)
      requires Valid() && a in Blocks()
      ensures i < |addrs| && addrs[i] == a && a in hdr && !hdr[a].free && Ready(hdr, addrs, base)
    {
      i :| i < |addrs| && addrs[i] == a;
    }

    /** The contents of a live block, when only headers were written. */
    lemma LiveKept(m: seq<byte>, a: nat)
      requires Valid() && addrs != [] && a in Blocks() && OnlyHeaders(m, memory[..], HeadsOf(addrs))
      ensures Bytes(a + HEADER, Blocks()[a]) == Slice(m, a + HEADER, Blocks()[a])
    {
      BlockKept(hdr, addrs, m, a);
    }

    lemma BlockKept(h: Headers, before: seq<nat>, m: seq<byte>, a: nat)
      requires Ready(h, before, base) && a in before && OnlyHeaders(m, memory[..], HeadsOf(before))
      requires a in h && base + HEADER + RESERVE <= memory.Length
      ensures Bytes(a + HEADER, h[a].length) == Slice(m, a + HEADER, h[a].length)
    {
      var i: nat :| i < |before| && before[i] == a;
      InArena(h, before, base, i);
      PayloadKept(h, before, base, m, memory[..], a);
    }

    /** The stores of a merge with the block in front. */
    method SwallowedByPrev(cur: nat, prev: nat, ghost heads: set<nat>)
      requires Intact(heads) && cur in heads && prev in heads && cur != prev
      requires cur in hdr && prev in hdr && hdr[cur].prev == prev && hdr[prev].next == cur && hdr[cur].next in heads
      requires hdr[prev].length + hdr[cur].length + HEADER < WORD
      modifies this`hdr, memory
      ensures old(hdr)[cur].next in old(hdr)
      ensures hdr == MergeHeaders(old(hdr), prev)
      ensures Intact(heads) && OnlyHeaders(old(memory[..]), memory[..], heads)
    {
      hide InMemory, Separate, OnlyHeaders, Load;
      ghost var m := memory[..];
      LinksIntact(heads, cur);
      LoadIs(heads, cur);
      LoadIs(heads, prev);
      Store(prev, Length, Load(prev, Length) + Load(cur, Length) + HEADER, heads);
      LoadIs(heads, cur);
      StoreNext(prev, Next, Load(cur, Next), heads, m);
      LoadIs(heads, cur);
      StoreNext(Load(cur, Next), Prev, Load(cur, Prev), heads, m);
    }

    /** The stores of a merge with the block behind. */
    method SwallowNext(cur: nat, ghost heads: set<nat>)
      requires Intact(heads) && cur in heads && cur in hdr
      requires hdr[cur].next in heads && hdr[cur].next != cur && hdr[cur].next in hdr &&
               hdr[hdr[cur].next].next in heads
      requires hdr[cur].length + hdr[hdr[cur].next].length + HEADER < WORD
      modifies this`hdr, memory
      ensures old(hdr)[old(hdr)[cur].next].next in old(hdr)
      ensures hdr == MergeHeaders(old(hdr), cur)
      ensures Intact(heads) && OnlyHeaders(old(memory[..]), memory[..], heads)
    {
      hide InMemory, Separate, OnlyHeaders, Load;
      ghost var m, next := memory[..], hdr[cur].next;
      LinksIntact(heads, next);
      LoadIs(heads, cur);
      LoadIs(heads, next);
      Store(cur, Length, Load(cur, Length) + Load(Load(cur, Next), Length) + HEADER, heads);
      LoadIs(heads, cur);
      LoadIs(heads, next);
      StoreNext(cur, Next, Load(Load(cur, Next), Next), heads, m);
      LoadIs(heads, cur);
      StoreNext(Load(cur, Next), Prev, cur, heads, m);
    }

    /** Let a free block in front swallow block i. */
    method MergePrev(cur: nat, ghost i: nat) returns (merged: nat, ghost k: nat)
      requires Tiles(hdr, addrs, base) && Ring(hdr, addrs) && Rounded(hdr, addrs)
      requires Intact(HeadsOf(addrs)) && base + HEADER + RESERVE <= memory.Length
      requires i < |addrs| && addrs[i] == cur && hdr[cur].free
      requires forall j: nat :: j < |addrs| && j != i && j + 1 != i ==> Apart(hdr, addrs, j)
      modifies this`hdr, this`addrs, memory
      ensures Tiles(hdr, addrs, base) && Ring(hdr, addrs) && Rounded(hdr, addrs)
      ensures k < |addrs| && addrs[k] == merged && merged in hdr && hdr[merged].free
      ensures forall j: nat :: j < |addrs| && j != k ==> Apart(hdr, addrs, j)
      ensures Live(hdr, addrs) == old(Live(hdr, addrs))
      ensures Intact(HeadsOf(addrs)) && HeadsOf(addrs) <= HeadsOf(old(addrs))
      ensures OnlyHeaders(old(memory[..]), memory[..], HeadsOf(old(addrs)))
    {
      hide Tiles, Ring, Rounded, Live, InMemory, Separate, OnlyHeaders, HeadsOf, Load;
      merged, k := cur, i;
      ghost var h, before, heads := hdr, addrs, HeadsOf(addrs);
      NeighboursIn(hdr, addrs, base, i);
      LoadIs(heads, cur);
      var prev := Load(cur, Prev);
      LoadIs(heads, prev);
      NothingWritten(memory[..], heads);
      if Load(prev, Field.Free) != 0 && prev + Load(prev, Length) + HEADER == cur {
        k := i - 1;
        MergeReady(hdr, addrs, base, k);
        SwallowedByPrev(cur, prev, heads);
        RemoveHeads(addrs, k + 1);
        IntactLess(heads, HeadsOf(Remove(addrs, k + 1)));
        addrs := Remove(addrs, k + 1);
        merged := prev;
        forall j: nat | j < |addrs| && j != k ensures Apart(hdr, addrs, j) {
          if j < k { assert Apart(h, before, j); } else { assert Apart(h, before, j + 1); }
        }
      }
    }

    /** Let block i swallow a free block behind it. */
    method MergeNext(cur: nat, ghost i: nat)
      requires base > 0 && Tiles(hdr, addrs, base) && Ring(hdr, addrs) && Rounded(hdr, addrs)
      requires Intact(HeadsOf(addrs)) && base + HEADER + RESERVE <= memory.Length
      requires i < |addrs| && addrs[i] == cur && cur in hdr && hdr[cur].free
      requires forall j: nat :: j < |addrs| && j != i ==> Apart(hdr, addrs, j)
      modifies this`hdr, this`addrs, memory
      ensures Ready(hdr, addrs, base) && cur in addrs
      ensures Live(hdr, addrs) == old(Live(hdr, addrs))
      ensures Intact(HeadsOf(addrs)) && HeadsOf(addrs) <= HeadsOf(old(addrs))
      ensures OnlyHeaders(old(memory[..]), memory[..], HeadsOf(old(addrs)))
    {
      hide Tiles, Ring, Rounded, Live, InMemory, Separate, OnlyHeaders, HeadsOf, Load;
      ghost var h, before, heads := hdr, addrs, HeadsOf(addrs);
      NeighboursIn(hdr, addrs, base, i);
      LoadIs(heads, cur);
      var next := Load(cur, Next);
      LoadIs(heads, next);
      NothingWritten(memory[..], heads);
      if Load(next, Field.Free) != 0 && cur + Load(cur, Length) + HEADER == next {
        NeighboursIn(hdr, addrs, base, i + 1);
        MergeReady(hdr, addrs, base, i);
        SwallowNext(cur, heads);
        RemoveHeads(addrs, i + 1);
        IntactLess(heads, HeadsOf(Remove(addrs, i + 1)));
        addrs := Remove(addrs, i + 1);
        forall j: nat | j < |addrs| ensures Apart(hdr, addrs, j) {
          if j < i { assert Apart(h, before, j); } else if j + 1 < |before| { assert Apart(h, before, j + 1); }
        }
      }
      assert addrs[i] == cur;
    }

    lemma IntactLess(heads: set<nat>, less: set<nat>)
      requires Intact(heads) && less <= heads
      ensures Intact(less)
    {}

    // ----- realloc

    /** `realloc`: the first min(old length, new size) bytes are kept, and the
        contents of every other live block too. */
    method Realloc(p: nat, size: nat) returns (newp: nat)
      requires Valid() && (p != 0 ==> p >= HEADER && p - HEADER in Blocks())
      requires p == 0 || Blocks()[p - HEADER] <= size ==> HasRoom(size)
      modifies this`hdr, this`lastUsed, this`addrs, memory
      ensures Valid()
      ensures newp >= HEADER && newp - HEADER in Blocks() && size <= Blocks()[newp - HEADER]
      ensures Blocks() ==
              (if p == 0 then old(Blocks()) else old(Blocks()) - {p - HEADER})[newp - HEADER := Blocks()[newp - HEADER]]
      ensures p != 0 ==>
                var n := if old(Blocks()[p - HEADER]) < size then old(Blocks()[p - HEADER]) else size;
                Bytes(newp, n) == old(Bytes(p, n)) && p + n <= memory.Length && newp + n <= memory.Length
      ensures forall a :: a in old(Blocks()) && a != p - HEADER ==>
                Bytes(a + HEADER, old(Blocks()[a])) == old(Bytes(a + HEADER, Blocks()[a]))
    {
      hide Ready, Tiles, Live, InMemory, Separate, OnlyHeaders, HeadsOf, Bytes, Load, HasRoom, Untouched, Intact;
      LiveInArena();
      if p != 0 {
        var cur := p - HEADER;
        LiveLength(cur);
        if Load(cur, Length) > size {
          return p;
        }
      }
      newp := Malloc(size);
      if p != 0 {
        LiveLength(p - HEADER);
        ghost var live, n, room := Blocks(), old(Blocks()[p - HEADER]), Blocks()[newp - HEADER];
        CopyBlock(newp, p, Load(p - HEADER, Length));
        LiveInArena();
        BytesPrefix(newp, n, room);
        Free(p);
        LiveInArena();
        BytesPrefix(newp, n, room);
        forall a | a in old(Blocks()) && a != p - HEADER
          ensures Bytes(a + HEADER, old(Blocks()[a])) == old(Bytes(a + HEADER, Blocks()[a]))
        {
          assert a in live && live[a] == old(Blocks()[a]) && a != newp - HEADER;
        }
      }
    }

    lemma BytesPrefix(a: nat, n: nat, l: nat)
      requires n <= l && a + l <= memory.Length
      ensures |Bytes(a, l)| == l && Bytes(a, n) == Bytes(a, l)[..n]
    {}

    /** Copy the first n bytes of one live block to another; no other live block changes. */
    method CopyBlock(dst: nat, src: nat, n: nat)
      requires Valid() && dst >= HEADER && src >= HEADER && dst != src
      requires dst - HEADER in Blocks() && src - HEADER in Blocks()
      requires n <= Blocks()[dst - HEADER] && n <= Blocks()[src - HEADER]
      modifies memory
      ensures Valid() && dst + n <= memory.Length && src + n <= memory.Length
      ensures Bytes(dst, n) == old(Bytes(src, n))
      ensures forall a :: a in Blocks() && a != dst - HEADER ==>
                Bytes(a + HEADER, Blocks()[a]) == old(Bytes(a + HEADER, Blocks()[a]))
    {
      hide Ready, Tiles, Live, InMemory, Separate, OnlyHeaders, Load, Slice, Splice;
      LiveInArena();
      LiveApart(dst - HEADER);
      ghost var live, m, row := Blocks(), memory[..], Bytes(src, n);
      SliceIs(m, src, n);
      CopyBytes(dst, src, n);
      SliceOfSplice(m, dst, row, dst, n);
      CopyIntact(dst, row, m);
      forall a | a in live && a != dst - HEADER
        ensures Bytes(a + HEADER, live[a]) == Slice(m, a + HEADER, live[a])
      {
        assert dst + live[dst - HEADER] <= a || a + HEADER + live[a] <= dst - HEADER;
        SliceOfSplice(m, dst, row, a + HEADER, live[a]);
      }
    }

    /** Writing into a live block leaves the heap intact. */
    lemma CopyIntact(dst: nat, row: seq<byte>, m: seq<byte>)
      requires dst >= HEADER && addrs != [] && Ready(hdr, addrs, base)
      requires dst - HEADER in Blocks() && |row| <= Blocks()[dst - HEADER]
      requires dst + |row| <= |m| == memory.Length <= WORD && InMemory(m, hdr, HeadsOf(addrs))
      requires memory[..] == Splice(m, dst, row)
      ensures Intact(HeadsOf(addrs))
    {
      hide InMemory;
      HeadsSeparate(hdr, addrs, base);
      PayloadWrites(hdr, addrs, base, m, memory[..]);
    }

    /** `memcpy` between disjoint regions. */
    method CopyBytes(dst: nat, src: nat, n: nat)
      requires dst + n <= memory.Length && src + n <= memory.Length && (dst + n <= src || src + n <= dst)
      modifies memory
      ensures memory[..] == Splice(old(memory[..]), dst, old(memory[..])[src..src + n])
    {
      hide Splice;
      ghost var m, row := memory[..], memory[..][src..src + n];
      SpliceNothing(m, dst);
      for i := 0 to n
        invariant memory[..] == Splice(m, dst, row[..i])
      {
        SpliceNext(m, memory[..], dst, row, i);
        SpliceElsewhere(m, dst, row[..i], src + i);
        memory[dst + i] := memory[src + i];
      }
      assert row[..n] == row;
    }

    /** Live blocks lie in the arena, and the map of live blocks records their headers. */
    lemma LiveInArena()
      requires Valid()
      ensures forall a :: a in Blocks() ==>
                a in hdr && Blocks()[a] == hdr[a].length && a + HEADER + Blocks()[a] <= memory.Length
    {
      forall a | a in Blocks() ensures a + HEADER + Blocks()[a] <= memory.Length {
        var i := BlockIndex(a);
        InArena(hdr, addrs, base, i);
      }
    }

    /** The header in memory has the length of the block. */
    lemma LiveLength(a: nat)
      requires Valid() && a in Blocks()
      ensures a + HEADER <= memory.Length && Load(a, Length) == Blocks()[a]
    {
      var i := BlockIndex(a);
      LoadIs(HeadsOf(addrs), a);
    }

    /** Blocks in use lie in the arena of 32 MiB, each behind its header of 32 bytes, and
        never overlap. */
    lemma LiveBlocks(a: nat, b: nat)
      requires Valid() && a in Blocks() && b in Blocks()
      ensures base <= a && a + 32 + Blocks()[a] <= base + 32 + 33554432 <= memory.Length
      ensures a != b ==> a + 32 + Blocks()[a] <= b || b + 32 + Blocks()[b] <= a
    {
      var i := BlockIndex(a);
      InArena(hdr, addrs, base, i);
      LiveApart(a);
    }

    /** Before the first use there is room for anything up to 32 MiB. */
    lemma FirstRoom(size: nat)
      requires Valid() && addrs == []
      ensures HasRoom(size) <==> size <= 33554432
    {}

    lemma LiveApart(a: nat)
      requires Valid() && a in Blocks()
      ensures forall b :: b in Blocks() && b != a ==> a + HEADER + Blocks()[a] <= b || b + HEADER + Blocks()[b] <= a
    {
      forall b | b in Blocks() && b != a ensures a + HEADER + Blocks()[a] <= b || b + HEADER + Blocks()[b] <= a {
        BlocksDisjoint(hdr, addrs, base, a, b);
      }
    }
  }

  /** A block's links, and which of its neighbours it touches. */
  lemma Neighbours(h: Headers, addrs: seq<nat>, base: nat, i: nat)
    requires i < |addrs| && Tiles(h, addrs, base) && Ring(h, addrs)
    ensures addrs[i] in h
    ensures var prev := h[addrs[i]].prev;
      && prev in h && prev == addrs[if i == 0 then |addrs| - 1 else i - 1]
      && (prev + h[prev].length + HEADER == addrs[i] <==> i > 0)
    ensures var next := h[addrs[i]].next;
      && next in h && next == addrs[Succ(i, |addrs|)]
      && (addrs[i] + h[addrs[i]].length + HEADER == next <==> i + 1 < |addrs|)
  {
    var p := if i == 0 then |addrs| - 1 else i - 1;
    assert Linked(h, addrs, i) && Linked(h, addrs, p);
    assert Joined(h, addrs, base, i) && Joined(h, addrs, base, p);
  }

  /** Marking a live block free may only put it beside other free blocks. */
  lemma ReleaseShape(h: Headers, addrs: seq<nat>, base: nat, i: nat)
    requires Ready(h, addrs, base) && i < |addrs|
    ensures addrs[i] in h
    ensures var h' := h[addrs[i] := h[addrs[i]].(free := true)];
            && Tiles(h', addrs, base) && Ring(h', addrs) && Rounded(h', addrs)
            && Live(h', addrs) == Live(h, addrs) - {addrs[i]}
            && (forall j: nat :: j < |addrs| && j != i && j + 1 != i ==> Apart(h', addrs, j))
  {
    MarkShape(h, addrs, base, i, true);
    forall j: nat | j < |addrs| ensures Apart(h, addrs, j) {}
  }

  /** Taking block i, whole or split, keeps the arena's shape. */
  lemma TakeReady(h: Headers, addrs: seq<nat>, base: nat, i: nat, size: nat)
    requires Ready(h, addrs, base) && i < |addrs|
    requires addrs[i] in h && h[addrs[i]].free && h[addrs[i]].length >= size
    ensures var cur, h1 := addrs[i], h[addrs[i] := h[addrs[i]].(free := false)];
      && cur !in Live(h, addrs) && cur > 0
      && (h[cur].length < size + HEADER ==>
            Ready(h1, addrs, base) && Live(h1, addrs) == Live(h, addrs)[cur := h[cur].length])
      && (h[cur].length >= size + HEADER ==>
            var r := RoundUp(size);
            && h1[cur].next in h1 && size <= r < size + HEADER && r + HEADER <= h1[cur].length
            && Ready(SplitHeaders(h1, cur, r), Insert(addrs, i, cur + r + HEADER), base)
            && Live(SplitHeaders(h1, cur, r), Insert(addrs, i, cur + r + HEADER)) == Live(h, addrs)[cur := r])
  {
    InArena(h, addrs, base, i);
    MarkShape(h, addrs, base, i, false);
    var h1 := h[addrs[i] := h[addrs[i]].(free := false)];
    if h[addrs[i]].length >= size + HEADER {
      RoundUpFits(size, h[addrs[i]].length);
      assert Apart(h, addrs, i);
      SplitReady(h1, addrs, base, i, RoundUp(size));
    }
  }

  /** A single free block fills the arena. */
  lemma OneBlock(h: Headers, base: nat)
    requires base > 0 && base in h && h[base] == Header(base, base, RESERVE, true)
    ensures Ready(h, [base], base) && Live(h, [base]) == map[]
    ensures HeadsOf([base]) == {base}
  {}

  lemma ZeroHeader(m: seq<byte>, a: nat)
    requires a + HEADER <= |m| && forall k :: a <= k < a + HEADER ==> m[k] == 0
    ensures Holds(m, a, Header(0, 0, 0, false))
  {
    forall f: Field ensures WordAt(m, a, f) == 0 {
      ZeroWord(m[a + f.Offset()..a + f.Offset() + 8]);
    }
  }

  lemma {:induction false} ZeroWord(s: seq<byte>)
    requires forall k :: 0 <= k < |s| ==> s[k] == 0
    ensures Value(s) == 0
  {
    if s != [] { ZeroWord(s[1..]); }
  }

  /** The place of a split lies inside the block, clear of all headers. */
  lemma BlockInside(h: Headers, addrs: seq<nat>, base: nat, i: nat, size: nat)
    requires Ready(h, addrs, base) && i < |addrs|
    ensures addrs[i] in h && addrs[i] + HEADER + h[addrs[i]].length <= base + HEADER + RESERVE
    ensures h[addrs[i]].length >= size + HEADER ==>
              var next := addrs[i] + RoundUp(size) + HEADER;
              && next + HEADER <= addrs[i] + HEADER + h[addrs[i]].length
              && next !in HeadsOf(addrs) && Separate(HeadsOf(addrs) + {next})
  {
    InArena(h, addrs, base, i);
    if h[addrs[i]].length >= size + HEADER {
      RoundUpFits(size, h[addrs[i]].length);
      InsideSeparate(h, addrs, base, i, addrs[i] + RoundUp(size) + HEADER);
    }
  }

  lemma HeadOf(addrs: seq<nat>, i: nat)
    requires i < |addrs|
    ensures addrs[i] in HeadsOf(addrs)
  {}

  lemma NoneLive(h: Headers)
    ensures Live(h, []) == map[]
  {}

  lemma NothingWritten(m: seq<byte>, heads: set<nat>)
    ensures OnlyHeaders(m, m, heads)
  {}

  lemma RemoveHeads(addrs: seq<nat>, i: nat)
    requires i < |addrs|
    ensures HeadsOf(Remove(addrs, i)) <= HeadsOf(addrs)
  {
    forall a | a in Remove(addrs, i) ensures a in addrs {}
  }

  /** The neighbours have their headers in the arena, and a merged length fits a word. */
  lemma NeighboursIn(h: Headers, addrs: seq<nat>, base: nat, i: nat)
    requires i < |addrs| && Tiles(h, addrs, base) && Ring(h, addrs)
    ensures addrs[i] in h && addrs[i] in HeadsOf(addrs)
    ensures var cur, prev := addrs[i], h[addrs[i]].prev;
      && prev in h && prev in HeadsOf(addrs) && h[prev].next == cur
      && (prev + h[prev].length + HEADER == cur <==> i > 0)
      && (i > 0 ==> prev == addrs[i - 1] && prev != cur &&
                    h[prev].length + h[cur].length + HEADER < base + HEADER + RESERVE)
    ensures var cur, next := addrs[i], h[addrs[i]].next;
      && next in h && next in HeadsOf(addrs)
      && (cur + h[cur].length + HEADER == next <==> i + 1 < |addrs|)
      && (i + 1 < |addrs| ==> next == addrs[i + 1] && next != cur &&
                              h[cur].length + h[next].length + HEADER < base + HEADER + RESERVE)
  {
    Neighbours(h, addrs, base, i);
    Distinct(h, addrs, base);
    InArena(h, addrs, base, i);
    var p := if i == 0 then |addrs| - 1 else i - 1;
    assert Linked(h, addrs, p);
    if i + 1 < |addrs| { InArena(h, addrs, base, i + 1); }
  }

  lemma LiveMember(h: Headers, addrs: seq<nat>, a: nat)
    requires a in Live(h, addrs)
    ensures a in addrs && a in h && !h[a].free && Live(h, addrs)[a] == h[a].length
  {}

  lemma SliceIs(m: seq<byte>, a: nat, n: nat)
    requires a + n <= |m|
    ensures Slice(m, a, n) == m[a..a + n]
  {}

  /** What is read at the place of a write, and clear of it. */
  lemma SliceOfSplice(m: seq<byte>, dst: nat, row: seq<byte>, a: nat, n: nat)
    requires dst + |row| <= |m|
    ensures a == dst && n == |row| ==> Slice(Splice(m, dst, row), a, n) == row
    ensures a + n <= dst || dst + |row| <= a ==> Slice(Splice(m, dst, row), a, n) == Slice(m, a, n)
  {}
}
