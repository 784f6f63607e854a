/** Lexical path canonicalisation. */
module Path {
  import opened Options
  import opened Bits
  import opened ByteString

  const SLASH: byte := 47
  const DOT: byte := 46

  const DOT_DIR: seq<byte> := [SLASH, DOT, SLASH]
  const DOUBLE: seq<byte> := [SLASH, SLASH]
  const DOTDOT_DIR: seq<byte> := [SLASH, DOT, DOT, SLASH]

  // ----- what a path means

  /** The components between the slashes. */
  function Split(s: seq<byte>): (r: seq<seq<byte>>)
    ensures |r| >= 1
  {
    if s == [] then [[]]
    else if s[0] == SLASH then [[]] + Split(s[1..])
    else var r := Split(s[1..]); [[s[0]] + r[0]] + r[1..]
  }

  predicate IsName(c: seq<byte>) { c != [] && c != [DOT] && c != [DOT, DOT] }

  /** Components joined by slashes. */
  function Join(cs: seq<seq<byte>>): seq<byte> {
    if cs == [] then [] else if |cs| == 1 then cs[0] else cs[0] + [47] + Join(cs[1..])
  }

  /** A path consists of its components and the slashes between them. */
  lemma {:induction false} SplitLaw(s: seq<byte>)
    ensures Join(Split(s)) == s && forall i :: 0 <= i < |Split(s)| ==> 47 !in Split(s)[i]
  {
    if s != [] {
      var r := Split(s[1..]);
      SplitLaw(s[1..]);
      if s[0] == 47 {
        assert ([[]] + r)[1..] == r;
      } else {
        var first := [s[0]] + r[0];
        assert ([first] + r[1..])[1..] == r[1..];
        assert Join(Split(s)) == [s[0]] + Join(r);
      }
    }
  }

  /** Follow components from a directory, given as a stack of names; climbing above
      the root has no meaning. */
  function Walk(cs: seq<seq<byte>>, stack: seq<seq<byte>>): Option<seq<seq<byte>>> {
    if cs == [] then Some(stack)
    else if cs[0] == [DOT, DOT] then
      if stack == [] then None else Walk(cs[1..], stack[..|stack| - 1])
    else Walk(cs[1..], if IsName(cs[0]) then stack + [cs[0]] else stack)
  }

  /** The directory that an absolute path leads to. */
  function Denotes(s: seq<byte>): Option<seq<seq<byte>>> { Walk(Split(s), []) }

  /** Nothing and a dot stay, two dots go up, any other component goes down. */
  lemma WalkLaw(c: seq<byte>, cs: seq<seq<byte>>, stack: seq<seq<byte>>)
    ensures c == [] || c == [46] ==> Walk([c] + cs, stack) == Walk(cs, stack)
    ensures c == [46, 46] ==> Walk([c] + cs, []) == None
    ensures c == [46, 46] && stack != [] ==> Walk([c] + cs, stack) == Walk(cs, stack[..|stack| - 1])
    ensures c !in {[], [46], [46, 46]} ==> Walk([c] + cs, stack) == Walk(cs, stack + [c])
    ensures Walk([], stack) == Some(stack)
  {
    assert ([c] + cs)[1..] == cs;
  }

  lemma SplitFirst(c: byte, t: seq<byte>)
    ensures c == SLASH ==> Split([c] + t) == [[]] + Split(t)
    ensures c != SLASH ==> Split([c] + t) == [[c] + Split(t)[0]] + Split(t)[1..]
  {
    assert ([c] + t)[1..] == t;
  }

  lemma {:induction false} SplitJoin(a: seq<byte>, b: seq<byte>)
    ensures Split(a + [SLASH] + b) == Split(a) + Split(b)
    decreases |a|
  {
    hide Split;
    if a == [] {
      assert a + [SLASH] + b == [SLASH] + b;
      SplitFirst(SLASH, b);
      SplitNothing();
    } else {
      var t := a[1..] + [SLASH] + b;
      SplitJoin(a[1..], b);
      assert a + [SLASH] + b == [a[0]] + t;
      assert a == [a[0]] + a[1..];
      SplitFirst(a[0], t);
      SplitFirst(a[0], a[1..]);
    }
  }

  lemma SplitNothing()
    ensures Split([]) == [[]]
  {}

  lemma {:induction false} SplitName(c: seq<byte>)
    requires SLASH !in c
    ensures Split(c) == [c]
    decreases |c|
  {
    if c != [] {
      SplitName(c[1..]);
      assert [c[0]] + c[1..] == c;
    }
  }

  lemma {:induction false} WalkConcat(a: seq<seq<byte>>, b: seq<seq<byte>>, stack: seq<seq<byte>>)
    ensures Walk(a + b, stack) == match Walk(a, stack) case None => None case Some(t) => Walk(b, t)
    decreases |a|
  {
    if a == [] {
      assert a + b == b;
    } else {
      assert (a + b)[1..] == a[1..] + b;
      if a[0] == [DOT, DOT] {
        if stack != [] { WalkConcat(a[1..], b, stack[..|stack| - 1]); }
      } else {
        WalkConcat(a[1..], b, if IsName(a[0]) then stack + [a[0]] else stack);
      }
    }
  }

  /** A component that is empty or a dot can go. */
  lemma DropIdle(a: seq<seq<byte>>, c: seq<byte>, b: seq<seq<byte>>)
    requires c == [] || c == [DOT]
    ensures Walk(a + [c] + b, []) == Walk(a + b, [])
  {
    assert a + [c] + b == a + ([c] + b);
    WalkConcat(a, [c] + b, []);
    WalkConcat(a, b, []);
    assert ([c] + b)[1..] == b;
  }

  /** A name and the dots behind it can go. */
  lemma DropPair(a: seq<seq<byte>>, c: seq<byte>, b: seq<seq<byte>>)
    requires IsName(c)
    ensures Walk(a + [c, [DOT, DOT]] + b, []) == Walk(a + b, [])
  {
    hide Walk, IsName;
    var tail := [c, [DOT, DOT]] + b;
    assert a + [c, [DOT, DOT]] + b == a + tail;
    WalkConcat(a, tail, []);
    WalkConcat(a, b, []);
    if Walk(a, []).Some? { DownUp(c, b, Walk(a, []).value); }
  }

  lemma DownUp(c: seq<byte>, b: seq<seq<byte>>, stack: seq<seq<byte>>)
    requires IsName(c)
    ensures Walk([c, [DOT, DOT]] + b, stack) == Walk(b, stack)
  {
    var tail := [c, [DOT, DOT]] + b;
    assert tail[1..] == [[DOT, DOT]] + b && tail[1..][1..] == b;
    assert (stack + [c])[..|stack + [c]| - 1] == stack;
  }

  // ----- what rewriting keeps

  /** The component between the last two slashes of a text that ends with a slash. */
  function LastName(s: seq<byte>): seq<byte> {
    var cs := Split(s);
    if |cs| >= 2 then cs[|cs| - 2] else []
  }

  /** A text that ends with a slash. */
  predicate Closed(s: seq<byte>) { s != [] && s[|s| - 1] == SLASH }

  lemma ClosedSplit(s: seq<byte>)
    requires Closed(s)
    ensures |Split(s)| >= 2
  {
    var a := s[..|s| - 1];
    SplitJoin(a, []);
    assert a + [SLASH] + [] == s;
  }

  /** The text never occurs but at the very end. */
  ghost predicate Inner(s: seq<byte>, n: seq<byte>) {
    forall k :: 0 <= k < |s| - |n| ==> !OccursAt(s, n, k)
  }

  /** Remove the part from one slash up to another. */
  function Cut(s: seq<byte>, a: nat, b: nat): seq<byte>
    requires a < b < |s|
  {
    s[..a] + s[b..]
  }

  /** Cutting creates no new occurrence of `//` or of `/./`. */
  lemma CutKeeps(s: seq<byte>, a: nat, b: nat, n: seq<byte>)
    requires a < b < |s| && s[a] == SLASH == s[b] && (n == DOUBLE || n == DOT_DIR) && Inner(s, n)
    ensures Inner(Cut(s, a, b), n)
  {
    hide OccursAt;
    var t := Cut(s, a, b);
    forall k | 0 <= k < |t| - |n| ensures !OccursAt(t, n, k) {
      if k + |n| <= a + 1 {
        SameWindow(t, k, s, k, n);
      } else if k >= a {
        SameWindow(t, k, s, k - a + b, n);
      } else {
        OverSlash(t, k, n);
      }
    }
  }

  lemma SameWindow(t: seq<byte>, k: nat, s: seq<byte>, k': nat, n: seq<byte>)
    requires k + |n| <= |t| && k' + |n| <= |s| && t[k..k + |n|] == s[k'..k' + |n|]
    ensures OccursAt(t, n, k) <==> OccursAt(s, n, k')
  {}

  /** A text with no slash in its middle does not occur over a slash. */
  lemma OverSlash(t: seq<byte>, k: nat, n: seq<byte>)
    requires n == DOT_DIR && k + 1 < |t| && t[k + 1] == SLASH
    ensures !OccursAt(t, n, k)
  {
    if k + 3 <= |t| { assert t[k..k + 3][1] == SLASH; }
  }

  /** The three invariants of the rewriting loops. */
  ghost predicate Good(s: seq<byte>, str: seq<byte>) {
    && Closed(s) && s[0] == SLASH && |s| >= 2
    && Denotes(s) == Denotes(str)
    && LastName(s) == Last(str)
  }

  /** The last component. */
  function Last(s: seq<byte>): seq<byte> { Split(s)[|Split(s)| - 1] }

  lemma Start(str: seq<byte>)
    requires str != [] && str[0] == SLASH
    ensures Good(str + [SLASH], str)
  {
    SplitJoin(str, []);
    assert str + [SLASH] + [] == str + [SLASH];
    assert Split([]) == [[]];
    DropIdle(Split(str), [], []);
    assert Split(str) + [[]] + [] == Split(str) + [[]] && Split(str) + [] == Split(str);
  }

  /** Components that may go, between a closed rest and what stands before. */
  lemma CutGood(s: seq<byte>, str: seq<byte>, p: seq<byte>, mid: seq<seq<byte>>, q: seq<byte>)
    requires Good(s, str) && Closed(q) && Split(s) == Split(p) + mid + Split(q)
    requires Walk(Split(p) + mid + Split(q), []) == Walk(Split(p) + Split(q), [])
    requires p != [] ==> p[0] == SLASH
    ensures Good(p + [SLASH] + q, str)
  {
    hide Split, Walk;
    SplitJoin(p, q);
    ClosedSplit(q);
    LastOfConcat(Split(p) + mid, Split(q));
    LastOfConcat(Split(p), Split(q));
  }

  lemma LastOfConcat(a: seq<seq<byte>>, b: seq<seq<byte>>)
    requires |b| >= 2
    ensures |a + b| >= 2 && (a + b)[|a + b| - 2] == b[|b| - 2]
  {}

  /** Removing `/.` in front of a slash. */
  lemma DotStep(s: seq<byte>, str: seq<byte>, r: nat)
    requires Good(s, str) && r < |s| - 3 && OccursAt(s, DOT_DIR, r)
    ensures Good(Cut(s, r, r + 2), str)
  {
    hide Good, Split, OccursAt, Cut;
    var p, q := s[..r], s[r + 3..];
    DotParts(s, r);
    SplitJoin(p, [DOT] + [SLASH] + q);
    SplitJoin([DOT], q);
    SplitName([DOT]);
    assert Split(p) + ([[DOT]] + Split(q)) == Split(p) + [[DOT]] + Split(q);
    DropIdle(Split(p), [DOT], Split(q));
    GoodShape(s, str);
    CutGood(s, str, p, [[DOT]], q);
  }

  lemma DotParts(s: seq<byte>, r: nat)
    requires OccursAt(s, DOT_DIR, r)
    ensures s == s[..r] + [SLASH] + ([DOT] + [SLASH] + s[r + 3..])
    ensures r + 2 < |s| && Cut(s, r, r + 2) == s[..r] + [SLASH] + s[r + 3..]
  {
    Window(s, r, DOT_DIR);
  }

  /** Removing one of two slashes. */
  lemma SlashStep(s: seq<byte>, str: seq<byte>, r: nat)
    requires Good(s, str) && r < |s| - 2 && OccursAt(s, DOUBLE, r)
    ensures Good(Cut(s, r, r + 1), str)
  {
    hide Good, Split;
    var p, q := s[..r], s[r + 2..];
    Window(s, r, DOUBLE);
    assert s == p + [SLASH] + ([] + [SLASH] + q);
    SplitJoin(p, [] + [SLASH] + q);
    SplitJoin([], q);
    SplitName([]);
    assert Split(p) + ([[]] + Split(q)) == Split(p) + [[]] + Split(q);
    DropIdle(Split(p), [], Split(q));
    GoodShape(s, str);
    CutGood(s, str, p, [[]], q);
    assert Cut(s, r, r + 1) == p + [SLASH] + q;
  }

  lemma GoodShape(s: seq<byte>, str: seq<byte>)
    requires Good(s, str)
    ensures |s| >= 2 && s[0] == SLASH && s[|s| - 1] == SLASH
  {}

  lemma Window(s: seq<byte>, r: nat, n: seq<byte>)
    requires OccursAt(s, n, r)
    ensures forall i :: 0 <= i < |n| ==> s[r + i] == n[i]
    ensures s == s[..r] + n + s[r + |n|..]
  {
    forall i | 0 <= i < |n| ensures s[r + i] == n[i] { assert s[r..r + |n|][i] == n[i]; }
  }

  lemma SplitUp(s: seq<byte>, p: seq<byte>, c: seq<byte>, q: seq<byte>)
    requires SLASH !in c && s == p + [SLASH] + (c + [SLASH] + ([DOT, DOT] + [SLASH] + q))
    ensures Split(s) == Split(p) + [c, [DOT, DOT]] + Split(q)
  {
    hide Split;
    var t := c + [SLASH] + ([DOT, DOT] + [SLASH] + q);
    SplitJoin(p, t);
    SplitTwo(c, q);
    assert Split(p) + ([c, [DOT, DOT]] + Split(q)) == Split(p) + [c, [DOT, DOT]] + Split(q);
  }

  lemma SplitTwo(c: seq<byte>, q: seq<byte>)
    requires SLASH !in c
    ensures Split(c + [SLASH] + ([DOT, DOT] + [SLASH] + q)) == [c, [DOT, DOT]] + Split(q)
  {
    hide Split;
    SplitJoin(c, [DOT, DOT] + [SLASH] + q);
    SplitJoin([DOT, DOT], q);
    SplitName(c);
    SplitName([DOT, DOT]);
  }

  /** Removing a name with `/..` behind it: the name is a real one, because the
      other rewritings are done and this is the first place with `/../`. */
  lemma UpStep(s: seq<byte>, str: seq<byte>, r: nat, a: nat)
    requires Good(s, str) && r < |s| - 4 && OccursAt(s, DOTDOT_DIR, r)
    requires Inner(s, DOUBLE) && Inner(s, DOT_DIR) && forall k :: 0 <= k < r ==> !OccursAt(s, DOTDOT_DIR, k)
    requires a < r && s[a] == SLASH && forall k :: a < k < r ==> s[k] != SLASH
    ensures Good(Cut(s, a, r + 3), str)
  {
    hide Good, Split, Walk, Inner;
    var p, c, q := s[..a], s[a + 1..r], s[r + 4..];
    Window(s, r, DOTDOT_DIR);
    RealName(s, r, a);
    SplitUp(s, p, c, q);
    DropPair(Split(p), c, Split(q));
    GoodShape(s, str);
    CutGood(s, str, p, [c, [DOT, DOT]], q);
    assert Cut(s, a, r + 3) == p + [SLASH] + q;
  }

  lemma RealName(s: seq<byte>, r: nat, a: nat)
    requires r < |s| - 4 && OccursAt(s, DOTDOT_DIR, r)
    requires Inner(s, DOUBLE) && Inner(s, DOT_DIR) && forall k :: 0 <= k < r ==> !OccursAt(s, DOTDOT_DIR, k)
    requires a < r && s[a] == SLASH
    ensures IsName(s[a + 1..r])
  {
    Window(s, r, DOTDOT_DIR);
    var c := s[a + 1..r];
    hide Inner, OccursAt;
    assert s[r] == SLASH;
    assert s[a..r + 1] == [SLASH] + c + [SLASH];
    assert c == [] ==> s[a..a + 2] == DOUBLE;
    assert c == [DOT] ==> s[a..a + 3] == DOT_DIR;
    assert c == [DOT, DOT] ==> s[a..a + 4] == DOTDOT_DIR;
    NotInner(s, DOUBLE, a);
    NotInner(s, DOT_DIR, a);
    NotAt(s, DOTDOT_DIR, a);
  }

  lemma NotAt(s: seq<byte>, n: seq<byte>, k: nat)
    requires !OccursAt(s, n, k) && k + |n| <= |s|
    ensures s[k..k + |n|] != n
  {}

  lemma NotInner(s: seq<byte>, n: seq<byte>, k: nat)
    requires Inner(s, n) && k < |s| - |n|
    ensures s[k..k + |n|] != n
  {
    assert !OccursAt(s, n, k);
  }

  /** A path with a meaning does not begin with `/../`. */
  lemma NotAtRoot(s: seq<byte>, str: seq<byte>, r: nat)
    requires Good(s, str) && Denotes(str).Some? && OccursAt(s, DOTDOT_DIR, r)
    ensures r > 0
  {
    hide Denotes, OccursAt, LastName, Last;
    if r == 0 { Climbs(s); }
  }

  lemma Climbs(s: seq<byte>)
    requires OccursAt(s, DOTDOT_DIR, 0)
    ensures Denotes(s) == None
  {
    hide Split, Walk, OccursAt;
    FourBytes(s);
    assert s == [SLASH] + s[1..];
    assert s[1..] == [DOT, DOT, SLASH] + s[4..];
    SplitClimb(s, s[1..], s[4..]);
    ClimbNone(Split(s[4..]));
  }

  lemma FourBytes(s: seq<byte>)
    requires OccursAt(s, DOTDOT_DIR, 0)
    ensures |s| >= 4 && s[0] == SLASH && s[1] == DOT && s[2] == DOT && s[3] == SLASH
  {
    assert s[0..4] == DOTDOT_DIR;
    assert s[0] == s[0..4][0] && s[1] == s[0..4][1] && s[2] == s[0..4][2] && s[3] == s[0..4][3];
  }

  lemma SplitClimb(s: seq<byte>, t: seq<byte>, q: seq<byte>)
    requires s == [SLASH] + t && t == [DOT, DOT, SLASH] + q
    ensures Split(s) == [[], [DOT, DOT]] + Split(q)
  {
    hide Split;
    SplitFirst(SLASH, t);
    assert t == [DOT, DOT] + [SLASH] + q;
    SplitJoin([DOT, DOT], q);
    SplitName([DOT, DOT]);
  }

  lemma ClimbNone(rest: seq<seq<byte>>)
    ensures Walk([[], [DOT, DOT]] + rest, []) == None
  {
    var cs := [[], [DOT, DOT]] + rest;
    assert cs[1..][0] == [DOT, DOT];
  }

  // ----- the code

  /** `path::canonical`. The result means the same as the path and holds no `//`, no
      `/./` and no `/../`. Its last component is that of the path, which may still
      be empty or dots: the searches never look at the last place. */
  method Canonical(str: seq<byte>) returns (r: seq<byte>)
    requires str != [] && 0 !in str && str[0] == SLASH && Denotes(str).Some?
    ensures r != [] && r[0] == 47 && Denotes(r) == Denotes(str)
    ensures Free(r, [47, 47]) && Free(r, [47, 46, 47]) && Free(r, [47, 46, 46, 47])
    ensures Last(r) == Last(str)
  {
    hide Denotes, Good, Inner, Free, Last;
    var s := new String(str + [SLASH]);
    Start(str);
    DropDots(s, str);
    DropSlashes(s, str);
    DropUps(s, str);
    GoodShape(s.Contents(), str);
    r := s.storage[..s.size - 1];
    Finish(s.Contents(), r, str);
  }

  /** A search of the rewriting loops. */
  method Search(s: String, n: seq<byte>) returns (r: int)
    requires s.Terminated() && 0 !in n
    ensures r < 0 ==> Inner(s.Contents(), n)
    ensures r >= 0 ==> r < s.size - |n| && OccursAt(s.Contents(), n, r)
    ensures forall k :: 0 <= k < r ==> !OccursAt(s.Contents(), n, k)
  {
    TextIs(n + [0], |n|);
    r := s.Find(n + [0]);
  }

  /** `replace(start, length, "/")` in front of a slash is a cut. */
  lemma CutIs(s: seq<byte>, start: nat, length: nat)
    requires length >= 2 && start + length <= |s| && s[start + length - 1] == SLASH
    ensures s[..start] + [SLASH] + s[start + length..] == Cut(s, start, start + length - 1)
  {}

  method DropDots(s: String, ghost str: seq<byte>)
    requires s.Terminated() && Good(s.Contents(), str)
    modifies s, s.storage
    ensures s.Terminated() && Good(s.Contents(), str) && Inner(s.Contents(), DOT_DIR)
    ensures s.storage == old(s.storage) || fresh(s.storage)
  {
    hide Good, Inner, OccursAt, Cut;
    var start := Search(s, DOT_DIR);
    while start >= 0
      invariant s.Terminated() && Good(s.Contents(), str)
      invariant s.storage == old(s.storage) || fresh(s.storage)
      invariant start >= 0 ==> start < s.size - 3 && OccursAt(s.Contents(), DOT_DIR, start)
      invariant start < 0 ==> Inner(s.Contents(), DOT_DIR)
      decreases s.size
    {
      ghost var before := s.Contents();
      DotStep(before, str, start);
      Window(before, start, DOT_DIR);
      CutIs(before, start, 3);
      s.Replace(start, 3, [SLASH]);
      start := Search(s, DOT_DIR);
    }
  }

  method DropSlashes(s: String, ghost str: seq<byte>)
    requires s.Terminated() && Good(s.Contents(), str) && Inner(s.Contents(), DOT_DIR)
    modifies s, s.storage
    ensures s.Terminated() && Good(s.Contents(), str) && Inner(s.Contents(), DOT_DIR) && Inner(s.Contents(), DOUBLE)
    ensures s.storage == old(s.storage) || fresh(s.storage)
  {
    hide Good, Inner, OccursAt, Cut;
    var start := Search(s, DOUBLE);
    while start >= 0
      invariant s.Terminated() && Good(s.Contents(), str) && Inner(s.Contents(), DOT_DIR)
      invariant s.storage == old(s.storage) || fresh(s.storage)
      invariant start >= 0 ==> start < s.size - 2 && OccursAt(s.Contents(), DOUBLE, start)
      invariant start < 0 ==> Inner(s.Contents(), DOUBLE)
      decreases s.size
    {
      ghost var before := s.Contents();
      SlashStep(before, str, start);
      Window(before, start, DOUBLE);
      CutIs(before, start, 2);
      CutKeeps(before, start, start + 1, DOT_DIR);
      s.Replace(start, 2, [SLASH]);
      start := Search(s, DOUBLE);
    }
  }

  /** Back to the slash in front of the name before r. */
  method SlashBefore(s: String, r: nat) returns (start: nat, length: nat)
    requires s.Terminated() && 0 < r < s.size && s.Contents()[0] == SLASH
    ensures start < r && length == r + 4 - start && s.Contents()[start] == SLASH
    ensures forall k :: start < k < r ==> s.Contents()[k] != SLASH
  {
    length := 5;
    start := r - 1;
    while start != 0 && s.storage[start] != SLASH
      invariant 0 <= start < r && length == r + 4 - start
      invariant forall k :: start < k < r ==> s.storage[k] != SLASH
    {
      start := start - 1;
      length := length + 1;
    }
    assert s.Contents()[0] == s.storage[0];
  }

  method DropUps(s: String, ghost str: seq<byte>)
    requires s.Terminated() && Good(s.Contents(), str) && Inner(s.Contents(), DOT_DIR) &&
             Inner(s.Contents(), DOUBLE) && Denotes(str).Some?
    modifies s, s.storage
    ensures s.Terminated() && Good(s.Contents(), str)
    ensures Inner(s.Contents(), DOT_DIR) && Inner(s.Contents(), DOUBLE) && Inner(s.Contents(), DOTDOT_DIR)
    ensures s.storage == old(s.storage) || fresh(s.storage)
  {
    hide Good, Inner, OccursAt, Cut, Denotes;
    var start := Search(s, DOTDOT_DIR);
    while start >= 0
      invariant s.Terminated() && Good(s.Contents(), str) && Inner(s.Contents(), DOT_DIR) && Inner(s.Contents(), DOUBLE)
      invariant s.storage == old(s.storage) || fresh(s.storage)
      invariant start >= 0 ==> start < s.size - 4 && OccursAt(s.Contents(), DOTDOT_DIR, start)
      invariant start >= 0 ==> forall k :: 0 <= k < start ==> !OccursAt(s.Contents(), DOTDOT_DIR, k)
      invariant start < 0 ==> Inner(s.Contents(), DOTDOT_DIR)
      decreases s.size
    {
      UpOnce(s, str, start);
      start := Search(s, DOTDOT_DIR);
    }
  }

  /** Remove the first `/../` and the name in front of it. */
  method UpOnce(s: String, ghost str: seq<byte>, r: nat)
    requires s.Terminated() && Good(s.Contents(), str) && Inner(s.Contents(), DOT_DIR) &&
             Inner(s.Contents(), DOUBLE) && Denotes(str).Some?
    requires r < s.size - 4 && OccursAt(s.Contents(), DOTDOT_DIR, r)
    requires forall k :: 0 <= k < r ==> !OccursAt(s.Contents(), DOTDOT_DIR, k)
    modifies s, s.storage
    ensures s.Terminated() && Good(s.Contents(), str) && Inner(s.Contents(), DOT_DIR) && Inner(s.Contents(), DOUBLE)
    ensures s.size < old(s.size) && (s.storage == old(s.storage) || fresh(s.storage))
  {
    hide Good, Inner, OccursAt, Cut, Denotes;
    ghost var before := s.Contents();
    NotAtRoot(before, str, r);
    GoodShape(before, str);
    Window(before, r, DOTDOT_DIR);
    var start, length := SlashBefore(s, r);
    UpStep(before, str, r, start);
    CutIs(before, start, length);
    CutKeeps(before, start, r + 3, DOT_DIR);
    CutKeeps(before, start, r + 3, DOUBLE);
    s.Replace(start, length, [SLASH]);
  }

  /** The text holds n nowhere. */
  ghost predicate Free(s: seq<byte>, n: seq<byte>) { forall k: nat :: !OccursAt(s, n, k) }

  /** The trailing slash goes again. */
  lemma Finish(s: seq<byte>, r: seq<byte>, str: seq<byte>)
    requires Good(s, str) && Inner(s, DOUBLE) && Inner(s, DOT_DIR) && Inner(s, DOTDOT_DIR) && r == s[..|s| - 1]
    ensures Denotes(r) == Denotes(str) && Last(r) == Last(str)
    ensures Free(r, DOUBLE) && Free(r, DOT_DIR) && Free(r, DOTDOT_DIR)
  {
    hide Inner;
    Shorter(s, r, DOUBLE); Shorter(s, r, DOT_DIR); Shorter(s, r, DOTDOT_DIR);
    SplitJoin(r, []);
    assert r + [SLASH] + [] == s;
    assert Split([]) == [[]];
    DropIdle(Split(r), [], []);
    assert Split(r) + [[]] + [] == Split(r) + [[]] && Split(r) + [] == Split(r);
  }

  lemma Shorter(s: seq<byte>, r: seq<byte>, n: seq<byte>)
    requires s != [] && Inner(s, n) && r == s[..|s| - 1]
    ensures Free(r, n)
  {
    hide Inner;
    forall k: nat ensures !OccursAt(r, n, k) {
      assert k + |n| <= |r| ==> r[k..k + |n|] == s[k..k + |n|];
      if OccursAt(r, n, k) { NotInner(s, n, k); }
    }
  }

  // ----- how canonical the result is

  /** The first component ends at the first slash. */
  lemma {:induction false} FirstEnds(t: seq<byte>)
    requires |Split(t)| >= 2
    ensures var c := Split(t)[0]; |c| < |t| && t[..|c|] == c && t[|c|] == SLASH
    decreases |t|
  {
    if t[0] != SLASH {
      FirstEnds(t[1..]);
      var c := Split(t[1..])[0];
      assert t[..|c| + 1] == [t[0]] + t[1..][..|c|];
    }
  }

  /** A component that is neither first nor last stands between two slashes. */
  lemma {:induction false} Surrounded(s: seq<byte>, i: nat) returns (k: nat)
    requires 0 < i < |Split(s)| - 1
    ensures OccursAt(s, [SLASH] + Split(s)[i] + [SLASH], k)
    decreases |s|
  {
    var t := s[1..];
    if s[0] == SLASH && i == 1 {
      FirstEnds(t);
      k := 0;
      var c := Split(t)[0];
      assert s[0..|c| + 2] == [SLASH] + t[..|c|] + [t[|c|]];
    } else {
      k := Surrounded(t, if s[0] == SLASH then i - 1 else i);
      var n := |Split(s)[i]| + 2;
      assert t[k..k + n] == s[k + 1..k + 1 + n];
      k := k + 1;
    }
  }

  /** Every component of the result behind the root is a proper name, exactly when
      the last component of the given path is one. */
  lemma Resolved(r: seq<byte>, str: seq<byte>)
    requires r != [] && r[0] == SLASH && Last(r) == Last(str)
    requires Free(r, DOUBLE) && Free(r, DOT_DIR) && Free(r, DOTDOT_DIR)
    ensures (forall i :: 1 <= i < |Split(r)| ==> IsName(Split(r)[i])) <==> IsName(Last(str))
  {
    hide OccursAt, Split;
    RootFirst(r);
    var cs := Split(r);
    forall i | 1 <= i < |cs| - 1 ensures IsName(cs[i]) {
      var k := Surrounded(r, i);
      assert [SLASH] + [] + [SLASH] == DOUBLE;
      assert [SLASH] + [DOT] + [SLASH] == DOT_DIR;
      assert [SLASH] + [DOT, DOT] + [SLASH] == DOTDOT_DIR;
    }
  }

  lemma RootFirst(r: seq<byte>)
    requires r != [] && r[0] == SLASH
    ensures |Split(r)| >= 2
  {}

  /** "/a/." keeps its dot, though it denotes the directory "/a". */
  method TrailingDot() returns (r: seq<byte>)
    ensures Denotes(r) == Denotes([47, 97]) == Some([[97]]) && Last(r) == [46]
    ensures !forall i :: 1 <= i < |Split(r)| ==> IsName(Split(r)[i])
  {
    hide OccursAt, Split, Walk;
    DotPath();
    r := Canonical([SLASH, 97, SLASH, DOT]);
    Resolved(r, [SLASH, 97, SLASH, DOT]);
  }

  lemma DotPath()
    ensures Denotes([SLASH, 97, SLASH, DOT]) == Denotes([SLASH, 97]) == Some([[97]])
    ensures Last([SLASH, 97, SLASH, DOT]) == [DOT]
  {
    hide Walk;
    SplitName([]); SplitName([97]); SplitName([DOT]);
    SplitJoin([], [97]);
    SplitJoin([SLASH, 97], [DOT]);
    assert [] + [SLASH] + [97] == [SLASH, 97] && [SLASH, 97] + [SLASH] + [DOT] == [SLASH, 97, SLASH, DOT];
    assert [[]] + [[97]] == [[], [97]] && [[], [97]] + [[DOT]] == [[], [97], [DOT]];
    DotWalk();
  }

  lemma DotWalk()
    ensures Walk([[], [97]], []) == Walk([[], [97], [DOT]], []) == Some([[97]])
  {
    var root, none: seq<seq<byte>> := [[], [97]], [];
    assert root[1..] == [[97]] && [[97]][1..] == none && none + [[97]] == [[97]];
    assert Walk(root, none) == Walk([[97]], none) == Walk(none, [[97]]);
    assert root + [[DOT]] + none == [[], [97], [DOT]] && root + none == root;
    DropIdle(root, [DOT], none);
  }
}
