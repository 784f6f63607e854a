/** Four-level page tables, edited only through the window that the root table
    opens on itself in its last entry. */
module PageTable {
  import opened Options
  import opened FramePool

  /** A page table entry, by its bit fields; `addr` is a page frame number. */
  datatype Pte = Pte(p: bool, rw: bool, us: bool, pwt: bool, pcd: bool, a: bool, d: bool, pat: bool, g: bool,
                     avl1: nat, addr: nat, avl2: nat, nx: bool)

  /** The word that holds an entry, lowest field first. */
  function Raw(e: Pte): nat {
    Flag(e.p) + 2 * Flag(e.rw) + 4 * Flag(e.us) + 8 * Flag(e.pwt) + 0x10 * Flag(e.pcd) + 0x20 * Flag(e.a) +
    0x40 * Flag(e.d) + 0x80 * Flag(e.pat) + 0x100 * Flag(e.g) + 0x200 * e.avl1 + 0x1000 * e.addr +
    0x10_0000_0000_0000 * e.avl2 + 0x8000_0000_0000_0000 * Flag(e.nx)
  }

  function Flag(b: bool): nat { if b then 1 else 0 }

  const ZERO_ENTRY := Pte(false, false, false, false, false, false, false, false, false, 0, 0, 0, false)

  /** Frame numbers have 40 bits. */
  const FRAMES: nat := 0x100_0000_0000

  const SELF: nat := 511

  type Index = i: nat | i < 512

  /** The four 9-bit indices of a page: i4 selects in the root table. */
  datatype Page = Page(i4: Index, i3: Index, i2: Index, i1: Index)

  function PageOf(va: nat): Page {
    Page(va / 0x80_0000_0000 % 512, va / 0x4000_0000 % 512, va / 0x20_0000 % 512, va / 0x1000 % 512)
  }

  /** Physical memory, as far as it holds tables: frame number to entries. */
  type Tables = map<nat, seq<Pte>>

  // ----- the hardware walk

  function Present(ts: Tables, f: nat, i: Index): Option<Pte> {
    if f in ts && |ts[f]| == 512 && ts[f][i].p then Some(ts[f][i]) else None
  }

  /** The table that entry i of table f points to. */
  function Sub(ts: Tables, f: nat, i: Index): Option<nat> {
    match Present(ts, f, i) case Some(e) => Some(e.addr) case None => None
  }

  /** The lowest-level table on the path of a page. */
  function LeafTable(ts: Tables, root: nat, v: Page): Option<nat> {
    match Sub(ts, root, v.i4)
    case None => None
    case Some(f3) =>
      match Sub(ts, f3, v.i3)
      case None => None
      case Some(f2) => Sub(ts, f2, v.i2)
  }

  /** What the hardware finds for a page, if it is mapped. */
  function Walk(ts: Tables, root: nat, v: Page): Option<Pte> {
    match LeafTable(ts, root, v)
    case None => None
    case Some(f1) => Present(ts, f1, v.i1)
  }

  // ----- the shape of the tables

  /** Entry i of table f points to a table of the next level. */
  predicate Link(ts: Tables, level: map<nat, nat>, root: nat, f: nat, i: Index) {
    && f in ts && f in level && level[f] >= 2 && !(f == root && i == SELF)
    && |ts[f]| == 512 && ts[f][i].p
  }

  /** The tables form a tree of depth 4 below the root, whose last entry points
      back to the root; no entry above the lowest level restricts access. */
  ghost predicate Tree(ts: Tables, level: map<nat, nat>, root: nat) {
    && root in ts && level.Keys == ts.Keys && level[root] == 4
    && (forall f :: f in ts ==> |ts[f]| == 512 && 1 <= level[f] <= 4 && (level[f] == 4 ==> f == root))
    && ts[root][SELF].p && ts[root][SELF].addr == root
    && (forall f, i: Index :: Link(ts, level, root, f, i) ==>
          ts[f][i].addr in level && level[ts[f][i].addr] == level[f] - 1)
    && (forall f, i: Index, g, j: Index ::
          Link(ts, level, root, f, i) && Link(ts, level, root, g, j) && ts[f][i].addr == ts[g][j].addr ==>
            f == g && i == j)
    && (forall f, i: Index :: f in ts && level[f] >= 2 ==> (ts[f][i].p ==> ts[f][i].rw && ts[f][i].us) && !ts[f][i].nx)
  }

  function EmptyTable(): seq<Pte> {
    seq(512, _ => ZERO_ENTRY)
  }

  function Linked(e: Pte, fr: nat): Pte {
    e.(addr := fr, p := true, rw := true, us := true, pwt := true, pcd := true)
  }

  /** The words of a new table are zero. */
  lemma ZeroWords(i: Index)
    ensures |EmptyTable()| == 512 && Raw(EmptyTable()[i]) == 0
  {}

  /** Hang a new empty table below entry i of table f. */
  function AddTable(ts: Tables, f: nat, i: Index, fr: nat): Tables
    requires f in ts && |ts[f]| == 512
  {
    ts[f := ts[f][i := Linked(ts[f][i], fr)]][fr := EmptyTable()]
  }

  /** A page of zeros became a table; a zero word for entry i of table f holds its
      address and the five lowest flags. */
  ghost predicate NewTableAt(ts: Tables, ts': Tables, f: nat, i: Index, page: nat) {
    var fr := page / 0x1000;
    && fr in ts' && |ts'[fr]| == 512 && (forall j: Index :: Raw(ts'[fr][j]) == 0)
    && f in ts && f in ts' && |ts[f]| == |ts'[f]| == 512 && ts'[f][i].p && ts'[f][i].addr == fr
    && (Raw(ts[f][i]) == 0 ==> Raw(ts'[f][i]) == page + 0x1F)
  }

  lemma AddedTable(ts: Tables, f: nat, i: Index, fr: nat)
    requires f in ts && |ts[f]| == 512 && fr != f
    ensures NewTableAt(ts, AddTable(ts, f, i, fr), f, i, 0x1000 * fr)
  {
    hide Raw, EmptyTable, Linked;
    ZeroWords(0);
    forall j: Index ensures Raw(EmptyTable()[j]) == 0 { ZeroWords(j); }
    LinkedEntry(ts[f][i], fr);
  }

  /** A zero word becomes a present, writable, uncached entry with write-through for
      every access. */
  lemma LinkedEntry(e: Pte, fr: nat)
    ensures Linked(e, fr).p && Linked(e, fr).addr == fr
    ensures Raw(e) == 0 ==> Raw(Linked(e, fr)) == 0x1000 * fr + 0x1F
  {}

  function SetEntry(ts: Tables, f: nat, i: Index, e: Pte): Tables
    requires f in ts && |ts[f]| == 512
  {
    ts[f := ts[f][i := e]]
  }

  /** A root table that holds nothing but its entry to itself is a tree. */
  lemma RootAlone(root: nat, self: Pte)
    requires self.p && self.rw && self.us && !self.nx && self.addr == root
    ensures Tree(map[root := EmptyTable()[SELF := self]], map[root := 4], root)
    ensures forall v: Page :: v.i4 != SELF ==> Walk(map[root := EmptyTable()[SELF := self]], root, v) == None
  {
    var ts, level := map[root := EmptyTable()[SELF := self]], map[root := 4];
    forall f, i: Index ensures !Link(ts, level, root, f, i) {}
  }

  lemma AddTableKeepsTree(ts: Tables, level: map<nat, nat>, root: nat, f: nat, i: Index, fr: nat)
    requires Tree(ts, level, root) && f in ts && level[f] >= 2 && !(f == root && i == SELF)
    requires !ts[f][i].p && fr !in ts
    ensures Tree(AddTable(ts, f, i, fr), level[fr := level[f] - 1], root)
  {
    AddTableLinks(ts, level, root, f, i, fr);
    hide Link;
  }

  /** The only new link is the one to the new table. */
  lemma AddTableLinks(ts: Tables, level: map<nat, nat>, root: nat, f: nat, i: Index, fr: nat)
    requires f in ts && f in level && level[f] >= 2 && !(f == root && i == SELF)
    requires (forall g :: g in ts ==> |ts[g]| == 512) && !ts[f][i].p && fr !in ts
    ensures var ts', level' := AddTable(ts, f, i, fr), level[fr := level[f] - 1];
            && ts'[f][i].addr == fr
            && (forall g, j: Index :: Link(ts', level', root, g, j) <==>
                  Link(ts, level, root, g, j) || (g == f && j == i))
            && (forall g, j: Index :: Link(ts, level, root, g, j) ==>
                  g in ts && |ts[g]| == 512 && ts'[g][j] == ts[g][j])
  {
    var ts', level' := AddTable(ts, f, i, fr), level[fr := level[f] - 1];
    forall g, j: Index ensures Link(ts', level', root, g, j) <==> Link(ts, level, root, g, j) || (g == f && j == i) {
      if g == fr && level'[fr] >= 2 { assert ts'[fr][j] == ZERO_ENTRY; }
    }
    forall g, j: Index | Link(ts, level, root, g, j) ensures ts'[g][j] == ts[g][j] {}
  }

  /** A new empty table changes no translation. */
  lemma AddTableKeepsWalks(ts: Tables, level: map<nat, nat>, root: nat, f: nat, i: Index, fr: nat, v: Page)
    requires Tree(ts, level, root) && f in ts && level[f] >= 2 && !(f == root && i == SELF)
    requires !ts[f][i].p && fr !in ts && v.i4 != SELF
    ensures Walk(AddTable(ts, f, i, fr), root, v) == Walk(ts, root, v)
  {
    var ts' := AddTable(ts, f, i, fr);
    assert forall j: Index :: Present(ts', fr, j) == None;
    forall g, j: Index | g != fr && !(g == f && j == i) ensures Present(ts', g, j) == Present(ts, g, j) {}
    assert Present(ts, f, i) == None && Sub(ts', f, i) == Some(fr);
    match Sub(ts, root, v.i4) {
      case None =>
      case Some(f3) =>
        assert Link(ts, level, root, root, v.i4);
        match Sub(ts, f3, v.i3) {
          case None =>
          case Some(f2) =>
            assert Link(ts, level, root, f3, v.i3);
        }
    }
  }

  /** The path of a mapped or partly mapped page, level by level. */
  lemma PathLevels(ts: Tables, level: map<nat, nat>, root: nat, v: Page)
    requires Tree(ts, level, root) && v.i4 != SELF
    ensures Sub(ts, root, v.i4).Some? ==>
              var f3 := Sub(ts, root, v.i4).value;
              && f3 in ts && level[f3] == 3 && Link(ts, level, root, root, v.i4)
              && (Sub(ts, f3, v.i3).Some? ==>
                    var f2 := Sub(ts, f3, v.i3).value;
                    && f2 in ts && level[f2] == 2 && Link(ts, level, root, f3, v.i3)
                    && (Sub(ts, f2, v.i2).Some? ==>
                          var f1 := Sub(ts, f2, v.i2).value;
                          f1 in ts && level[f1] == 1 && Link(ts, level, root, f2, v.i2)))
  {
    if Sub(ts, root, v.i4).Some? {
      assert Link(ts, level, root, root, v.i4);
      var f3 := Sub(ts, root, v.i4).value;
      if Sub(ts, f3, v.i3).Some? {
        assert Link(ts, level, root, f3, v.i3);
        var f2 := Sub(ts, f3, v.i3).value;
        if Sub(ts, f2, v.i2).Some? {
          assert Link(ts, level, root, f2, v.i2);
        }
      }
    }
  }

  /** In a tree, two pages share their lowest-level table only when they agree
      on the three upper indices. */
  lemma LeafTableUnique(ts: Tables, level: map<nat, nat>, root: nat, v: Page, w: Page)
    requires Tree(ts, level, root) && v.i4 != SELF && w.i4 != SELF
    requires LeafTable(ts, root, v).Some? && LeafTable(ts, root, v) == LeafTable(ts, root, w)
    ensures v.i4 == w.i4 && v.i3 == w.i3 && v.i2 == w.i2
  {
    PathLevels(ts, level, root, v);
    PathLevels(ts, level, root, w);
  }

  /** Writing a lowest-level entry changes the translation of one page only. */
  lemma LeafWrite(ts: Tables, level: map<nat, nat>, root: nat, v: Page, e: Pte)
    requires Tree(ts, level, root) && v.i4 != SELF && LeafTable(ts, root, v).Some?
    ensures LeafTable(ts, root, v).value in ts && level[LeafTable(ts, root, v).value] == 1
    ensures var ts' := SetEntry(ts, LeafTable(ts, root, v).value, v.i1, e);
            && Tree(ts', level, root)
            && Walk(ts', root, v) == (if e.p then Some(e) else None)
            && (forall w: Page :: w.i4 != SELF && w != v ==> Walk(ts', root, w) == Walk(ts, root, w))
  {
    PathLevels(ts, level, root, v);
    var f1 := LeafTable(ts, root, v).value;
    var ts' := SetEntry(ts, f1, v.i1, e);
    LeafWriteTree(ts, level, root, f1, v.i1, e);
    LeafWriteWalk(ts, level, root, v, v, e);
    forall w: Page | w.i4 != SELF && w != v ensures Walk(ts', root, w) == Walk(ts, root, w) {
      LeafWriteWalk(ts, level, root, v, w, e);
    }
  }

  lemma LeafWriteTree(ts: Tables, level: map<nat, nat>, root: nat, f: nat, i: Index, e: Pte)
    requires Tree(ts, level, root) && f in ts && level[f] == 1
    ensures Tree(SetEntry(ts, f, i, e), level, root)
  {
    var ts' := SetEntry(ts, f, i, e);
    forall g, j: Index ensures Link(ts', level, root, g, j) <==> Link(ts, level, root, g, j) {}
    forall g, j: Index | Link(ts, level, root, g, j) ensures ts'[g][j] == ts[g][j] {}
    hide Link;
  }

  lemma LeafWriteWalk(ts: Tables, level: map<nat, nat>, root: nat, v: Page, w: Page, e: Pte)
    requires Tree(ts, level, root) && v.i4 != SELF && w.i4 != SELF && LeafTable(ts, root, v).Some?
    ensures LeafTable(ts, root, v).value in ts
    ensures var ts' := SetEntry(ts, LeafTable(ts, root, v).value, v.i1, e);
            Walk(ts', root, w) == if w != v then Walk(ts, root, w) else if e.p then Some(e) else None
  {
    PathLevels(ts, level, root, v);
    var f1 := LeafTable(ts, root, v).value;
    var ts' := SetEntry(ts, f1, v.i1, e);
    forall g, j: Index | g != f1 ensures Present(ts', g, j) == Present(ts, g, j) {}
    PathLevels(ts, level, root, w);
    assert LeafTable(ts', root, w) == LeafTable(ts, root, w);
    if w != v && LeafTable(ts, root, w) == Some(f1) { LeafTableUnique(ts, level, root, v, w); }
  }

  // ----- the self-map window

  /** Bases of the four windows: the root table, then all tables of each level below. */
  const ROOT_WINDOW: nat := 0xFFFF_FFFF_FFFF_F000
  const THIRD_WINDOW: nat := 0xFFFF_FFFF_FFE0_0000
  const SECOND_WINDOW: nat := 0xFFFF_FFFF_C000_0000
  const FIRST_WINDOW: nat := 0xFFFF_FF80_0000_0000

  // The entry numbers in those windows: `(va >> shift) & mask`.
  function RootEntry(va: nat): nat { va / 0x80_0000_0000 % 0x200 }
  function ThirdEntry(va: nat): nat { va / 0x4000_0000 % 0x4_0000 }
  function SecondEntry(va: nat): nat { va / 0x20_0000 % 0x800_0000 }
  function FirstEntry(va: nat): nat { va / 0x1000 % 0x10_0000_0000 }

  function Slot(a: nat): Index { a % 0x1000 / 8 }

  /** An entry number is the concatenation of the indices down to its level. */
  lemma EntryNumbers(va: nat)
    ensures var v := PageOf(va);
      && RootEntry(va) == v.i4
      && ThirdEntry(va) == 512 * v.i4 + v.i3
      && SecondEntry(va) == 512 * (512 * v.i4 + v.i3) + v.i2
      && FirstEntry(va) == 512 * (512 * (512 * v.i4 + v.i3) + v.i2) + v.i1
  {
    var x1 := va / 0x1000;
    var x2 := va / 0x20_0000;
    var x3 := va / 0x4000_0000;
    var x4 := va / 0x80_0000_0000;
    assert x2 == x1 / 512 && x3 == x2 / 512 && x4 == x3 / 512;
    ModSplit(x3, 512);
    ModSplit(x2, 0x4_0000);
    ModSplit(x1, 0x800_0000);
  }

  lemma ModSplit(x: nat, m: nat)
    requires m == 512 || m == 0x4_0000 || m == 0x800_0000
    ensures x % (512 * m) == 512 * (x / 512 % m) + x % 512
  {}

  lemma Digit(x: nat, q: nat, r: nat)
    requires x == 512 * q + r && r < 512
    ensures x / 512 == q && x % 512 == r
  {}

  lemma PageNumber(a: nat, q: nat, r: nat)
    requires a == 0x1000 * q + 8 * r && r < 512
    ensures a / 0x1000 == q && a % 0x1000 / 8 == r
  {}

  /** An address put together from four indices and an entry number. */
  lemma WindowAddress(v: Page, slot: nat, a: nat)
    requires slot < 512
    requires a == 0xFFFF_0000_0000_0000 +
                  0x80_0000_0000 * v.i4 + 0x4000_0000 * v.i3 + 0x20_0000 * v.i2 + 0x1000 * v.i1 + 8 * slot
    ensures PageOf(a) == v && Slot(a) == slot
  {
    var q4 := 0x1_FFFE00 + v.i4;
    var q3 := 512 * q4 + v.i3;
    var q2 := 512 * q3 + v.i2;
    var q1 := 512 * q2 + v.i1;
    PageNumber(a, q1, slot);
    Digit(q1, q2, v.i1);
    Digit(q2, q3, v.i2);
    Digit(q3, q4, v.i3);
    Digit(q4, 0xFFFF, v.i4);
    assert a / 0x20_0000 == a / 0x1000 / 512;
    assert a / 0x4000_0000 == a / 0x20_0000 / 512;
    assert a / 0x80_0000_0000 == a / 0x4000_0000 / 512;
  }

  /** The index of a page in its table of level k. */
  function IndexAt(v: Page, k: nat): Index
    requires 1 <= k <= 4
  {
    if k == 4 then v.i4 else if k == 3 then v.i3 else if k == 2 then v.i2 else v.i1
  }

  /** The table of level k on the path of a page. */
  function TableAt(ts: Tables, root: nat, v: Page, k: nat): Option<nat>
    requires 1 <= k <= 4
    decreases 4 - k
  {
    if k == 4 then Some(root)
    else
      match TableAt(ts, root, v, k + 1)
      case None => None
      case Some(f) => Sub(ts, f, IndexAt(v, k + 1))
  }

  function WindowOf(k: nat): nat
    requires 1 <= k <= 4
  {
    if k == 4 then ROOT_WINDOW else if k == 3 then THIRD_WINDOW else if k == 2 then SECOND_WINDOW else FIRST_WINDOW
  }

  function EntryOf(k: nat, va: nat): nat
    requires 1 <= k <= 4
  {
    if k == 4 then RootEntry(va) else if k == 3 then ThirdEntry(va)
    else if k == 2 then SecondEntry(va) else FirstEntry(va)
  }

  /** The frame in which the hardware finds an address. */
  function FrameOf(ts: Tables, root: nat, a: nat): Option<nat> {
    match Walk(ts, root, PageOf(a)) case Some(e) => Some(e.addr) case None => None
  }

  predicate SelfMapped(ts: Tables, root: nat) {
    Sub(ts, root, SELF) == Some(root)
  }

  /** The page, as seen through the self-map, that shows v's table of level k. */
  function WindowPage(v: Page, k: nat): Page
    requires 1 <= k <= 4
  {
    if k == 4 then Page(SELF, SELF, SELF, SELF)
    else if k == 3 then Page(SELF, SELF, SELF, v.i4)
    else if k == 2 then Page(SELF, SELF, v.i4, v.i3)
    else Page(SELF, v.i4, v.i3, v.i2)
  }

  /** The index arithmetic of the windows. */
  lemma WindowAddresses(va: nat, k: nat)
    requires 1 <= k <= 4
    ensures PageOf(WindowOf(k) + 8 * EntryOf(k, va)) == WindowPage(PageOf(va), k)
    ensures Slot(WindowOf(k) + 8 * EntryOf(k, va)) == IndexAt(PageOf(va), k)
    ensures k < 4 ==> PageOf(WindowOf(k) + 0x1000 * EntryOf(k + 1, va)) == WindowPage(PageOf(va), k)
  {
    hide PageOf, Slot, RootEntry, ThirdEntry, SecondEntry, FirstEntry;
    var v := PageOf(va);
    EntryNumbers(va);
    WindowAddress(WindowPage(v, k), IndexAt(v, k), WindowOf(k) + 8 * EntryOf(k, va));
    if k < 4 {
      WindowAddress(WindowPage(v, k), 0, WindowOf(k) + 0x1000 * EntryOf(k + 1, va));
    }
  }

  /** Walking through the self-map shortens the walk by one level each time. */
  lemma WindowWalk(ts: Tables, root: nat, v: Page, k: nat)
    requires 1 <= k <= 4 && SelfMapped(ts, root)
    ensures (match Walk(ts, root, WindowPage(v, k)) case Some(e) => Some(e.addr) case None => None) ==
            TableAt(ts, root, v, k)
  {
    PathTables(ts, root, v);
  }

  /** The page that the window of level k shows at entry EntryOf(k, va) is the
      table of level k on the path of va, and the entry is va's own index; the
      same page is reached by its page number in the window of that level. */
  lemma WindowShowsTable(ts: Tables, root: nat, va: nat, k: nat)
    requires 1 <= k <= 4 && SelfMapped(ts, root)
    ensures FrameOf(ts, root, WindowOf(k) + 8 * EntryOf(k, va)) == TableAt(ts, root, PageOf(va), k)
    ensures Slot(WindowOf(k) + 8 * EntryOf(k, va)) == IndexAt(PageOf(va), k)
    ensures k < 4 ==> FrameOf(ts, root, WindowOf(k) + 0x1000 * EntryOf(k + 1, va)) == TableAt(ts, root, PageOf(va), k)
  {
    hide PageOf, Slot, WindowOf, EntryOf, WindowPage, Walk, TableAt;
    WindowAddresses(va, k);
    WindowWalk(ts, root, PageOf(va), k);
  }

  lemma PathTables(ts: Tables, root: nat, v: Page)
    ensures TableAt(ts, root, v, 3) == Sub(ts, root, v.i4)
    ensures TableAt(ts, root, v, 2) == match TableAt(ts, root, v, 3) case None => None case Some(f) => Sub(ts, f, v.i3)
    ensures TableAt(ts, root, v, 1) == match TableAt(ts, root, v, 2) case None => None case Some(f) => Sub(ts, f, v.i2)
    ensures TableAt(ts, root, v, 1) == LeafTable(ts, root, v)
  {
    assert TableAt(ts, root, v, 4) == Some(root);
  }

  /** In a tree the table of level k has level k. */
  lemma {:induction false} TableAtLevel(ts: Tables, level: map<nat, nat>, root: nat, v: Page, k: nat)
    requires 1 <= k <= 4 && Tree(ts, level, root) && v.i4 != SELF
    ensures TableAt(ts, root, v, k).Some? ==>
              var f := TableAt(ts, root, v, k).value;
              f in ts && level[f] == k && !(f == root && IndexAt(v, k) == SELF)
    decreases 4 - k
  {
    if k < 4 {
      TableAtLevel(ts, level, root, v, k + 1);
      if TableAt(ts, root, v, k).Some? {
        assert Link(ts, level, root, TableAt(ts, root, v, k + 1).value, IndexAt(v, k + 1));
      }
    }
  }

  /** Writing an entry of the level-k table leaves the path down to it alone. */
  lemma {:induction false} PathAbove(ts: Tables, level: map<nat, nat>, root: nat, v: Page, k: nat, j: nat, e: Pte)
    requires 1 <= k <= j <= 4 && Tree(ts, level, root) && v.i4 != SELF
    requires TableAt(ts, root, v, k).Some?
    ensures TableAt(ts, root, v, k).value in ts
    ensures var f := TableAt(ts, root, v, k).value;
            TableAt(SetEntry(ts, f, IndexAt(v, k), e), root, v, j) == TableAt(ts, root, v, j)
    decreases 4 - j
  {
    hide Link, Sub, IndexAt;
    TableAtLevel(ts, level, root, v, k);
    if j < 4 {
      PathAbove(ts, level, root, v, k, j + 1, e);
      TableAtLevel(ts, level, root, v, j + 1);
      if TableAt(ts, root, v, j + 1).Some? {
        var f, g := TableAt(ts, root, v, k).value, TableAt(ts, root, v, j + 1).value;
        SubElsewhere(ts, f, IndexAt(v, k), e, g, IndexAt(v, j + 1));
      }
    }
  }

  lemma SubElsewhere(ts: Tables, f: nat, i: Index, e: Pte, g: nat, j: Index)
    requires f in ts && |ts[f]| == 512 && g != f
    ensures Sub(SetEntry(ts, f, i, e), g, j) == Sub(ts, g, j)
  {}

  /** A present entry written at level k is the next step of the path, and the
      self-map stays. */
  lemma LinkShows(ts: Tables, level: map<nat, nat>, root: nat, v: Page, k: nat, e: Pte)
    requires 2 <= k <= 4 && Tree(ts, level, root) && v.i4 != SELF && e.p
    requires TableAt(ts, root, v, k).Some?
    ensures TableAt(ts, root, v, k).value in ts
    ensures var ts' := SetEntry(ts, TableAt(ts, root, v, k).value, IndexAt(v, k), e);
            SelfMapped(ts', root) && TableAt(ts', root, v, k - 1) == Some(e.addr)
  {
    TableAtLevel(ts, level, root, v, k);
    PathAbove(ts, level, root, v, k, k, e);
  }

  /** The access rights the hardware grants: every level of the path must grant them. */
  function Rights(ts: Tables, root: nat, v: Page): Option<(bool, bool, bool)> {
    match Present(ts, root, v.i4)
    case None => None
    case Some(e4) =>
      match Present(ts, e4.addr, v.i3)
      case None => None
      case Some(e3) =>
        match Present(ts, e3.addr, v.i2)
        case None => None
        case Some(e2) =>
          match Present(ts, e2.addr, v.i1)
          case None => None
          case Some(e1) =>
            Some((e4.rw && e3.rw && e2.rw && e1.rw, e4.us && e3.us && e2.us && e1.us, e4.nx || e3.nx || e2.nx || e1.nx))
  }

  /** In a tree they are those of the lowest entry. */
  lemma RightsOfLeaf(ts: Tables, level: map<nat, nat>, root: nat, v: Page)
    requires Tree(ts, level, root) && v.i4 != SELF
    ensures Rights(ts, root, v) == match Walk(ts, root, v) case None => None case Some(e) => Some((e.rw, e.us, e.nx))
  {
    PathLevels(ts, level, root, v);
  }

  // ----- the code

  datatype MappingUse =
    | DeviceRegisters | DeviceMemory | ReadWriteMemory | ReadOnlyMemory | CopyOnWriteMemory | ExecutableMemory

  class AddressSpace {
    /** Frame of the root table. */
    const root: nat
    /** The frames that hold tables, as physical memory. */
    var tables: Tables
    ghost var level: map<nat, nat>
    const pool: Pool

    /** The tables form a tree, and the free pages are none of them. */
    ghost predicate Valid()
      reads this, pool
    {
      && Tree(tables, level, root)
      && pool.Valid()
      && FreshFrames(pool.Contents(), tables)
    }

    constructor (root: nat, tables: Tables, ghost level: map<nat, nat>, pool: Pool)
      requires Tree(tables, level, root) && pool.Valid() && FreshFrames(pool.Contents(), tables)
      ensures Valid() && this.root == root && this.tables == tables && this.pool == pool
    {
      this.root, this.tables, this.level, this.pool := root, tables, level, pool;
    }

    /** Read an entry through its virtual address. */
    method ReadEntry(a: nat) returns (e: Pte)
      requires FrameOf(tables, root, a).Some? && FrameOf(tables, root, a).value in tables
      requires |tables[FrameOf(tables, root, a).value]| == 512
      ensures e == tables[FrameOf(tables, root, a).value][Slot(a)]
    {
      var Some(f) := FrameOf(tables, root, a);
      e := tables[f][Slot(a)];
    }

    method WriteEntry(a: nat, e: Pte)
      requires FrameOf(tables, root, a).Some? && FrameOf(tables, root, a).value in tables
      requires |tables[FrameOf(tables, root, a).value]| == 512
      modifies this`tables
      ensures tables == SetEntry(old(tables), old(FrameOf(tables, root, a).value), Slot(a), e)
    {
      var Some(f) := FrameOf(tables, root, a);
      tables := SetEntry(tables, f, Slot(a), e);
    }

    /** `memset` of one whole page to zero. */
    method ClearPage(a: nat)
      requires FrameOf(tables, root, a).Some?
      modifies this`tables
      ensures tables == old(tables)[old(FrameOf(tables, root, a).value) := EmptyTable()]
    {
      var Some(f) := FrameOf(tables, root, a);
      tables := tables[f := EmptyTable()];
    }

    /** Make the level-k entry of an address point to a table, a new empty one if
        it is not present: no translation changes. */
    method EnsureTable(k: nat, va: nat)
      requires Valid() && 2 <= k <= 4 && PageOf(va).i4 != SELF
      requires TableAt(tables, root, PageOf(va), k).Some?
      requires TableAt(tables, root, PageOf(va), k - 1).None? ==> pool.Contents() != []
      modifies this`tables, this`level, pool
      ensures Valid()
      ensures TableAt(tables, root, PageOf(va), k - 1).Some?
      ensures old(TableAt(tables, root, PageOf(va), k - 1)).Some? ==> tables == old(tables)
      ensures old(TableAt(tables, root, PageOf(va), k - 1)).None? && k > 2 ==>
                TableAt(tables, root, PageOf(va), k - 2).None?
      ensures old(TableAt(tables, root, PageOf(va), k - 1)).None? ==>
                NewTableAt(old(tables), tables, old(TableAt(tables, root, PageOf(va), k)).value,
                           IndexAt(PageOf(va), k), old(pool.Contents())[0])
      ensures forall w: Page :: w.i4 != SELF ==> Walk(tables, root, w) == old(Walk(tables, root, w))
      ensures pool.Contents() == if old(TableAt(tables, root, PageOf(va), k - 1)).None? then old(pool.Contents())[1..]
                                 else old(pool.Contents())
    {
      hide PageOf, Slot, WindowOf, EntryOf, FrameOf, Walk, IndexAt, TableAt, Tree, Linked, SelfMapped, NewTableAt, Raw;
      ghost var ts, v := tables, PageOf(va);
      EntryReached(ts, level, root, va, k);
      var a := WindowOf(k) + 8 * EntryOf(k, va);
      var e := ReadEntry(a);
      if !e.p {
        ghost var pages := pool.Contents();
        var page := pool.GetFreePage();
        assert page == pages[0];
        var fr := page / 0x1000 % FRAMES;
        WriteEntry(a, Linked(e, fr));
        NewTableReached(ts, level, root, va, k, fr);
        ClearPage(WindowOf(k - 1) + 0x1000 * EntryOf(k, va));
        NewTable(ts, level, root, v, k, fr);
        AddedTable(ts, TableAt(ts, root, v, k).value, IndexAt(v, k), fr);
        level := level[fr := k - 1];
        FreshRest(pages, pool.Contents(), ts, tables);
      }
    }

    /** How many tables of the path are missing. */
    ghost function Missing(va: nat): nat
      reads this
    {
      if TableAt(tables, root, PageOf(va), 1).Some? then 0
      else if TableAt(tables, root, PageOf(va), 2).Some? then 1
      else if TableAt(tables, root, PageOf(va), 3).Some? then 2
      else 3
    }

    /** `platform_map`: afterwards the address translates to the given physical address
        with the given rights, and every other page translates as before. Physical
        addresses have 52 bits, of which an entry holds the upper 40. */
    method Map(va: nat, physaddr: nat, use: MappingUse)
      requires Valid() && PageOf(va).i4 != SELF
      requires |pool.Contents()| >= Missing(va)
      modifies this`tables, this`level, pool
      ensures Valid()
      ensures pool.Contents() == old(pool.Contents())[old(Missing(va))..]
      ensures Walk(tables, root, PageOf(va)).Some?
      ensures var e := Walk(tables, root, PageOf(va)).value;
              && e.addr == physaddr / 0x1000 % 0x100_0000_0000
              && (physaddr < 0x10_0000_0000_0000 ==> e.addr * 0x1000 + physaddr % 0x1000 == physaddr)
              && e.rw == (use != ReadOnlyMemory && use != CopyOnWriteMemory)
              && e.nx == (use != ExecutableMemory)
              && !e.us && e.g && !e.pcd && !e.pwt && !e.pat
      ensures Rights(tables, root, PageOf(va)) ==
              Some((use != ReadOnlyMemory && use != CopyOnWriteMemory, false, use != ExecutableMemory))
      ensures forall w: Page :: w.i4 != SELF && w != PageOf(va) ==> Walk(tables, root, w) == old(Walk(tables, root, w))
    {
      hide PageOf, Walk, Tree, Rights;
      EnsurePath(va);
      EntryReached(tables, level, root, va, 1);
      var e := ReadEntry(WindowOf(1) + 8 * EntryOf(1, va));
      e := e.(addr := physaddr / 0x1000 % FRAMES, p := true, rw := true, us := false, nx := true, g := true,
              pcd := false, pwt := false, pat := false);
      match use {
        case DeviceRegisters =>
        case DeviceMemory =>
        case ReadWriteMemory =>
        case ReadOnlyMemory => e := e.(rw := false);
        case CopyOnWriteMemory => e := e.(rw := false);
        case ExecutableMemory => e := e.(nx := false);
      }
      SetLeaf(va, e);
      RightsOfLeaf(tables, level, root, PageOf(va));
    }

    /** Make the three upper levels of the path exist. */
    method EnsurePath(va: nat)
      requires Valid() && PageOf(va).i4 != SELF
      requires |pool.Contents()| >= Missing(va)
      modifies this`tables, this`level, pool
      ensures Valid() && TableAt(tables, root, PageOf(va), 1).Some?
      ensures pool.Contents() == old(pool.Contents())[old(Missing(va))..]
      ensures forall w: Page :: w.i4 != SELF ==> Walk(tables, root, w) == old(Walk(tables, root, w))
    {
      hide PageOf, TableAt, Walk, Tree, FreshFrames;
      PathShort(tables, root, PageOf(va));
      EnsureTable(4, va);
      EnsureTable(3, va);
      EnsureTable(2, va);
    }

    /** Write the lowest entry of an address whose path exists. */
    method SetLeaf(va: nat, e: Pte)
      requires Valid() && PageOf(va).i4 != SELF && TableAt(tables, root, PageOf(va), 1).Some?
      modifies this`tables
      ensures Valid()
      ensures Walk(tables, root, PageOf(va)) == if e.p then Some(e) else None
      ensures forall w: Page :: w.i4 != SELF && w != PageOf(va) ==> Walk(tables, root, w) == old(Walk(tables, root, w))
    {
      hide PageOf, Slot, FrameOf, Walk, TableAt, Tree, WindowOf, EntryOf;
      PathTables(tables, root, PageOf(va));
      EntryReached(tables, level, root, va, 1);
      LeafWrite(tables, level, root, PageOf(va), e);
      WriteEntry(WindowOf(1) + 8 * EntryOf(1, va), e);
    }

    /** `platform_unmap`: returns the frame the address was mapped to, or 0, and
        removes the translation of that page only. */
    method Unmap(va: nat) returns (p: nat)
      requires Valid() && PageOf(va).i4 != SELF
      modifies this`tables
      ensures Valid()
      ensures p == match old(Walk(tables, root, PageOf(va))) case None => 0 case Some(e) => e.addr * 0x1000
      ensures Walk(tables, root, PageOf(va)) == None
      ensures forall w: Page :: w.i4 != SELF && w != PageOf(va) ==> Walk(tables, root, w) == old(Walk(tables, root, w))
    {
      hide PageOf, Slot, FrameOf, Tree;
      PathTables(tables, root, PageOf(va));
      EntryReached(tables, level, root, va, 4);
      var e := ReadEntry(ROOT_WINDOW + 8 * RootEntry(va));
      if !e.p { return 0; }
      EntryReached(tables, level, root, va, 3);
      e := ReadEntry(THIRD_WINDOW + 8 * ThirdEntry(va));
      if !e.p { return 0; }
      EntryReached(tables, level, root, va, 2);
      e := ReadEntry(SECOND_WINDOW + 8 * SecondEntry(va));
      if !e.p { return 0; }
      EntryReached(tables, level, root, va, 1);
      e := ReadEntry(FIRST_WINDOW + 8 * FirstEntry(va));
      if !e.p { return 0; }
      p := e.addr * 0x1000;
      SetLeaf(va, e.(p := false));
    }
  }

  /** Unmapping a page returns the physical page it was mapped to, and leaves every
      translation as it was before, but for the page's own. */
  method MapAndUnmap(space: AddressSpace, va: nat, physaddr: nat, use: MappingUse) returns (p: nat)
    requires space.Valid() && PageOf(va).i4 != 511 && physaddr < 0x10_0000_0000_0000
    requires |space.pool.Contents()| >= space.Missing(va)
    modifies space`tables, space`level, space.pool
    ensures space.Valid() && p == physaddr - physaddr % 0x1000
    ensures Walk(space.tables, space.root, PageOf(va)) == None
    ensures forall w: Page :: w.i4 != 511 && w != PageOf(va) ==>
              Walk(space.tables, space.root, w) == old(Walk(space.tables, space.root, w))
  {
    hide PageOf, Walk, AddressSpace.Missing;
    space.Map(va, physaddr, use);
    p := space.Unmap(va);
  }

  /** Below a missing table the path is missing. */
  lemma PathShort(ts: Tables, root: nat, v: Page)
    ensures TableAt(ts, root, v, 4) == Some(root)
    ensures TableAt(ts, root, v, 3).None? ==> TableAt(ts, root, v, 2).None?
    ensures TableAt(ts, root, v, 2).None? ==> TableAt(ts, root, v, 1).None?
  {}

  /** Taking the first free page into use leaves the others fresh. */
  lemma FreshRest(pages: seq<nat>, rest: seq<nat>, ts: Tables, ts': Tables)
    requires pages != [] && pages == [pages[0]] + rest && FreshFrames(pages, ts)
    requires ts'.Keys <= ts.Keys + {pages[0] / 0x1000 % FRAMES}
    ensures FreshFrames(rest, ts')
  {
    forall i | 0 <= i < |rest| ensures rest[i] == pages[i + 1] {}
    forall i | 0 <= i < |rest| ensures rest[i] / 0x1000 !in ts' {
      assert pages[0] != pages[i + 1];
    }
  }

  /** The table an entry belongs to, reached through the window. */
  lemma EntryReached(ts: Tables, level: map<nat, nat>, root: nat, va: nat, k: nat)
    requires 1 <= k <= 4 && Tree(ts, level, root) && PageOf(va).i4 != SELF
    requires TableAt(ts, root, PageOf(va), k).Some?
    ensures var f, a := TableAt(ts, root, PageOf(va), k).value, WindowOf(k) + 8 * EntryOf(k, va);
            && f in ts && |ts[f]| == 512 && level[f] == k && !(f == root && IndexAt(PageOf(va), k) == SELF)
            && FrameOf(ts, root, a) == Some(f) && Slot(a) == IndexAt(PageOf(va), k)
            && (k > 1 ==> TableAt(ts, root, PageOf(va), k - 1).Some? == ts[f][IndexAt(PageOf(va), k)].p)
  {
    hide PageOf, Slot, WindowOf, EntryOf, FrameOf;
    TableAtLevel(ts, level, root, PageOf(va), k);
    WindowShowsTable(ts, root, va, k);
  }

  /** The tables after an entry of the level-k table is made to point to a frame. */
  function LinkTable(ts: Tables, root: nat, v: Page, k: nat, fr: nat): Tables
    requires 2 <= k <= 4 && TableAt(ts, root, v, k).Some?
    requires TableAt(ts, root, v, k).value in ts && |ts[TableAt(ts, root, v, k).value]| == 512
  {
    var f, i := TableAt(ts, root, v, k).value, IndexAt(v, k);
    SetEntry(ts, f, i, Linked(ts[f][i], fr))
  }

  /** The new table is what the next window shows. */
  lemma NewTableReached(ts: Tables, level: map<nat, nat>, root: nat, va: nat, k: nat, fr: nat)
    requires 2 <= k <= 4 && Tree(ts, level, root) && PageOf(va).i4 != SELF
    requires TableAt(ts, root, PageOf(va), k).Some?
    ensures var f := TableAt(ts, root, PageOf(va), k).value; f in ts && |ts[f]| == 512
    ensures FrameOf(LinkTable(ts, root, PageOf(va), k, fr), root, WindowOf(k - 1) + 0x1000 * EntryOf(k, va)) == Some(fr)
  {
    hide PageOf, Slot, WindowOf, EntryOf, FrameOf;
    var v := PageOf(va);
    TableAtLevel(ts, level, root, v, k);
    var f := TableAt(ts, root, v, k).value;
    LinkShows(ts, level, root, v, k, Linked(ts[f][IndexAt(v, k)], fr));
    WindowShowsTable(LinkTable(ts, root, v, k, fr), root, va, k - 1);
  }

  /** Linking and clearing a fresh frame keeps the tree and every translation,
      and makes the path one level longer. */
  lemma NewTable(ts: Tables, level: map<nat, nat>, root: nat, v: Page, k: nat, fr: nat)
    requires 2 <= k <= 4 && Tree(ts, level, root) && v.i4 != SELF && fr !in ts
    requires TableAt(ts, root, v, k).Some? && TableAt(ts, root, v, k - 1).None?
    ensures var f := TableAt(ts, root, v, k).value; f in ts && |ts[f]| == 512
    ensures var ts' := LinkTable(ts, root, v, k, fr)[fr := EmptyTable()];
            && Tree(ts', level[fr := k - 1], root)
            && TableAt(ts', root, v, k - 1) == Some(fr)
            && (k > 2 ==> TableAt(ts', root, v, k - 2).None?)
            && (forall w: Page :: w.i4 != SELF ==> Walk(ts', root, w) == Walk(ts, root, w))
            && ts' == AddTable(ts, TableAt(ts, root, v, k).value, IndexAt(v, k), fr)
  {
    hide Tree, Walk, IndexAt;
    TableAtLevel(ts, level, root, v, k);
    var f, i := TableAt(ts, root, v, k).value, IndexAt(v, k);
    NotPresent(ts, level, root, v, k);
    assert LinkTable(ts, root, v, k, fr)[fr := EmptyTable()] == AddTable(ts, f, i, fr);
    AddTableKeepsTree(ts, level, root, f, i, fr);
    forall w: Page | w.i4 != SELF ensures Walk(AddTable(ts, f, i, fr), root, w) == Walk(ts, root, w) {
      AddTableKeepsWalks(ts, level, root, f, i, fr, w);
    }
    NewTablePath(ts, level, root, v, k, k, fr);
  }

  lemma {:induction false} NewTablePath(ts: Tables, level: map<nat, nat>, root: nat, v: Page, k: nat, j: nat, fr: nat)
    requires 2 <= k <= j <= 4 && Tree(ts, level, root) && v.i4 != SELF && fr !in ts
    requires TableAt(ts, root, v, k).Some?
    ensures var f := TableAt(ts, root, v, k).value; f in ts && |ts[f]| == 512
    ensures TableAt(AddTable(ts, TableAt(ts, root, v, k).value, IndexAt(v, k), fr), root, v, j) ==
            TableAt(ts, root, v, j)
    decreases 4 - j
  {
    TableAtLevel(ts, level, root, v, k);
    if j < 4 {
      NewTablePath(ts, level, root, v, k, j + 1, fr);
      TableAtLevel(ts, level, root, v, j + 1);
    }
  }

  lemma NotPresent(ts: Tables, level: map<nat, nat>, root: nat, v: Page, k: nat)
    requires 2 <= k <= 4 && Tree(ts, level, root) && v.i4 != SELF
    requires TableAt(ts, root, v, k).Some? && TableAt(ts, root, v, k - 1).None?
    ensures var f := TableAt(ts, root, v, k).value; f in ts && |ts[f]| == 512 && !ts[f][IndexAt(v, k)].p
  {
    TableAtLevel(ts, level, root, v, k);
  }

  /** The free pages are distinct frames in range, none of which holds a table. */
  ghost predicate FreshFrames(pages: seq<nat>, ts: Tables) {
    && (forall i :: 0 <= i < |pages| ==>
          pages[i] % 0x1000 == 0 && pages[i] / 0x1000 < FRAMES && pages[i] / 0x1000 !in ts)
    && Distinct(pages)
  }
}
