/** The list of free physical memory regions that fresh page frames come from. */
module FramePool {
  const PAGE: nat := 4096

  datatype Region = Region(address: nat, pagecount: nat)

  /** The pages of a region, in the order they are handed out. */
  function Pages(r: Region): (s: seq<nat>)
    ensures |s| == r.pagecount
    ensures forall i :: 0 <= i < |s| ==> s[i] == r.address + i * 4096
  {
    seq(r.pagecount, i => r.address + i * PAGE)
  }

  function AllPages(rs: seq<Region>): seq<nat> {
    if rs == [] then [] else Pages(rs[0]) + AllPages(rs[1..])
  }

  /** No page occurs twice. */
  ghost predicate Distinct(pages: seq<nat>) {
    forall i, j :: 0 <= i < j < |pages| ==> pages[i] != pages[j]
  }

  /** No page reaches into the range of bytes. */
  ghost predicate Clear(pages: seq<nat>, start: nat, length: nat) {
    forall i :: 0 <= i < |pages| ==> pages[i] + PAGE <= start || start + length <= pages[i]
  }

  lemma DistinctWith(r: Region, pages: seq<nat>, start: nat, length: nat)
    requires Distinct(pages) && Clear(pages, start, length)
    requires start <= r.address && r.address + r.pagecount * PAGE <= start + length
    ensures Distinct(Pages(r) + pages)
  {
    forall i | 0 <= i < r.pagecount ensures start <= Pages(r)[i] < start + length {}
  }

  lemma PagesFirst(r: Region)
    requires r.pagecount > 0
    ensures Pages(r) == [r.address] + Pages(Region(r.address + PAGE, r.pagecount - 1))
  {
    var rest := Pages(Region(r.address + PAGE, r.pagecount - 1));
    forall i | 0 <= i < |rest| ensures rest[i] == Pages(r)[i + 1] {
      assert r.address + (i + 1) * PAGE == r.address + PAGE + i * PAGE;
    }
  }

  lemma FirstOnce(before: seq<nat>, page: nat, rest: seq<nat>)
    requires Distinct(before) && before == [page] + rest
    ensures page !in rest && Distinct(rest)
  {
    forall i | 0 <= i < |rest| ensures rest[i] == before[i + 1] != page {
      assert before[0] != before[i + 1];
    }
  }

  class Pool {
    /** The linked list `head`, first region first. */
    var regions: seq<Region>

    ghost predicate Valid()
      reads this
    {
      && (forall i :: 0 <= i < |regions| ==> regions[i].pagecount > 0 && regions[i].address % PAGE == 0)
      && Distinct(Contents())
    }

    /** Every page that will be handed out, in order. */
    ghost function Contents(): seq<nat>
      reads this
    {
      AllPages(regions)
    }

    constructor ()
      ensures Valid() && Contents() == []
    {
      regions := [];
    }

    /** Take the next page of the first region; drop the region when it is used up. */
    method GetFreePage() returns (page: nat)
      requires Valid() && Contents() != []
      modifies this
      ensures Valid() && old(Contents()) == [page] + Contents()
      ensures page % 4096 == 0 && page !in Contents()
    {
      ghost var before := Contents();
      var c := regions[0];
      page := c.address;
      PagesFirst(c);
      c := Region(c.address + PAGE, c.pagecount - 1);
      if c.pagecount == 0 {
        assert Pages(c) == [];
        regions := regions[1..];
      } else {
        regions := [c] + regions[1..];
        assert regions[1..] == old(regions[1..]);
      }
      FirstOnce(before, page, Contents());
    }

    /** Offer the whole pages of a memory region that overlaps none of the
        remaining pages; a region that starts at a page boundary loses one. */
    method AddRegion(start: nat, length: nat)
      requires Valid() && Clear(Contents(), start, length)
      requires length >= PAGE + (PAGE - start % PAGE)
      modifies this
      ensures Valid()
      ensures exists r: Region ::
                && Contents() == Pages(r) + old(Contents())
                && r.address % 4096 == 0 && start <= r.address < start + 4096
                && r.pagecount == (start + length - r.address) / 4096 - (if start == r.address then 1 else 0)
    {
      ghost var rest := Contents();
      var left := length - (PAGE - start % PAGE);
      var first := (start + PAGE - 1) / PAGE * PAGE;
      var c := Region(first, left / PAGE);
      FirstBoundary(start, first);
      DistinctWith(c, rest, start, length);
      regions := [c] + regions;
      assert regions[1..] == old(regions);
      assert Contents() == Pages(c) + rest;
    }
  }

  lemma FirstBoundary(start: nat, first: nat)
    requires first == (start + PAGE - 1) / PAGE * PAGE
    ensures first == if start % PAGE == 0 then start else start + PAGE - start % PAGE
    ensures first % PAGE == 0
  {}
}
